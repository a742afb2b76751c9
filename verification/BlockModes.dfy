/**
  CBC, CTR and PKCS#7 padding over an abstract block permutation (extensions/src/crypto.rs),
  transformed in place, measured against the formulas of NIST SP 800-38A (sections 6.2 and 6.5,
  counters as in Appendix B.1) and RFC 5652 section 6.3.
 */
module BlockModes {
  import opened Common

  // ----- Bytes -----

  type octet = bv8
  type octets = seq<bv8>

  function ToOctet(v: int): octet
    requires 0 <= v < 256
  {
    v as bv8
  }

  function FromOctet(x: octet): (v: int)
    ensures 0 <= v < 256
  {
    x as int
  }

  /** Counting up from zero reaches every value. */
  lemma {:induction false} SomeOctet(v: int)
    requires 0 <= v < 256
    ensures exists x: octet :: FromOctet(x) == v
  {
    if v == 0 {
      ZeroOctet();
    } else {
      SomeOctet(v - 1);
      var x: octet :| FromOctet(x) == v - 1;
      SuccessorValue(x);
      assert FromOctet(Successor(x)) == v;
    }
  }

  lemma OctetRoundTrip(v: int)
    requires 0 <= v < 256
    ensures FromOctet(ToOctet(v)) == v
  {
    SomeOctet(v);
    var x: octet :| FromOctet(x) == v;
    OctetBack(x);
  }

  lemma ZeroOctet()
    ensures FromOctet(0) == 0 && ToOctet(0) == 0
  {}

  lemma OctetBack(x: octet)
    ensures ToOctet(FromOctet(x)) == x
  {}

  /** `wrapping_add(1)`. */
  function Successor(x: octet): octet { x + 1 }

  lemma SuccessorValue(x: octet)
    ensures FromOctet(Successor(x)) == if FromOctet(x) == 255 then 0 else FromOctet(x) + 1
  {
    SuccessorBits(x);
  }

  lemma SuccessorBits(x: bv8)
    ensures x != 255 ==> (x + 1) as int == x as int + 1
    ensures x == 255 ==> (x + 1) as int == 0
    ensures x == 255 <==> x as int == 255
  {}

  function Xor(a: octet, b: octet): octet { a ^ b }

  /** Bit by bit the one or the other, not both. */
  lemma XorBits(a: octet, b: octet)
    ensures Xor(a, b) == (a | b) & !(a & b)
  {}

  lemma XorTwice(a: octet, b: octet)
    ensures Xor(Xor(a, b), b) == a
  {}

  function XorBlock(a: octets, b: octets): (r: octets)
    requires |a| <= |b|
    ensures |r| == |a|
  {
    seq(|a|, i requires 0 <= i < |a| => Xor(a[i], b[i]))
  }

  lemma XorBlockTwice(a: octets, b: octets)
    requires |a| <= |b|
    ensures XorBlock(XorBlock(a, b), b) == a
  {
    forall i | 0 <= i < |a| ensures XorBlock(XorBlock(a, b), b)[i] == a[i] { XorTwice(a[i], b[i]); }
  }

  lemma XorBlockBits(a: octets, b: octets)
    requires |a| <= |b|
    ensures forall i :: 0 <= i < |a| ==> XorBlock(a, b)[i] == (a[i] | b[i]) & !(a[i] & b[i])
  {
    forall i | 0 <= i < |a| ensures XorBlock(a, b)[i] == (a[i] | b[i]) & !(a[i] & b[i]) { XorBits(a[i], b[i]); }
  }

  // ----- The block permutation -----

  datatype Cipher = Cipher(size: nat, enc: octets -> octets, dec: octets -> octets)
  {
    predicate Inverts(b: octets) {
      |enc(b)| == size && |dec(b)| == size && dec(enc(b)) == b && enc(dec(b)) == b
    }

    /** AES has blocks of 16 bytes and Blowfish of 8; `dec` and `enc` undo each other. */
    ghost predicate Valid() {
      size > 0 && forall b: octets {:trigger Inverts(b)} :: |b| == size ==> Inverts(b)
    }

    ghost function Encrypt(b: octets): (r: octets)
      requires Valid() && |b| == size
      ensures |r| == size
    {
      assert Inverts(b);
      enc(b)
    }

    ghost function Decrypt(b: octets): (r: octets)
      requires Valid() && |b| == size
      ensures |r| == size
    {
      assert Inverts(b);
      dec(b)
    }
  }

  lemma Inverse(c: Cipher, b: octets)
    requires c.Valid() && |b| == c.size
    ensures c.Decrypt(c.Encrypt(b)) == b && c.Encrypt(c.Decrypt(b)) == b
  {
    assert c.Inverts(b);
  }

  // ----- Counters -----

  function Power(n: nat): (p: nat)
    ensures p > 0
  {
    if n == 0 then 1 else 256 * Power(n - 1)
  }

  /** A block read as a big-endian number. */
  function Value(b: octets): nat {
    if b == [] then 0 else Value(b[..|b| - 1]) * 256 + FromOctet(b[|b| - 1])
  }

  /** The `n` low-order bytes of a number, big-endian. */
  function Encode(v: nat, n: nat): (b: octets)
    ensures |b| == n
  {
    if n == 0 then [] else Encode(v / 256, n - 1) + [ToOctet(v % 256)]
  }

  /** SP 800-38A, B.1: the counter block after `j` increments modulo 256 to the n. */
  function Counter(iv: octets, j: nat): (b: octets)
    ensures |b| == |iv|
  {
    Encode(Value(iv) + j, |iv|)
  }

  /** The carry loop: bytes from the last to the first until one does not wrap to zero. */
  function Increment(b: octets): (r: octets)
    ensures |r| == |b|
  {
    if b == [] then []
    else
      var front, last := b[..|b| - 1], Successor(b[|b| - 1]);
      if last != 0 then front + [last] else Increment(front) + [0]
  }

  lemma {:induction false} EncodeValue(b: octets)
    ensures Encode(Value(b), |b|) == b
  {
    hide FromOctet, ToOctet;
    if b != [] {
      var front, last := b[..|b| - 1], b[|b| - 1];
      EncodeValue(front);
      OctetBack(last);
      var v := Value(b);
      assert v / 256 == Value(front) && v % 256 == FromOctet(last);
      assert Encode(v, |b|) == Encode(Value(front), |front|) + [last];
    }
  }

  /** The value of an encoding is the number modulo 256 to the n: nothing else is lost. */
  lemma {:induction false} ValueEncode(v: nat, n: nat)
    ensures Value(Encode(v, n)) == v % Power(n)
  {
    if n > 0 {
      ValueEncode(v / 256, n - 1);
      OctetRoundTrip(v % 256);
      var w := Encode(v, n);
      assert w[..n - 1] == Encode(v / 256, n - 1) && w[n - 1] == ToOctet(v % 256);
      assert Value(w) == (v / 256) % Power(n - 1) * 256 + v % 256;
      DigitRemainder(v, Power(n - 1));
    }
  }

  lemma DigitRemainder(v: nat, p: nat)
    requires p > 0
    ensures v % (256 * p) == (v / 256) % p * 256 + v % 256
  {
    var q, r := (v / 256) / p, (v / 256) % p;
    assert v / 256 == p * q + r;
    assert 256 * (p * q) == (256 * p) * q;
    Remainder(v, 256 * p, q, 256 * r + v % 256);
  }

  lemma Multiple(d: int, x: int)
    requires d >= 0
    ensures x >= 1 ==> d * x >= d
    ensures x <= -1 ==> d * x <= -d
  {}

  lemma Remainder(v: nat, d: nat, q: int, r: nat)
    requires d > 0 && r < d && v == d * q + r
    ensures v % d == r && v / d == q
  {
    assert v == d * (v / d) + v % d;
    assert d * (q - v / d) == d * q - d * (v / d);
    Multiple(d, q - v / d);
  }

  lemma {:induction false} IncrementEncode(v: nat, n: nat)
    ensures Increment(Encode(v, n)) == Encode(v + 1, n)
  {
    hide FromOctet, ToOctet, Successor;
    if n > 0 {
      IncrementEncode(v / 256, n - 1);
      var w, x := Encode(v, n), ToOctet(v % 256);
      assert w[..n - 1] == Encode(v / 256, n - 1) && w[n - 1] == x;
      OctetRoundTrip(v % 256);
      SuccessorValue(x);
      OctetBack(Successor(x));
      if v % 256 == 255 {
        assert (v + 1) / 256 == v / 256 + 1 && (v + 1) % 256 == 0;
        assert Successor(x) == ToOctet(0);
        ZeroOctet();
      } else {
        assert (v + 1) / 256 == v / 256 && (v + 1) % 256 == v % 256 + 1;
        assert Successor(x) == ToOctet(v % 256 + 1);
        assert Successor(x) != 0 by { ZeroOctet(); }
      }
    }
  }

  /** The in-place carry loop produces the next counter block. */
  lemma NextCounter(iv: octets, j: nat)
    ensures Increment(Counter(iv, j)) == Counter(iv, j + 1)
    ensures Counter(iv, 0) == iv
  {
    IncrementEncode(Value(iv) + j, |iv|);
    EncodeValue(iv);
  }

  /** Counting on from a later counter block, also across a wrap to zero. */
  lemma CounterAdds(iv: octets, i: nat, j: nat)
    ensures Counter(Counter(iv, i), j) == Counter(iv, i + j)
  {
    if j == 0 {
      NextCounter(Counter(iv, i), 0);
    } else {
      CounterAdds(iv, i, j - 1);
      NextCounter(Counter(iv, i), j - 1);
      NextCounter(iv, i + j - 1);
    }
  }

  // ----- Positions and blocks -----

  function BlockOf(k: nat, n: nat): nat
    requires n > 0
  {
    k / n
  }

  function OffsetIn(k: nat, n: nat): (r: nat)
    requires n > 0
    ensures r < n
  {
    k % n
  }

  /** A whole number of blocks. */
  predicate Aligned(m: nat, n: nat)
    requires n > 0
  {
    OffsetIn(m, n) == 0
  }

  lemma AlignedStep(m: nat, n: nat)
    requires n > 0
    ensures Aligned(0, n)
    ensures m >= n ==> (Aligned(m, n) <==> Aligned(m - n, n))
    ensures 0 < m < n ==> !Aligned(m, n)
  {
    Remainder(0, n, 0, 0);
    if m >= n {
      var q, r := (m - n) / n, (m - n) % n;
      assert m - n == n * q + r;
      assert n * (q + 1) == n * q + n;
      Remainder(m, n, q + 1, r);
    } else {
      Remainder(m, n, 0, m);
    }
  }

  lemma ShiftedIndex(k: nat, m: nat, n: nat)
    requires n > 0 && Aligned(m, n)
    ensures BlockOf(m + k, n) == BlockOf(m, n) + BlockOf(k, n)
    ensures OffsetIn(m + k, n) == OffsetIn(k, n)
  {
    var q, i, r := m / n, k / n, k % n;
    assert m == n * q && k == n * i + r;
    assert n * (q + i) == n * q + n * i;
    Remainder(m + k, n, q + i, r);
  }

  // ----- CTR -----

  /** SP 800-38A, 6.5: the mask of byte k is byte k mod n of the encrypted counter k div n. */
  ghost function Mask(c: Cipher, iv: octets, k: nat): octet
    requires c.Valid() && |iv| == c.size
  {
    c.Encrypt(Counter(iv, BlockOf(k, c.size)))[OffsetIn(k, c.size)]
  }

  ghost function Ctr(c: Cipher, iv: octets, data: octets): (r: octets)
    requires c.Valid() && |iv| == c.size
    ensures |r| == |data|
  {
    seq(|data|, k requires 0 <= k < |data| => Xor(data[k], Mask(c, iv, k)))
  }

  /** Applying CTR twice restores the data, a partial last block included. */
  lemma CtrTwice(c: Cipher, iv: octets, data: octets)
    requires c.Valid() && |iv| == c.size
    ensures Ctr(c, iv, Ctr(c, iv, data)) == data
  {
    var once := Ctr(c, iv, data);
    forall k | 0 <= k < |data| ensures Ctr(c, iv, once)[k] == data[k] {
      XorTwice(data[k], Mask(c, iv, k));
    }
  }

  lemma MaskShift(c: Cipher, iv: octets, m: nat, k: nat)
    requires c.Valid() && |iv| == c.size && Aligned(m, c.size)
    ensures Mask(c, iv, m + k) == Mask(c, Counter(iv, BlockOf(m, c.size)), k)
  {
    hide BlockOf, OffsetIn, Aligned, Counter;
    ShiftedIndex(k, m, c.size);
    CounterAdds(iv, BlockOf(m, c.size), BlockOf(k, c.size));
  }

  /** CTR splits at block boundaries, the second part starting at the advanced counter. */
  lemma CtrSplits(c: Cipher, iv: octets, a: octets, b: octets)
    requires c.Valid() && |iv| == c.size && Aligned(|a|, c.size)
    ensures Ctr(c, iv, a + b) == Ctr(c, iv, a) + Ctr(c, Counter(iv, BlockOf(|a|, c.size)), b)
  {
    hide BlockOf, OffsetIn, Aligned, Counter, Mask, Xor;
    var left, right := Ctr(c, iv, a), Ctr(c, Counter(iv, BlockOf(|a|, c.size)), b);
    forall k | 0 <= k < |a| + |b| ensures Ctr(c, iv, a + b)[k] == (left + right)[k] {
      if k >= |a| { MaskShift(c, iv, |a|, k - |a|); }
    }
  }

  // ----- CBC -----

  ghost function CbcEncrypt(c: Cipher, iv: octets, data: octets): (r: octets)
    requires c.Valid() && |iv| == c.size && Aligned(|data|, c.size)
    ensures |r| == |data|
    decreases |data|
  {
    if data == [] then []
    else
      FirstBlock(c, data);
      var block := c.Encrypt(XorBlock(data[..c.size], iv));
      block + CbcEncrypt(c, block, data[c.size..])
  }

  ghost function CbcDecrypt(c: Cipher, iv: octets, data: octets): (r: octets)
    requires c.Valid() && |iv| == c.size && Aligned(|data|, c.size)
    ensures |r| == |data|
    decreases |data|
  {
    if data == [] then []
    else
      FirstBlock(c, data);
      XorBlock(c.Decrypt(data[..c.size]), iv) + CbcDecrypt(c, data[..c.size], data[c.size..])
  }

  lemma FirstBlock(c: Cipher, data: octets)
    requires c.size > 0 && Aligned(|data|, c.size) && data != []
    ensures |data| >= c.size && Aligned(|data| - c.size, c.size)
  {
    hide BlockOf, OffsetIn, Aligned;
    AlignedStep(|data|, c.size);
  }

  lemma {:induction false} CbcDecryptsEncrypted(c: Cipher, iv: octets, data: octets)
    requires c.Valid() && |iv| == c.size && Aligned(|data|, c.size)
    ensures CbcDecrypt(c, iv, CbcEncrypt(c, iv, data)) == data
    decreases |data|
  {
    hide OffsetIn, Aligned, XorBlock;
    if data != [] {
      FirstBlock(c, data);
      var n, first, rest := c.size, data[..c.size], data[c.size..];
      var block := c.Encrypt(XorBlock(first, iv));
      CbcDecryptsEncrypted(c, block, rest);
      Inverse(c, XorBlock(first, iv));
      XorBlockTwice(first, iv);
      var out := CbcEncrypt(c, iv, data);
      assert out[..n] == block && out[n..] == CbcEncrypt(c, block, rest);
      assert CbcDecrypt(c, iv, out) == XorBlock(c.Decrypt(block), iv) + CbcDecrypt(c, block, out[n..]);
      assert data == first + rest;
    }
  }

  lemma {:induction false} CbcEncryptsDecrypted(c: Cipher, iv: octets, data: octets)
    requires c.Valid() && |iv| == c.size && Aligned(|data|, c.size)
    ensures CbcEncrypt(c, iv, CbcDecrypt(c, iv, data)) == data
    decreases |data|
  {
    hide OffsetIn, Aligned, XorBlock;
    if data != [] {
      FirstBlock(c, data);
      var n, first, rest := c.size, data[..c.size], data[c.size..];
      CbcEncryptsDecrypted(c, first, rest);
      var plain := XorBlock(c.Decrypt(first), iv);
      XorBlockTwice(c.Decrypt(first), iv);
      Inverse(c, first);
      var out := CbcDecrypt(c, iv, data);
      assert out[..n] == plain && out[n..] == CbcDecrypt(c, first, rest);
      assert CbcEncrypt(c, iv, out) == c.Encrypt(XorBlock(plain, iv)) + CbcEncrypt(c, first, out[n..]);
      assert data == first + rest;
    }
  }

  /** The chaining value after `data`: its last block, or the IV. */
  function Chain(c: Cipher, iv: octets, data: octets): (r: octets)
    requires |iv| == c.size
    ensures |r| == c.size
  {
    if |data| < c.size then iv else data[|data| - c.size..]
  }

  lemma OneBlock(c: Cipher, iv: octets, block: octets)
    requires c.Valid() && |iv| == c.size == |block|
    ensures Aligned(|block|, c.size)
    ensures CbcEncrypt(c, iv, block) == c.Encrypt(XorBlock(block, iv))
    ensures CbcDecrypt(c, iv, block) == XorBlock(c.Decrypt(block), iv)
  {
    hide OffsetIn, Aligned, XorBlock;
    AlignedStep(c.size, c.size);
    assert block[..c.size] == block && block[c.size..] == [];
    FirstBlock(c, block);
    assert CbcEncrypt(c, c.Encrypt(XorBlock(block, iv)), []) == [];
    assert CbcDecrypt(c, block, []) == [];
  }

  /** SP 800-38A, 6.2, for the next block: C_j = ENC(P_j xor C_{j-1}). */
  lemma {:induction false} CbcEncryptNext(c: Cipher, iv: octets, data: octets, block: octets)
    requires c.Valid() && |iv| == c.size == |block| && Aligned(|data|, c.size)
    ensures Aligned(|data + block|, c.size)
    ensures CbcEncrypt(c, iv, data + block) ==
            CbcEncrypt(c, iv, data) + c.Encrypt(XorBlock(block, Chain(c, iv, CbcEncrypt(c, iv, data))))
    decreases |data|
  {
    hide XorBlock, OffsetIn, Aligned;
    var n := c.size;
    OneBlock(c, iv, block);
    AlignedStep(|data| + n, n);
    if data == [] {
      assert data + block == block;
    } else {
      FirstBlock(c, data);
      var first, rest := data[..n], data[n..];
      assert (data + block)[..n] == first && (data + block)[n..] == rest + block;
      var head := c.Encrypt(XorBlock(first, iv));
      CbcEncryptNext(c, head, rest, block);
      ChainAppend(c, iv, head, CbcEncrypt(c, head, rest));
    }
  }

  /** SP 800-38A, 6.2, for the next block: P_j = DEC(C_j) xor C_{j-1}. */
  lemma {:induction false} CbcDecryptNext(c: Cipher, iv: octets, data: octets, block: octets)
    requires c.Valid() && |iv| == c.size == |block| && Aligned(|data|, c.size)
    ensures Aligned(|data + block|, c.size)
    ensures CbcDecrypt(c, iv, data + block) == CbcDecrypt(c, iv, data) + XorBlock(c.Decrypt(block), Chain(c, iv, data))
    decreases |data|
  {
    hide XorBlock, OffsetIn, Aligned;
    var n := c.size;
    OneBlock(c, iv, block);
    AlignedStep(|data| + n, n);
    if data == [] {
      assert data + block == block;
    } else {
      FirstBlock(c, data);
      var first, rest := data[..n], data[n..];
      assert (data + block)[..n] == first && (data + block)[n..] == rest + block;
      CbcDecryptNext(c, first, rest, block);
      ChainAppend(c, iv, first, rest);
      assert first + rest == data;
    }
  }

  lemma ChainAppend(c: Cipher, iv: octets, first: octets, rest: octets)
    requires |iv| == c.size == |first| && c.size > 0 && Aligned(|rest|, c.size)
    ensures Chain(c, iv, first + rest) == Chain(c, first, rest)
  {
    hide OffsetIn, Aligned;
    if rest == [] {
      assert (first + rest)[|first + rest| - c.size..] == first;
    } else {
      FirstBlock(c, rest);
      assert (first + rest)[|first + rest| - c.size..] == rest[|rest| - c.size..];
    }
  }

  // ----- PKCS#7 -----

  /** `pad`: the count is appended as that many bytes of its low eight bits. */
  function Pad(data: octets, size: nat): octets
    requires size > 0
  {
    data + seq(PadCount(data, size), _ => ToOctet(PadCount(data, size) % 256))
  }

  function PadCount(data: octets, size: nat): (count: nat)
    requires size > 0
    ensures 1 <= count <= size
  {
    size - |data| % size
  }

  /** Padding adds one byte or more, each the number of bytes added, up to the next whole block. */
  lemma PadIs(data: octets, size: nat)
    requires 0 < size < 256
    ensures var padded := Pad(data, size);
            && |data| < |padded| <= |data| + size && |padded| % size == 0
            && padded[..|data|] == data
            && forall i :: |data| <= i < |padded| ==> FromOctet(padded[i]) == |padded| - |data|
  {
    PaddedLength(|data|, size);
    OctetRoundTrip(PadCount(data, size));
  }

  datatype PadError = InvalidLength | InvalidPadding

  function Unpad(data: octets, size: nat): Result<octets, PadError> {
    if data == [] || size == 0 || |data| % size != 0 then Err(InvalidLength)
    else
      var count := FromOctet(data[|data| - 1]);
      if count == 0 || count > size || count > |data|
         || exists i :: |data| - count <= i < |data| && FromOctet(data[i]) != count
      then Err(InvalidPadding)
      else Ok(data[..|data| - count])
  }

  lemma UniformTail(padded: octets, count: nat)
    requires 1 <= count <= |padded| && count < 256
    requires forall i :: |padded| - count <= i < |padded| ==> FromOctet(padded[i]) == count
    ensures padded == padded[..|padded| - count] + seq(count, _ => ToOctet(count))
  {
    forall i | |padded| - count <= i < |padded| ensures padded[i] == ToOctet(count) { OctetBack(padded[i]); }
  }

  lemma UnpaddedCount(padded: octets, data: octets, size: nat)
    requires size > 0 && Unpad(padded, size) == Ok(data)
    ensures PadCount(data, size) == FromOctet(padded[|padded| - 1]) <= 255
  {
    CompletedLength(|padded|, FromOctet(padded[|padded| - 1]), size);
  }

  lemma UnpaddedIsPadded(padded: octets, data: octets, size: nat)
    requires size > 0 && Unpad(padded, size) == Ok(data)
    ensures padded == Pad(data, size) && PadCount(data, size) <= 255
  {
    hide FromOctet, ToOctet, PadCount;
    UnpaddedCount(padded, data, size);
    UniformTail(padded, PadCount(data, size));
  }

  lemma PaddedIsUnpadded(data: octets, size: nat)
    requires size > 0 && PadCount(data, size) <= 255
    ensures Unpad(Pad(data, size), size) == Ok(data)
  {
    var count, padded := PadCount(data, size), Pad(data, size);
    PaddedLength(|data|, size);
    OctetRoundTrip(count);
    assert |padded| % size == 0;
    hide PadCount;
    assert forall i :: |data| <= i < |padded| ==> padded[i] == ToOctet(count);
    assert padded[..|padded| - count] == data;
  }

  /**
    Unpadding inverts padding onto exactly the padded strings, for every block size: `unpad`
    accepts `padded` with result `data` iff `padded` is what `pad` makes of `data` and the
    count fits in a byte, as it does for all blocks of at most 255 bytes.
   */
  lemma UnpadInvertsPad(padded: octets, data: octets, size: nat)
    requires size > 0
    ensures Unpad(padded, size) == Ok(data) <==> padded == Pad(data, size) && PadCount(data, size) <= 255
  {
    if Unpad(padded, size) == Ok(data) { UnpaddedIsPadded(padded, data, size); }
    if padded == Pad(data, size) && PadCount(data, size) <= 255 { PaddedIsUnpadded(data, size); }
  }

  lemma PaddedLength(m: nat, n: nat)
    requires n > 0
    ensures (m + (n - m % n)) % n == 0
  {
    var q := m / n;
    assert m == n * q + m % n;
    assert m + (n - m % n) == n * (q + 1);
    Remainder(m + (n - m % n), n, q + 1, 0);
  }

  lemma CompletedLength(m: nat, count: nat, n: nat)
    requires n > 0 && m % n == 0 && 1 <= count <= n && count <= m
    ensures n - (m - count) % n == count
  {
    AlignedStep(m, n);
    assert Aligned(m, n) && m >= n;
    var q := (m - n) / n;
    assert m - n == n * q;
    if count == n { Remainder(m - count, n, q, 0); } else { Remainder(m - count, n, q, n - count); }
  }
}
