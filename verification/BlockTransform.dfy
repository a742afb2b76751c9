/**
  The in-place loop of extensions/src/crypto.rs over the chunks of a byte range, proved to
  compute the modes of module `BlockModes`.
 */
module BlockTransform {
  import opened Common
  import opened BlockModes

  datatype Mode = Cbc | CtrMode

  /** The mode's formula on a whole range. */
  ghost function Transformed(c: Cipher, iv: octets, data: octets, mode: Mode, decrypt: bool): (r: octets)
    requires c.Valid() && |iv| == c.size && (mode.Cbc? ==> Aligned(|data|, c.size))
    ensures |r| == |data|
  {
    if mode.CtrMode? then Ctr(c, iv, data)
    else if decrypt then CbcDecrypt(c, iv, data)
    else CbcEncrypt(c, iv, data)
  }

  /** Transforming with the opposite direction undoes a transformation. */
  lemma TransformedBack(c: Cipher, iv: octets, data: octets, mode: Mode, decrypt: bool)
    requires c.Valid() && |iv| == c.size && (mode.Cbc? ==> Aligned(|data|, c.size))
    ensures Transformed(c, iv, Transformed(c, iv, data, mode, decrypt), mode, !decrypt) == data
  {
    hide Aligned;
    if mode.CtrMode? { CtrTwice(c, iv, data); }
    else if decrypt { CbcEncryptsDecrypted(c, iv, data); }
    else { CbcDecryptsEncrypted(c, iv, data); }
  }

  // ----- One chunk of the loop -----

  /** The chaining block or counter after the chunks in `done`. */
  ghost function State(c: Cipher, iv: octets, done: octets, mode: Mode, decrypt: bool): (r: octets)
    requires c.Valid() && |iv| == c.size && Aligned(|done|, c.size)
    ensures |r| == c.size
  {
    if mode.CtrMode? then Counter(iv, BlockOf(|done|, c.size))
    else if decrypt then Chain(c, iv, done)
    else Chain(c, iv, CbcEncrypt(c, iv, done))
  }

  ghost function ChunkOut(c: Cipher, state: octets, chunk: octets, mode: Mode, decrypt: bool): (r: octets)
    requires c.Valid() && |state| == c.size && |chunk| <= c.size && (mode.Cbc? ==> |chunk| == c.size)
    ensures |r| == |chunk|
  {
    if mode.CtrMode? then XorBlock(chunk, c.Encrypt(state))
    else if decrypt then XorBlock(c.Decrypt(chunk), state)
    else c.Encrypt(XorBlock(chunk, state))
  }

  ghost function NextState(state: octets, chunk: octets, output: octets, mode: Mode, decrypt: bool): octets {
    if mode.CtrMode? then Increment(state) else if decrypt then chunk else output
  }

  lemma CtrFirst(c: Cipher, iv: octets, chunk: octets)
    requires c.Valid() && |iv| == c.size && |chunk| <= c.size
    ensures Ctr(c, iv, chunk) == XorBlock(chunk, c.Encrypt(iv))
  {
    NextCounter(iv, 0);
    forall k | 0 <= k < |chunk| ensures Mask(c, iv, k) == c.Encrypt(iv)[k] {
      Remainder(k, c.size, 0, k);
    }
  }

  /** A chunk's output continues the mode's formula. */
  lemma OutputNext(c: Cipher, iv: octets, done: octets, chunk: octets, mode: Mode, decrypt: bool)
    requires c.Valid() && |iv| == c.size && Aligned(|done|, c.size)
    requires |chunk| <= c.size && (mode.Cbc? ==> |chunk| == c.size)
    ensures mode.Cbc? ==> Aligned(|done + chunk|, c.size)
    ensures Transformed(c, iv, done + chunk, mode, decrypt) ==
            Transformed(c, iv, done, mode, decrypt)
            + ChunkOut(c, State(c, iv, done, mode, decrypt), chunk, mode, decrypt)
  {
    hide Aligned, BlockOf, Counter, XorBlock, Chain;
    if mode.CtrMode? {
      CtrSplits(c, iv, done, chunk);
      CtrFirst(c, Counter(iv, BlockOf(|done|, c.size)), chunk);
    } else if decrypt {
      CbcDecryptNext(c, iv, done, chunk);
    } else {
      CbcEncryptNext(c, iv, done, chunk);
    }
  }

  /** A whole chunk moves the state to the next chaining block or counter. */
  lemma StateNext(c: Cipher, iv: octets, done: octets, chunk: octets, mode: Mode, decrypt: bool)
    requires c.Valid() && |iv| == c.size == |chunk| && Aligned(|done|, c.size)
    ensures Aligned(|done + chunk|, c.size)
    ensures var state := State(c, iv, done, mode, decrypt);
            State(c, iv, done + chunk, mode, decrypt) ==
            NextState(state, chunk, ChunkOut(c, state, chunk, mode, decrypt), mode, decrypt)
  {
    hide Aligned, BlockOf, Counter, XorBlock;
    AlignedStep(|done + chunk|, c.size);
    if mode.CtrMode? {
      ShiftedIndex(c.size, |done|, c.size);
      OneMore(c.size);
      NextCounter(iv, BlockOf(|done|, c.size));
    } else if decrypt {
      assert (done + chunk)[|done + chunk| - c.size..] == chunk;
    } else {
      CbcEncryptNext(c, iv, done, chunk);
    }
  }

  lemma OneMore(n: nat)
    requires n > 0
    ensures BlockOf(n, n) == 1
  {
    Remainder(n, n, 1, 0);
  }

  // ----- In place -----

  function Zeros(n: nat): octets { seq(n, _ => 0) }

  /** The carry loop over the counter block, last byte first. */
  method IncrementInPlace(state: array<octet>)
    modifies state
    ensures state[..] == Increment(old(state[..]))
  {
    ghost var before := state[..];
    var i := state.Length;
    assert before[..i] == before;
    while i > 0
      invariant 0 <= i <= state.Length
      invariant state[..] == before[..i] + Zeros(state.Length - i)
      invariant Increment(before) == Increment(before[..i]) + Zeros(state.Length - i)
    {
      ghost var front := before[..i];
      assert front[..i - 1] == before[..i - 1] && front[i - 1] == state[i - 1];
      state[i - 1] := state[i - 1] + 1;
      if state[i - 1] != 0 {
        assert state[..] == Increment(front) + Zeros(state.Length - i);
        return;
      }
      assert Zeros(state.Length - (i - 1)) == [0] + Zeros(state.Length - i);
      i := i - 1;
    }
  }

  /** XORs a mask into a range: byte i of the range with byte i of the mask. */
  method XorInto(data: array<octet>, lo: nat, hi: nat, mask: octets)
    requires lo <= hi <= data.Length && hi - lo <= |mask|
    modifies data
    ensures data[..] == old(data[..lo]) + XorBlock(old(data[lo..hi]), mask) + old(data[hi..])
  {
    for i := lo to hi
      invariant forall k :: lo <= k < i ==> data[k] == Xor(old(data[k]), mask[k - lo])
      invariant forall k :: 0 <= k < lo || i <= k < data.Length ==> data[k] == old(data[k])
    {
      data[i] := Xor(data[i], mask[i - lo]);
    }
  }

  /** Copies a block over a range. */
  method Overwrite(data: array<octet>, lo: nat, block: octets)
    requires lo + |block| <= data.Length
    modifies data
    ensures data[..] == old(data[..lo]) + block + old(data[lo + |block|..])
  {
    for i := 0 to |block|
      invariant forall k :: 0 <= k < i ==> data[lo + k] == block[k]
      invariant forall k :: 0 <= k < lo || lo + i <= k < data.Length ==> data[k] == old(data[k])
    {
      data[lo + i] := block[i];
    }
  }

  /** The CTR branch: the encrypted counter is the mask, and the counter moves on. */
  method CtrChunk(c: Cipher, data: array<octet>, lo: nat, hi: nat, state: array<octet>)
    requires c.Valid() && state.Length == c.size && state != data
    requires lo <= hi <= data.Length && hi - lo <= c.size
    modifies data, state
    ensures data[..] == old(data[..lo]) + XorBlock(old(data[lo..hi]), c.Encrypt(old(state[..]))) + old(data[hi..])
    ensures state[..] == Increment(old(state[..]))
  {
    assert c.Inverts(state[..]);
    XorInto(data, lo, hi, c.enc(state[..]));
    IncrementInPlace(state);
  }

  /** The CBC decryption branch: the enciphered block is kept as the next state. */
  method CbcDecryptChunk(c: Cipher, data: array<octet>, lo: nat, hi: nat, state: array<octet>)
    requires c.Valid() && state.Length == c.size && state != data
    requires lo <= hi <= data.Length && hi - lo == c.size
    modifies data, state
    ensures data[..] ==
            old(data[..lo]) + XorBlock(c.Decrypt(old(data[lo..hi])), old(state[..])) + old(data[hi..])
    ensures state[..] == old(data[lo..hi])
  {
    hide XorBlock;
    ghost var before := data[..];
    var encrypted := data[lo..hi];
    assert c.Inverts(encrypted);
    Overwrite(data, lo, c.dec(encrypted));
    RangeReplaced(before, lo, hi, c.dec(encrypted));
    assert data[lo..hi] == data[..][lo..hi] && data[..lo] == data[..][..lo] && data[hi..] == data[..][hi..];
    XorInto(data, lo, hi, state[..]);
    Overwrite(state, 0, encrypted);
    assert state[..] == encrypted;
  }

  /** The CBC encryption branch: the new block is the next state. */
  method CbcEncryptChunk(c: Cipher, data: array<octet>, lo: nat, hi: nat, state: array<octet>)
    requires c.Valid() && state.Length == c.size && state != data
    requires lo <= hi <= data.Length && hi - lo == c.size
    modifies data, state
    ensures data[..] ==
            old(data[..lo]) + c.Encrypt(XorBlock(old(data[lo..hi]), old(state[..]))) + old(data[hi..])
    ensures state[..] == c.Encrypt(XorBlock(old(data[lo..hi]), old(state[..])))
  {
    hide XorBlock;
    ghost var before, mixed := data[..], XorBlock(data[lo..hi], state[..]);
    XorInto(data, lo, hi, state[..]);
    RangeReplaced(before, lo, hi, mixed);
    assert data[lo..hi] == data[..][lo..hi] && data[..lo] == data[..][..lo] && data[hi..] == data[..][hi..];
    assert c.Inverts(mixed);
    var block := c.enc(data[lo..hi]);
    Overwrite(data, lo, block);
    Overwrite(state, 0, block);
    assert state[..] == block;
  }

  lemma RangeReplaced(s: octets, lo: nat, hi: nat, middle: octets)
    requires lo <= hi <= |s| && |middle| == hi - lo
    ensures var t := s[..lo] + middle + s[hi..]; t[..lo] == s[..lo] && t[lo..hi] == middle && t[hi..] == s[hi..]
  {}

  /** The body of the loop: one chunk and the state, both in place. */
  method Chunk(c: Cipher, data: array<octet>, lo: nat, hi: nat, state: array<octet>, mode: Mode, decrypt: bool)
    requires c.Valid() && state.Length == c.size && state != data
    requires lo <= hi <= data.Length && hi - lo <= c.size && (mode.Cbc? ==> hi - lo == c.size)
    modifies data, state
    ensures var output := ChunkOut(c, old(state[..]), old(data[lo..hi]), mode, decrypt);
            && data[..] == old(data[..lo]) + output + old(data[hi..])
            && state[..] == NextState(old(state[..]), old(data[lo..hi]), output, mode, decrypt)
  {
    if mode.CtrMode? {
      CtrChunk(c, data, lo, hi, state);
    } else if decrypt {
      CbcDecryptChunk(c, data, lo, hi, state);
    } else {
      CbcEncryptChunk(c, data, lo, hi, state);
    }
  }

  /** The loop invariant: the range up to `pos` is transformed, the rest untouched. */
  ghost predicate Progress(c: Cipher, iv: octets, before: octets, now: octets, state: octets,
                           lo: nat, pos: nat, hi: nat, mode: Mode, decrypt: bool)
    requires c.Valid() && |iv| == c.size
  {
    && lo <= pos <= hi <= |before| && |state| == c.size
    && (mode.Cbc? || pos < hi ==> Aligned(pos - lo, c.size))
    && (pos < hi ==> state == State(c, iv, before[lo..pos], mode, decrypt))
    && now == before[..lo] + Transformed(c, iv, before[lo..pos], mode, decrypt) + before[pos..]
  }

  lemma ProgressStep(c: Cipher, iv: octets, before: octets, now: octets, state: octets,
                     lo: nat, pos: nat, end: nat, hi: nat, mode: Mode, decrypt: bool, later: octets, next: octets)
    requires c.Valid() && |iv| == c.size && Progress(c, iv, before, now, state, lo, pos, hi, mode, decrypt)
    requires pos < end <= hi && |now| == |before| && (mode.Cbc? ==> Aligned(hi - lo, c.size))
    requires end == if pos + c.size < hi then pos + c.size else hi
    requires mode.Cbc? ==> end - pos == c.size
    requires var output := ChunkOut(c, state, now[pos..end], mode, decrypt);
             && later == now[..pos] + output + now[end..]
             && next == NextState(state, now[pos..end], output, mode, decrypt)
    ensures Progress(c, iv, before, later, next, lo, end, hi, mode, decrypt)
  {
    hide Aligned, ChunkOut, NextState, State, Transformed;
    var done, chunk := before[lo..pos], before[pos..end];
    var out := Transformed(c, iv, done, mode, decrypt);
    assert before[lo..end] == done + chunk;
    assert now[..pos] == before[..lo] + out && now[pos..end] == chunk && now[end..] == before[end..];
    OutputNext(c, iv, done, chunk, mode, decrypt);
    if end - pos == c.size { StateNext(c, iv, done, chunk, mode, decrypt); }
    NextLength(c, state, chunk, mode, decrypt);
  }

  lemma NextLength(c: Cipher, state: octets, chunk: octets, mode: Mode, decrypt: bool)
    requires c.Valid() && |state| == c.size && |chunk| <= c.size && (mode.Cbc? ==> |chunk| == c.size)
    ensures |NextState(state, chunk, ChunkOut(c, state, chunk, mode, decrypt), mode, decrypt)| == c.size
  {}

  /**
    The transformation of a byte range in place. CBC wants whole blocks; CTR also takes a
    partial last one. Bytes outside the range stay as they are.
   */
  method Transform(c: Cipher, data: array<octet>, lo: nat, hi: nat, iv: octets, mode: Mode, decrypt: bool)
    requires c.Valid() && |iv| == c.size && lo <= hi <= data.Length
    requires mode.Cbc? ==> Aligned(hi - lo, c.size)
    modifies data
    ensures data[..] ==
            old(data[..lo]) + Transformed(c, iv, old(data[lo..hi]), mode, decrypt) + old(data[hi..])
  {
    hide Aligned, ChunkOut, NextState, State, Transformed;
    ghost var before := data[..];
    var state := new octet[c.size](i requires 0 <= i < |iv| => iv[i]);
    assert state[..] == iv;
    var pos := lo;
    StateStart(c, iv, mode, decrypt);
    assert before[lo..lo] == [] && data[..] == before[..lo] + [] + before[lo..];
    while pos < hi
      invariant fresh(state) && state.Length == c.size
      invariant Progress(c, iv, before, data[..], state[..], lo, pos, hi, mode, decrypt)
    {
      var end := if pos + c.size < hi then pos + c.size else hi;
      if mode.Cbc? { AlignedRest(pos - lo, hi - lo, c.size); }
      ghost var now, st := data[..], state[..];
      assert now[pos..end] == data[pos..end] && now[..pos] == data[..pos] && now[end..] == data[end..];
      Chunk(c, data, pos, end, state, mode, decrypt);
      ProgressStep(c, iv, before, now, st, lo, pos, end, hi, mode, decrypt, data[..], state[..]);
      pos := end;
    }
    assert before[lo..hi] == old(data[lo..hi]);
  }

  lemma StateStart(c: Cipher, iv: octets, mode: Mode, decrypt: bool)
    requires c.Valid() && |iv| == c.size
    ensures Aligned(0, c.size)
    ensures State(c, iv, [], mode, decrypt) == iv
    ensures Transformed(c, iv, [], mode, decrypt) == []
  {
    AlignedStep(0, c.size);
    Remainder(0, c.size, 0, 0);
    NextCounter(iv, 0);
  }

  /** Whole blocks remain after whole blocks. */
  lemma AlignedRest(done: nat, all: nat, n: nat)
    requires n > 0 && Aligned(done, n) && Aligned(all, n) && done < all
    ensures all - done >= n
  {
    ShiftedIndex(all - done, done, n);
    AlignedStep(all - done, n);
  }

  // ----- The checked entry point -----

  datatype CipherError = IvLength | UnsupportedMode | InputLength

  /** `BlockCipher::transform`: the checks in their order; a rejected call changes nothing. */
  method TransformChecked(c: Cipher, data: array<octet>, iv: octets, mode: string, decrypt: bool)
    returns (r: Result<(), CipherError>)
    requires c.Valid()
    modifies data
    ensures |iv| != c.size ==> r == Err(IvLength)
    ensures |iv| == c.size && mode != "cbc" && mode != "ctr" ==> r == Err(UnsupportedMode)
    ensures |iv| == c.size && mode == "cbc" && !Aligned(data.Length, c.size) ==> r == Err(InputLength)
    ensures |iv| == c.size && mode == "cbc" && Aligned(data.Length, c.size) ==>
              r == Ok(()) && data[..] == Transformed(c, iv, old(data[..]), Cbc, decrypt)
    ensures |iv| == c.size && mode == "ctr" ==>
              r == Ok(()) && data[..] == Transformed(c, iv, old(data[..]), CtrMode, decrypt)
    ensures r.Ok? ==> data[..] == if mode == "ctr" then Ctr(c, iv, old(data[..]))
                                  else if decrypt then CbcDecrypt(c, iv, old(data[..]))
                                  else CbcEncrypt(c, iv, old(data[..]))
    ensures r.Err? ==> data[..] == old(data[..])
  {
    if |iv| != c.size { return Err(IvLength); }
    if mode != "cbc" && mode != "ctr" { return Err(UnsupportedMode); }
    if mode == "cbc" && !Aligned(data.Length, c.size) { return Err(InputLength); }
    ghost var before := data[..];
    assert before[0..data.Length] == before && before[..0] == [] && before[data.Length..] == [];
    Transform(c, data, 0, data.Length, iv, if mode == "cbc" then Cbc else CtrMode, decrypt);
    return Ok(());
  }
}
