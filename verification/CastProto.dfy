/**
  Cast channel framing (cast/src/proto.rs): a length-prefixed protobuf message of four string
  fields, after "Base 128 Varints" and "Message Structure" of the Protocol Buffers encoding.
  Shifts and disjoint ORs are written as products and sums; a product wraps modulo 2^64.
 */
module CastProto {
  import opened Common

  const TWO64: int := 0x1_0000_0000_0000_0000

  type u64 = x: int | 0 <= x < 0x1_0000_0000_0000_0000

  // ----- Varints -----

  /** Seven bits a byte, least significant first; the top bit says that more follow. */
  function VarintBytes(v: u64): (s: bytes)
    ensures |s| > 0
  {
    if v < 0x80 then [v as byte] else [(v % 0x80 + 0x80) as byte] + VarintBytes(v / 0x80)
  }

  function Power7(k: nat): (p: nat)
    ensures p > 0
  {
    if k == 0 then 1 else 0x80 * Power7(k - 1)
  }

  /** Reading from byte `k` on, with the value of the earlier ones; at most ten bytes. */
  function ReadVarintFrom(s: bytes, k: nat, value: u64): (r: Option<(u64, bytes)>)
    requires k <= 10
    ensures r.Some? ==> |r.value.1| < |s|
    decreases 10 - k
  {
    if k == 10 || s == [] then None
    else
      var next := (value + s[0] as int % 0x80 * Power7(k)) % TWO64;
      if s[0] < 0x80 then Some((next, s[1..])) else ReadVarintFrom(s[1..], k + 1, next)
  }

  function ReadVarint(s: bytes): (r: Option<(u64, bytes)>)
    ensures r.Some? ==> |r.value.1| < |s|
  {
    ReadVarintFrom(s, 0, 0)
  }

  lemma SplitProduct(v: u64, k: nat)
    ensures v * Power7(k) == v % 0x80 * Power7(k) + v / 0x80 * Power7(k + 1)
    ensures 0 <= v % 0x80 * Power7(k) && 0 <= v / 0x80 * Power7(k + 1)
  {
    var low, high, p := v % 0x80, v / 0x80, Power7(k);
    assert v == low + 0x80 * high;
    assert (low + 0x80 * high) * p == low * p + high * (0x80 * p);
    NonNegative(low, p);
    NonNegative(high, Power7(k + 1));
  }

  lemma NonNegative(a: nat, b: nat)
    ensures 0 <= a * b
  {}

  /** One continuation byte. */
  lemma ReadContinuation(v: u64, k: nat, value: u64, rest: bytes)
    requires k < 10 && v >= 0x80 && 0 <= value + v % 0x80 * Power7(k) < TWO64
    ensures ReadVarintFrom(VarintBytes(v) + rest, k, value) ==
            ReadVarintFrom(VarintBytes(v / 0x80) + rest, k + 1, value + v % 0x80 * Power7(k))
  {
    hide Power7, ReadVarintFrom;
    var s := VarintBytes(v) + rest;
    assert s[0] as int == v % 0x80 + 0x80 && s[1..] == VarintBytes(v / 0x80) + rest;
    assert s[0] as int % 0x80 == v % 0x80;
    SmallRemainder(value + v % 0x80 * Power7(k));
    ReadFlagged(s, k, value);
  }

  lemma ReadFlagged(s: bytes, k: nat, value: u64)
    requires k < 10 && s != [] && s[0] >= 0x80
    ensures ReadVarintFrom(s, k, value) ==
            ReadVarintFrom(s[1..], k + 1, (value + s[0] as int % 0x80 * Power7(k)) % TWO64)
  {}

  lemma SmallRemainder(x: int)
    requires 0 <= x < TWO64
    ensures x % TWO64 == x
  {}

  lemma ReadLast(v: u64, k: nat, value: u64, rest: bytes)
    requires k < 10 && v < 0x80 && 0 <= value + v * Power7(k) < TWO64
    ensures ReadVarintFrom(VarintBytes(v) + rest, k, value) == Some((value + v * Power7(k), rest))
  {
    var s := VarintBytes(v) + rest;
    assert s[0] as int == v && s[1..] == rest && v % 0x80 == v;
    hide Power7;
    SmallRemainder(value + v * Power7(k));
  }

  lemma {:induction false} ReadBackFrom(v: u64, k: nat, value: u64, rest: bytes)
    requires k < 10 && value + v * Power7(k) < TWO64
    requires k == 9 ==> v < 0x80
    ensures ReadVarintFrom(VarintBytes(v) + rest, k, value) == Some((value + v * Power7(k), rest))
    decreases v
  {
    hide Power7, VarintBytes, ReadVarintFrom;
    SplitProduct(v, k);
    if v < 0x80 {
      NonNegative(v, Power7(k));
      ReadLast(v, k, value, rest);
    } else {
      HighFits(v, k, value);
      ReadContinuation(v, k, value, rest);
      ReadBackFrom(v / 0x80, k + 1, value + v % 0x80 * Power7(k), rest);
    }
  }

  /** The ninth continuation leaves a single bit, so ten bytes always suffice. */
  lemma HighFits(v: u64, k: nat, value: u64)
    requires k < 9 && v >= 0x80 && value + v * Power7(k) < TWO64
    ensures k == 8 ==> v / 0x80 < 0x80
  {
    if k == 8 {
      assert Power7(8) == 0x100_0000_0000_0000 by {
        assert Power7(2) == 0x4000;
        assert Power7(4) == 0x1000_0000;
        assert Power7(6) == 0x400_0000_0000;
      }
      assert v * 0x100_0000_0000_0000 < TWO64;
    }
  }

  /** The number in groups of seven bits, least significant first. */
  function GroupsValue(s: bytes): nat {
    if s == [] then 0 else s[0] as int % 0x80 + 0x80 * GroupsValue(s[1..])
  }

  /** The shape of a varint: groups of seven bits, a flag on all but the last, and no idle group. */
  lemma {:induction false} VarintShape(v: u64)
    ensures var s := VarintBytes(v);
            && GroupsValue(s) == v
            && (forall i :: 0 <= i < |s| ==> (s[i] as int >= 0x80 <==> i < |s| - 1))
            && (|s| > 1 ==> s[|s| - 1] != 0)
    decreases v
  {
    var s := VarintBytes(v);
    if v < 0x80 {
      assert s[1..] == [];
    } else {
      VarintShape(v / 0x80);
      assert s[1..] == VarintBytes(v / 0x80);
      assert v == v % 0x80 + 0x80 * (v / 0x80);
      forall i | 1 <= i < |s| ensures s[i] == VarintBytes(v / 0x80)[i - 1] {}
    }
  }

  /** `varint` inverts `put_varint` in front of any suffix and consumes exactly its bytes. */
  lemma VarintRoundTrip(v: u64, rest: bytes)
    ensures ReadVarint(VarintBytes(v) + rest) == Some((v, rest))
  {
    assert v * Power7(0) == v;
    ReadBackFrom(v, 0, 0, rest);
  }

  /** Bytes that announce another one. */
  predicate Flagged(s: bytes) { forall i :: 0 <= i < |s| ==> s[i] >= 0x80 }

  /** Any groups are read, also idle ones, ten at most, and only 64 bits of the number are kept. */
  lemma VarintMeaning(flagged: bytes, last: byte, rest: bytes)
    requires Flagged(flagged) && last < 0x80 && |flagged| < 10
    ensures ReadVarint(flagged + [last] + rest) == Some((GroupsValue(flagged + [last]) % TWO64, rest))
  {
    hide ReadVarintFrom, GroupsValue;
    var s, n := flagged + [last] + rest, GroupsValue(flagged + [last]);
    ReadGroups(flagged, last, rest, 0, 0);
    assert n * Power7(0) == n;
    assert ReadVarint(s) == ReadVarintFrom(s, 0, 0);
  }

  lemma {:induction false} ReadGroups(flagged: bytes, last: byte, rest: bytes, k: nat, value: u64)
    requires Flagged(flagged) && last < 0x80 && k + |flagged| < 10
    ensures ReadVarintFrom(flagged + [last] + rest, k, value) ==
            Some(((value + GroupsValue(flagged + [last]) * Power7(k)) % TWO64, rest))
    decreases |flagged|
  {
    var s, groups := flagged + [last] + rest, flagged + [last];
    if flagged == [] {
      assert s[0] == last && s[1..] == rest && groups[1..] == [];
    } else {
      assert s[0] == flagged[0] && s[1..] == flagged[1..] + [last] + rest && groups[1..] == flagged[1..] + [last];
      hide Power7;
      assert Power7(k + 1) == 0x80 * Power7(k) by { NextPower(k); }
      var d, more := s[0] as int % 0x80, GroupsValue(groups[1..]);
      ReadGroups(flagged[1..], last, rest, k + 1, (value + d * Power7(k)) % TWO64);
      NextGroup(value, d, more, Power7(k));
    }
  }

  lemma NextPower(k: nat)
    ensures Power7(k + 1) == 0x80 * Power7(k)
  {}

  lemma NextGroup(value: nat, d: nat, more: nat, p: nat)
    ensures ((value + d * p) % TWO64 + more * (0x80 * p)) % TWO64 == (value + (d + 0x80 * more) * p) % TWO64
  {
    assert (d + 0x80 * more) * p == d * p + more * (0x80 * p);
    NonNegative(d, p);
    NonNegative(more, 0x80 * p);
    RemainderTwice(value + d * p, more * (0x80 * p));
  }

  lemma RemainderTwice(x: nat, y: nat)
    ensures (x % TWO64 + y) % TWO64 == (x + y) % TWO64
  {
    var q := x / TWO64;
    assert x == TWO64 * q + x % TWO64;
  }

  /** Without a last group within ten bytes there is no number. */
  lemma {:induction false} VarintUnended(s: bytes, k: nat, value: u64)
    requires k <= 10 && Flagged(if |s| < 10 - k then s else s[..10 - k])
    ensures ReadVarintFrom(s, k, value).None?
    decreases 10 - k
  {
    if k < 10 && s != [] {
      var seen := if |s| < 10 - k then s else s[..10 - k];
      assert seen[0] == s[0];
      assert (if |s[1..]| < 10 - (k + 1) then s[1..] else s[1..][..10 - (k + 1)]) == seen[1..];
      hide Power7;
      VarintUnended(s[1..], k + 1, (value + s[0] as int % 0x80 * Power7(k)) % TWO64);
    }
  }

  lemma {:induction false} ReadVarintAppend(s: bytes, k: nat, value: u64, more: bytes)
    requires k <= 10 && ReadVarintFrom(s, k, value).Some?
    ensures var (v, rest) := ReadVarintFrom(s, k, value).value;
            ReadVarintFrom(s + more, k, value) == Some((v, rest + more))
    decreases 10 - k
  {
    assert (s + more)[0] == s[0] && (s + more)[1..] == s[1..] + more;
    if s[0] >= 0x80 {
      ReadVarintAppend(s[1..], k + 1, (value + s[0] as int % 0x80 * Power7(k)) % TWO64, more);
    }
  }

  // ----- Messages -----

  /** The four fields senders use; strings are their UTF-8 bytes. */
  datatype Message = Message(source: bytes, destination: bytes, namespace: bytes, payload: bytes)
  {
    /** What a Rust string guarantees, for the `utf8` the decoder checks with. */
    predicate Valid(utf8: bytes -> bool) {
      utf8(source) && utf8(destination) && utf8(namespace) && utf8(payload)
    }

    predicate Small() {
      |source| < TWO64 && |destination| < TWO64 && |namespace| < TWO64 && |payload| < TWO64
    }
  }

  const EMPTY := Message([], [], [], [])

  /** A field as the encoding defines it: one of four wire types, with its number. */
  datatype Field =
    | Varint(number: nat, value: u64)
    | Fixed64(number: nat, data: bytes)
    | Lengthy(number: nat, data: bytes)
    | Fixed32(number: nat, data: bytes)
  {
    predicate Valid() {
      && number * 8 + 7 < TWO64
      && (Fixed64? ==> |data| == 8)
      && (Lengthy? ==> |data| < TWO64)
      && (Fixed32? ==> |data| == 4)
    }

    function Wire(): int {
      match this case Varint(_, _) => 0 case Fixed64(_, _) => 1 case Lengthy(_, _) => 2 case Fixed32(_, _) => 5
    }

    /** Not one of the four strings. */
    predicate Unknown() { Lengthy? ==> !Known(number) }
  }

  function Key(f: Field): u64
    requires f.Valid()
  {
    f.number * 8 + f.Wire()
  }

  function AnyFieldBytes(f: Field): bytes
    requires f.Valid()
  {
    VarintBytes(Key(f)) +
    match f
    case Varint(_, value) => VarintBytes(value)
    case Fixed64(_, data) => data
    case Lengthy(_, data) => VarintBytes(|data|) + data
    case Fixed32(_, data) => data
  }

  function FieldBytes(number: u64, value: bytes): bytes
    requires number < 16 && |value| < TWO64
  {
    AnyFieldBytes(Lengthy(number, value))
  }

  function Body(m: Message): bytes
    requires m.Small()
  {
    [0x08, 0x00] + (FieldBytes(2, m.source) + (FieldBytes(3, m.destination) + (FieldBytes(4, m.namespace)
    + ([0x28, 0x00] + FieldBytes(6, m.payload)))))
  }

  function Be32(v: nat): bytes
    requires v < 0x1_0000_0000
  {
    [(v / 0x100_0000) as byte, (v / 0x1_0000 % 0x100) as byte, (v / 0x100 % 0x100) as byte, (v % 0x100) as byte]
  }

  /** The frame's prefix is the body's length as a u32. */
  function Frame(m: Message): bytes
    requires m.Small()
  {
    Be32(|Body(m)| % 0x1_0000_0000) + Body(m)
  }

  function WithText(m: Message, number: int, value: bytes): Message {
    if number == 2 then m.(source := value)
    else if number == 3 then m.(destination := value)
    else if number == 4 then m.(namespace := value)
    else if number == 6 then m.(payload := value)
    else m
  }

  predicate Known(number: int) { number == 2 || number == 3 || number == 4 || number == 6 }

  function Drop(s: bytes, n: nat): Option<bytes> { if n <= |s| then Some(s[n..]) else None }

  /** One field off the front: the message with it and what is left. */
  function ReadField(utf8: bytes -> bool, m: Message, s: bytes): (r: Option<(Message, bytes)>)
    ensures r.Some? ==> |r.value.1| < |s|
  {
    match ReadVarint(s)
    case None => None
    case Some((key, rest)) =>
      var wire := key % 8;
      if wire == 0 then
        match ReadVarint(rest) case None => None case Some((_, after)) => Some((m, after))
      else if wire == 2 then
        match ReadVarint(rest)
        case None => None
        case Some((n, after)) =>
          if n > |after| || (Known(key / 8) && !utf8(after[..n])) then None
          else Some((WithText(m, key / 8, after[..n]), after[n..]))
      else if wire == 5 || wire == 1 then
        match Drop(rest, if wire == 5 then 4 else 8) case None => None case Some(after) => Some((m, after))
      else None
  }

  /** `decode` of what is left, with the fields read so far. */
  function DecodeFrom(utf8: bytes -> bool, m: Message, s: bytes): Option<Message>
    decreases |s|
  {
    if s == [] then Some(m)
    else
      match ReadField(utf8, m, s)
      case None => None
      case Some((next, rest)) => DecodeFrom(utf8, next, rest)
  }

  // ----- Laws -----

  lemma ReadFieldAppend(utf8: bytes -> bool, m: Message, s: bytes, more: bytes)
    requires ReadField(utf8, m, s).Some?
    ensures var (next, rest) := ReadField(utf8, m, s).value;
            ReadField(utf8, m, s + more) == Some((next, rest + more))
  {
    hide ReadVarintFrom;
    ReadVarintAppend(s, 0, 0, more);
    var (key, rest) := ReadVarint(s).value;
    if key % 8 == 0 {
      ReadVarintAppend(rest, 0, 0, more);
    } else if key % 8 == 2 {
      ReadVarintAppend(rest, 0, 0, more);
      var (n, after) := ReadVarint(rest).value;
      assert (after + more)[..n] == after[..n] && (after + more)[n..] == after[n..] + more;
    } else {
      var n := if key % 8 == 5 then 4 else 8;
      assert (rest + more)[n..] == rest[n..] + more;
    }
  }

  /** Decoding a ++ b is decoding b with the result of a. */
  lemma {:induction false} DecodeAppend(utf8: bytes -> bool, m: Message, a: bytes, b: bytes)
    requires DecodeFrom(utf8, m, a).Some?
    ensures DecodeFrom(utf8, m, a + b) == DecodeFrom(utf8, DecodeFrom(utf8, m, a).value, b)
    decreases |a|
  {
    if a == [] {
      assert a + b == b;
    } else {
      hide ReadField;
      ReadFieldAppend(utf8, m, a, b);
      var (next, rest) := ReadField(utf8, m, a).value;
      DecodeAppend(utf8, next, rest, b);
    }
  }

  lemma ReadFieldText(utf8: bytes -> bool, m: Message, number: u64, value: bytes, rest: bytes)
    requires Known(number) && |value| < TWO64 && utf8(value)
    ensures ReadField(utf8, m, FieldBytes(number, value) + rest) == Some((WithText(m, number, value), rest))
  {
    hide ReadVarint, VarintBytes;
    var key, length := VarintBytes(number * 8 + 2), VarintBytes(|value|);
    assert FieldBytes(number, value) + rest == key + (length + (value + rest));
    VarintRoundTrip(number * 8 + 2, length + (value + rest));
    VarintRoundTrip(|value|, value + rest);
    assert (value + rest)[..|value|] == value && (value + rest)[|value|..] == rest;
    assert (number * 8 + 2) % 8 == 2 && (number * 8 + 2) / 8 == number;
  }

  /** The two constant varint fields leave the message alone. */
  lemma ReadFieldConstant(utf8: bytes -> bool, m: Message, key: byte, rest: bytes)
    requires key == 0x08 || key == 0x28
    ensures ReadField(utf8, m, [key, 0x00] + rest) == Some((m, rest))
  {
    hide ReadVarint;
    assert VarintBytes(key as int) == [key] && VarintBytes(0) == [0x00];
    VarintRoundTrip(key as int, [0x00] + rest);
    VarintRoundTrip(0, rest);
    assert [key, 0x00] + rest == [key] + ([0x00] + rest);
  }

  // ----- What is rejected -----

  lemma CutVarint(v: u64, n: nat)
    requires n < |VarintBytes(v)|
    ensures ReadVarint(VarintBytes(v)[..n]).None?
  {
    VarintShape(v);
    var s := VarintBytes(v);
    assert Flagged(s[..n]);
    VarintUnended(s[..n], 0, 0);
  }

  /** A body that ends inside a field is malformed, whatever the field and wherever it ends. */
  lemma CutRejected(utf8: bytes -> bool, m: Message, f: Field, n: nat)
    requires f.Valid() && 0 < n < |AnyFieldBytes(f)|
    ensures DecodeFrom(utf8, m, AnyFieldBytes(f)[..n]).None?
  {
    hide ReadVarint, VarintBytes;
    var key := VarintBytes(Key(f));
    var s := AnyFieldBytes(f)[..n];
    if n < |key| {
      CutVarint(Key(f), n);
      assert s == key[..n];
    } else {
      var whole := AnyFieldBytes(f)[|key|..];
      var rest := whole[..n - |key|];
      assert s == key + rest;
      VarintRoundTrip(Key(f), rest);
      KeyParts(f);
      match f
      case Varint(_, value) =>
        assert whole == VarintBytes(value);
        CutVarint(value, |rest|);
      case Fixed64(_, _) =>
      case Fixed32(_, _) =>
      case Lengthy(_, data) =>
        assert whole == VarintBytes(|data|) + data;
        CutText(data, |rest|);
    }
  }

  lemma CutText(data: bytes, n: nat)
    requires |data| < TWO64 && n < |VarintBytes(|data|) + data|
    ensures var r := ReadVarint((VarintBytes(|data|) + data)[..n]); r.Some? ==> r.value.0 > |r.value.1|
  {
    hide ReadVarint, VarintBytes;
    var length := VarintBytes(|data|);
    if n < |length| {
      CutVarint(|data|, n);
      assert (length + data)[..n] == length[..n];
    } else {
      var part := data[..n - |length|];
      assert (length + data)[..n] == length + part;
      VarintRoundTrip(|data|, part);
    }
  }

  /** So is one with a key of another wire type. */
  lemma WireRejected(utf8: bytes -> bool, m: Message, key: u64, rest: bytes)
    requires key % 8 !in {0, 1, 2, 5}
    ensures DecodeFrom(utf8, m, VarintBytes(key) + rest).None?
  {
    hide ReadVarint;
    VarintRoundTrip(key, rest);
  }

  /** And one in which one of the four strings is no text. */
  lemma TextRejected(utf8: bytes -> bool, m: Message, number: nat, data: bytes, rest: bytes)
    requires number in {2, 3, 4, 6} && |data| < TWO64 && !utf8(data)
    ensures DecodeFrom(utf8, m, FieldBytes(number, data) + rest).None?
  {
    hide ReadVarint, VarintBytes;
    var key, length := VarintBytes(number * 8 + 2), VarintBytes(|data|);
    assert FieldBytes(number, data) + rest == key + (length + (data + rest));
    VarintRoundTrip(number * 8 + 2, length + (data + rest));
    VarintRoundTrip(|data|, data + rest);
    assert (data + rest)[..|data|] == data;
  }

  lemma DecodeStep(utf8: bytes -> bool, m: Message, s: bytes, next: Message, rest: bytes)
    requires ReadField(utf8, m, s) == Some((next, rest))
    ensures DecodeFrom(utf8, m, s) == DecodeFrom(utf8, next, rest)
  {}

  /** Decoding the body of a frame inverts encoding, for every message. */
  lemma DecodeEncoded(utf8: bytes -> bool, m: Message)
    requires m.Valid(utf8) && m.Small()
    ensures DecodeFrom(utf8, EMPTY, Body(m)) == Some(m)
  {
    hide ReadField, FieldBytes, DecodeFrom;
    var s5 := FieldBytes(6, m.payload);
    var s4 := [0x28, 0x00] + s5;
    var s3 := FieldBytes(4, m.namespace) + s4;
    var s2 := FieldBytes(3, m.destination) + s3;
    var s1 := FieldBytes(2, m.source) + s2;
    var m1 := EMPTY.(source := m.source);
    var m2 := m1.(destination := m.destination);
    var m3 := m2.(namespace := m.namespace);
    ReadFieldConstant(utf8, EMPTY, 0x08, s1);
    DecodeStep(utf8, EMPTY, [0x08, 0x00] + s1, EMPTY, s1);
    ReadFieldText(utf8, EMPTY, 2, m.source, s2);
    DecodeStep(utf8, EMPTY, s1, m1, s2);
    ReadFieldText(utf8, m1, 3, m.destination, s3);
    DecodeStep(utf8, m1, s2, m2, s3);
    ReadFieldText(utf8, m2, 4, m.namespace, s4);
    DecodeStep(utf8, m2, s3, m3, s4);
    ReadFieldConstant(utf8, m3, 0x28, s5);
    DecodeStep(utf8, m3, s4, m3, s5);
    ReadFieldText(utf8, m3, 6, m.payload, []);
    assert s5 + [] == s5;
    DecodeStep(utf8, m3, s5, m, []);
    DecodeEnd(utf8, m);
  }

  lemma DecodeEnd(utf8: bytes -> bool, m: Message)
    ensures DecodeFrom(utf8, m, []) == Some(m)
  {}

  /** The body is six fields with these numbers: version and payload type zero, and four strings. */
  lemma BodyFields(m: Message)
    requires m.Small()
    ensures Body(m) ==
            AnyFieldBytes(Varint(1, 0)) + AnyFieldBytes(Lengthy(2, m.source)) + AnyFieldBytes(Lengthy(3, m.destination))
            + AnyFieldBytes(Lengthy(4, m.namespace)) + AnyFieldBytes(Varint(5, 0))
            + AnyFieldBytes(Lengthy(6, m.payload))
  {
    assert AnyFieldBytes(Varint(1, 0)) == [0x08, 0x00] by { ConstantFields(); }
    assert AnyFieldBytes(Varint(5, 0)) == [0x28, 0x00] by { ConstantFields(); }
    hide AnyFieldBytes;
    Bracket([0x08, 0x00], FieldBytes(2, m.source), FieldBytes(3, m.destination), FieldBytes(4, m.namespace),
            [0x28, 0x00], FieldBytes(6, m.payload));
  }

  lemma ConstantFields()
    ensures AnyFieldBytes(Varint(1, 0)) == [0x08, 0x00] && AnyFieldBytes(Varint(5, 0)) == [0x28, 0x00]
  {
    assert VarintBytes(8) == [0x08] && VarintBytes(40) == [0x28] && VarintBytes(0) == [0x00];
  }

  // ----- Fields the decoder has no use for -----

  predicate AllUnknown(fields: seq<Field>) { forall f :: f in fields ==> f.Valid() && f.Unknown() }

  function FieldsBytes(fields: seq<Field>): bytes
    requires AllUnknown(fields)
  {
    if fields == [] then [] else AnyFieldBytes(fields[0]) + FieldsBytes(fields[1..])
  }

  /** One unknown field is read past, whatever its data, UTF-8 or not. */
  lemma UnknownSkipped(utf8: bytes -> bool, m: Message, f: Field, rest: bytes)
    requires f.Valid() && f.Unknown()
    ensures ReadField(utf8, m, AnyFieldBytes(f) + rest) == Some((m, rest))
  {
    hide ReadVarint, VarintBytes;
    var key := VarintBytes(Key(f));
    KeyParts(f);
    match f {
      case Varint(_, value) =>
        assert AnyFieldBytes(f) + rest == key + (VarintBytes(value) + rest);
        VarintRoundTrip(Key(f), VarintBytes(value) + rest);
        VarintRoundTrip(value, rest);
      case Lengthy(number, data) =>
        assert AnyFieldBytes(f) + rest == key + (VarintBytes(|data|) + (data + rest));
        VarintRoundTrip(Key(f), VarintBytes(|data|) + (data + rest));
        VarintRoundTrip(|data|, data + rest);
        assert (data + rest)[..|data|] == data && (data + rest)[|data|..] == rest;
      case Fixed64(_, data) => FixedSkipped(utf8, m, f, data, rest);
      case Fixed32(_, data) => FixedSkipped(utf8, m, f, data, rest);
    }
  }

  lemma KeyParts(f: Field)
    requires f.Valid()
    ensures Key(f) / 8 == f.number && Key(f) % 8 == f.Wire()
  {}

  lemma FixedSkipped(utf8: bytes -> bool, m: Message, f: Field, data: bytes, rest: bytes)
    requires f.Valid() && ((f.Fixed64? && f.data == data) || (f.Fixed32? && f.data == data))
    ensures ReadField(utf8, m, AnyFieldBytes(f) + rest) == Some((m, rest))
  {
    hide ReadVarint, VarintBytes;
    KeyParts(f);
    assert AnyFieldBytes(f) + rest == VarintBytes(Key(f)) + (data + rest);
    VarintRoundTrip(Key(f), data + rest);
    assert (data + rest)[|data|..] == rest;
  }

  /** Unknown fields change nothing, whatever was read before and whatever follows. */
  lemma {:induction false} UnknownIgnored(utf8: bytes -> bool, m: Message, fields: seq<Field>, rest: bytes)
    requires AllUnknown(fields)
    ensures DecodeFrom(utf8, m, FieldsBytes(fields) + rest) == DecodeFrom(utf8, m, rest)
  {
    hide ReadField, AnyFieldBytes, DecodeFrom;
    if fields == [] {
      assert FieldsBytes(fields) + rest == rest;
    } else {
      var more := FieldsBytes(fields[1..]) + rest;
      assert FieldsBytes(fields) + rest == AnyFieldBytes(fields[0]) + more;
      UnknownSkipped(utf8, m, fields[0], more);
      DecodeStep(utf8, m, AnyFieldBytes(fields[0]) + more, m, more);
      UnknownIgnored(utf8, m, fields[1..], rest);
    }
  }

  /** A frame body with unknown fields appended still decodes to the message. */
  lemma DecodeExtended(utf8: bytes -> bool, m: Message, fields: seq<Field>)
    requires m.Valid(utf8) && m.Small() && AllUnknown(fields)
    ensures DecodeFrom(utf8, EMPTY, Body(m) + FieldsBytes(fields)) == Some(m)
  {
    hide Body, DecodeFrom, AnyFieldBytes;
    DecodeEncoded(utf8, m);
    DecodeAppend(utf8, EMPTY, Body(m), FieldsBytes(fields));
    assert FieldsBytes(fields) + [] == FieldsBytes(fields);
    UnknownIgnored(utf8, m, fields, []);
    DecodeEnd(utf8, m);
  }

  /** The length prefix frames the body iff the body is shorter than 4 GiB. */
  lemma FramePrefix(m: Message)
    requires m.Small()
    ensures |Frame(m)| == 4 + |Body(m)| && Frame(m)[4..] == Body(m)
    ensures var f := Frame(m);
            var prefix := f[0] as int * 0x100_0000 + f[1] as int * 0x1_0000 + f[2] as int * 0x100 + f[3] as int;
            prefix == |Body(m)| <==> |Body(m)| < 0x1_0000_0000
  {
    hide Body;
    var n := |Body(m)| % 0x1_0000_0000;
    Be32Back(n, Body(m));
  }

  lemma Be32Back(v: nat, rest: bytes)
    requires v < 0x1_0000_0000
    ensures |Be32(v)| == 4
    ensures var f := Be32(v) + rest;
            && f[0] as int * 0x100_0000 + f[1] as int * 0x1_0000 + f[2] as int * 0x100 + f[3] as int == v
            && f[4..] == rest
  {
    var a, b := v / 0x100, v / 0x1_0000;
    assert v == v % 0x100 + 0x100 * a && a == a % 0x100 + 0x100 * b && b == a / 0x100;
    assert b == b % 0x100 + 0x100 * (b / 0x100) && b / 0x100 == v / 0x100_0000;
  }

  // ----- The code -----

  method PutVarint(out: bytes, v: u64) returns (r: bytes)
    ensures r == out + VarintBytes(v)
  {
    r := out;
    var value := v;
    while value >= 0x80
      invariant 0 <= value < TWO64
      invariant r + VarintBytes(value) == out + VarintBytes(v)
    {
      ghost var before := r;
      r := r + [(value % 0x80 + 0x80) as byte];
      assert r + VarintBytes(value / 0x80) == before + VarintBytes(value);
      value := value / 0x80;
    }
    r := r + [value as byte];
  }

  method PutField(out: bytes, number: u64, value: bytes) returns (r: bytes)
    requires number < 16 && |value| < TWO64
    ensures r == out + FieldBytes(number, value)
  {
    hide VarintBytes;
    r := PutVarint(out, number * 8 + 2);
    r := PutVarint(r, |value|);
    r := r + value;
  }

  method Encode(m: Message) returns (frame: bytes)
    requires m.Small()
    ensures frame == Frame(m)
  {
    hide FieldBytes, Be32;
    var body := [0x08, 0x00];
    body := PutField(body, 2, m.source);
    body := PutField(body, 3, m.destination);
    body := PutField(body, 4, m.namespace);
    body := body + [0x28, 0x00];
    body := PutField(body, 6, m.payload);
    ghost var a, b, c, d, e, f :=
      [0x08, 0x00], FieldBytes(2, m.source), FieldBytes(3, m.destination), FieldBytes(4, m.namespace),
      [0x28, 0x00], FieldBytes(6, m.payload);
    Bracket(a, b, c, d, e, f);
    frame := Be32(|body| % 0x1_0000_0000);
    frame := frame + body;
  }

  lemma Bracket(a: bytes, b: bytes, c: bytes, d: bytes, e: bytes, f: bytes)
    ensures a + b + c + d + e + f == a + (b + (c + (d + (e + f))))
  {
    Assoc(a + b + c + d, e, f);
    Assoc(a + b + c, d, e + f);
    Assoc(a + b, c, d + (e + f));
    Assoc(a, b, c + (d + (e + f)));
  }

  /** `varint`: at most ten bytes, each shifted by seven more bits; the slice moves past them. */
  method TakeVarint(s: bytes) returns (r: Option<u64>, rest: bytes)
    ensures r.None? <==> ReadVarint(s).None?
    ensures r.Some? ==> ReadVarint(s) == Some((r.value, rest))
  {
    var value := 0;
    rest := s;
    for k := 0 to 10
      invariant 0 <= value < TWO64
      invariant ReadVarint(s) == ReadVarintFrom(rest, k, value)
    {
      if rest == [] { return None, rest; }
      var b := rest[0];
      rest := rest[1..];
      value := (value + b as int % 0x80 * Power7(k)) % TWO64;
      if b < 0x80 { return Some(value), rest; }
    }
    return None, rest;
  }

  method Decode(utf8: bytes -> bool, s: bytes) returns (r: Option<Message>)
    ensures r == DecodeFrom(utf8, EMPTY, s)
  {
    hide ReadVarintFrom, ReadVarint;
    var message, left := EMPTY, s;
    while left != []
      invariant DecodeFrom(utf8, EMPTY, s) == DecodeFrom(utf8, message, left)
      decreases |left|
    {
      ghost var field := ReadField(utf8, message, left);
      ghost var start := left;
      var key, length;
      key, left := TakeVarint(left);
      if key.None? { return None; }
      if key.value % 8 == 0 {
        length, left := TakeVarint(left);
        if length.None? { return None; }
      } else if key.value % 8 == 2 {
        length, left := TakeVarint(left);
        if length.None? || length.value > |left| { return None; }
        var value := left[..length.value];
        left := left[length.value..];
        if Known(key.value / 8) {
          if !utf8(value) { return None; }
          message := WithText(message, key.value / 8, value);
        }
      } else if key.value % 8 == 5 {
        if |left| < 4 { return None; }
        left := left[4..];
      } else if key.value % 8 == 1 {
        if |left| < 8 { return None; }
        left := left[8..];
      } else {
        return None;
      }
      assert field == Some((message, left));
    }
    return Some(message);
  }
}
