/**
  Finding the ISRC in a FLAC file (core/src/isrc.rs): the reader seeks over everything that
  cannot matter, looking at six bytes of each Vorbis comment. The reference parses the whole
  comment block (RFC 9639, sections 8.1 and 8.6) and takes the first field with an ISRC key.
  Decoding and trimming of the value is left to the caller.
 */
module Isrc {
  import opened Common

  type u32 = x: int | 0 <= x < 0x1_0000_0000

  // ----- The reference: parse everything -----

  /** The fields that lie wholly inside the block, and whether all announced ones do. */
  datatype Fields = Fields(list: seq<bytes>, complete: bool)

  datatype Outcome = Found(value: bytes) | Nothing | Malformed

  function Le32(s: bytes): u32
    requires |s| >= 4
  {
    s[0] as int + 0x100 * s[1] as int + 0x1_0000 * s[2] as int + 0x100_0000 * s[3] as int
  }

  function Be24(s: bytes): nat
    requires |s| >= 3
  {
    s[0] as int * 0x1_0000 + s[1] as int * 0x100 + s[2] as int
  }

  /** A length-prefixed item and what follows it. */
  function TakeItem(s: bytes): (r: Option<(bytes, bytes)>)
    ensures r.Some? ==> |r.value.1| < |s|
  {
    if |s| < 4 || Le32(s) > |s| - 4 then None else Some((s[4..4 + Le32(s)], s[4 + Le32(s)..]))
  }

  function ParseFields(s: bytes, count: nat): Fields
    decreases count
  {
    if count == 0 then Fields([], true)
    else
      match TakeItem(s)
      case None => Fields([], false)
      case Some((field, rest)) =>
        var others := ParseFields(rest, count - 1);
        Fields([field] + others.list, others.complete)
  }

  /** The vendor string, the number of fields, the fields. */
  function ParseComment(block: bytes): Fields {
    match TakeItem(block)
    case None => Fields([], false)
    case Some((vendor, rest)) => if |rest| < 4 then Fields([], false) else ParseFields(rest[4..], Le32(rest))
  }

  const EQUALS: byte := 0x3D

  /** The offset of the first `=`, or the length. */
  function EqualsAt(s: bytes): (n: nat)
    ensures n <= |s| && EQUALS !in s[..n] && (n < |s| ==> s[n] == EQUALS)
  {
    if s == [] || s[0] == EQUALS then 0 else 1 + EqualsAt(s[1..])
  }

  predicate Letter(b: byte, upper: byte)
    requires upper < 0x80
  {
    b == upper || b == upper + 0x20
  }

  /** `isrc_key` on the UTF-8 of a key: ISRC in either case, long s (0xC5 0xBF) also for the S. */
  predicate IsrcKey(k: bytes) {
    || (|k| == 4 && Letter(k[0], 0x49) && Letter(k[1], 0x53) && Letter(k[2], 0x52) && Letter(k[3], 0x43))
    || (|k| == 5 && Letter(k[0], 0x49) && k[1..3] == [0xC5, 0xBF] && Letter(k[3], 0x52) && Letter(k[4], 0x43))
  }

  predicate IsIsrc(field: bytes) {
    EqualsAt(field) < |field| && IsrcKey(field[..EqualsAt(field)])
  }

  function ValueOf(field: bytes): bytes
    requires IsIsrc(field)
  {
    field[EqualsAt(field) + 1..]
  }

  /** The value of the first ISRC field; without one, whether the block was sound. */
  function Verdict(fields: Fields): Outcome
    decreases |fields.list|
  {
    if fields.list == [] then if fields.complete then Nothing else Malformed
    else if IsIsrc(fields.list[0]) then Found(ValueOf(fields.list[0]))
    else Verdict(Fields(fields.list[1..], fields.complete))
  }

  /** The comment block that starts at an offset; a block cut off by the end of the file is malformed. */
  function CommentOutcome(file: bytes, start: nat, length: nat): Outcome {
    if start + length > |file| then Malformed else Verdict(ParseComment(file[start..start + length]))
  }

  const COMMENT_TYPE := 4

  /** The metadata blocks from an offset on: the first comment block decides. */
  function BlocksOutcome(file: bytes, pos: nat): Outcome
    decreases |file| - pos
  {
    if pos + 4 > |file| then Malformed
    else
      var kind, length := file[pos] as int, Be24(file[pos + 1..]);
      if kind % 0x80 == COMMENT_TYPE then CommentOutcome(file, pos + 4, length)
      else if kind >= 0x80 then Nothing
      else BlocksOutcome(file, pos + 4 + length)
  }

  const MAGIC: bytes := [0x66, 0x4C, 0x61, 0x43]   // fLaC

  function FileOutcome(file: bytes): Outcome {
    if |file| < 4 then Malformed else if file[..4] != MAGIC then Nothing else BlocksOutcome(file, 4)
  }

  // ----- Six bytes decide -----

  const PREFIX := 6

  lemma {:induction false} EqualsInPrefix(s: bytes, n: nat)
    requires n <= |s|
    ensures EqualsAt(s[..n]) == if EqualsAt(s) < n then EqualsAt(s) else n
  {
    if n > 0 && s[0] != EQUALS {
      assert s[..n][1..] == s[1..][..n - 1];
      EqualsInPrefix(s[1..], n - 1);
    }
  }

  /** A field is an ISRC field iff its first six bytes show it. */
  lemma PrefixDecides(field: bytes)
    ensures var p := field[..if |field| < PREFIX then |field| else PREFIX];
            && (IsIsrc(field) <==> IsIsrc(p))
            && (IsIsrc(field) ==> EqualsAt(p) == EqualsAt(field))
  {
    var n := if |field| < PREFIX then |field| else PREFIX;
    EqualsInPrefix(field, n);
    var e := EqualsAt(field);
    if e < n { assert field[..n][..e] == field[..e]; }
  }

  // ----- The seeking reader -----

  datatype ReadError = ReadError

  class FileReader {
    const file: bytes
    var pos: nat

    constructor (file: bytes)
      ensures this.file == file && pos == 0
    {
      this.file, pos := file, 0;
    }

    method ReadExact(n: nat) returns (r: Result<bytes, ReadError>)
      modifies this
      ensures r.Ok? <==> old(pos) + n <= |file|
      ensures r.Ok? ==> pos == old(pos) + n && r.value == file[old(pos)..pos]
      ensures r.Err? ==> pos == old(pos)
    {
      if pos + n > |file| { return Err(ReadError.ReadError); }
      r := Ok(file[pos..pos + n]);
      pos := pos + n;
    }

    /** A seek may go beyond the end of the file; reading there fails. */
    method SeekBy(n: nat)
      modifies this
      ensures pos == old(pos) + n
    {
      pos := pos + n;
    }

    method SeekEnd() returns (size: nat)
      modifies this
      ensures pos == size == |file|
    {
      pos := |file|;
      size := pos;
    }

    method SeekStart(n: nat)
      modifies this
      ensures pos == n
    {
      pos := n;
    }
  }

  /** Reads a little-endian length and takes it off the rest of the block. */
  method Integer(reader: FileReader, remaining: u32) returns (r: Result<(u32, u32), ReadError>)
    requires reader.pos + remaining <= |reader.file|
    modifies reader
    ensures r.Ok? <==> remaining >= 4
    ensures r.Ok? ==>
              && reader.pos == old(reader.pos) + 4 && r.value.1 == remaining - 4
              && r.value.0 == Le32(reader.file[old(reader.pos)..old(reader.pos) + remaining])
    ensures r.Err? ==> reader.pos == old(reader.pos)
  {
    if remaining < 4 { return Err(ReadError.ReadError); }
    var start := reader.pos;
    var word := reader.ReadExact(4);
    if word.Err? { return Err(ReadError.ReadError); }
    assert word.value == reader.file[start..start + remaining][..4];
    return Ok((Le32(word.value), remaining - 4));
  }

  /** The rest of a value, in pieces of 64 KiB. */
  method ReadTail(reader: FileReader, tail: nat) returns (r: Result<bytes, ReadError>)
    modifies reader
    requires reader.pos + tail <= |reader.file|
    ensures r == Ok(reader.file[old(reader.pos)..old(reader.pos) + tail]) && reader.pos == old(reader.pos) + tail
  {
    var value: bytes := [];
    while |value| < tail
      invariant |value| <= tail && reader.pos == old(reader.pos) + |value|
      invariant value == reader.file[old(reader.pos)..reader.pos]
    {
      var n := if tail - |value| < 0x1_0000 then tail - |value| else 0x1_0000;
      var piece := reader.ReadExact(n);
      if piece.Err? { return piece; }
      value := value + piece.value;
    }
    return Ok(value);
  }

  /** What is left of the block. */
  function Left(file: bytes, pos: nat, remaining: nat): bytes
    requires pos + remaining <= |file|
  {
    file[pos..pos + remaining]
  }

  /** `comment_isrc` up to the fields: extent check, vendor, count. */
  method CommentIsrc(reader: FileReader, length: u32) returns (r: Outcome)
    requires reader.pos <= |reader.file|
    modifies reader
    ensures r == CommentOutcome(reader.file, old(reader.pos), length)
    ensures reader.pos <= old(reader.pos) + length
  {
    hide Le32, Verdict, ParseFields;
    var start := reader.pos;
    var size := reader.SeekEnd();
    if size - start < length { return Malformed; }
    reader.SeekStart(start);
    ghost var block := reader.file[start..start + length];
    NoFields();
    var vendor := Integer(reader, length);
    if vendor.Err? { return Malformed; }
    var remaining := vendor.value.1;
    if remaining < vendor.value.0 { return Malformed; }
    remaining := remaining - vendor.value.0;
    reader.SeekBy(vendor.value.0);
    ghost var rest := Left(reader.file, reader.pos, remaining);
    assert rest == block[4 + vendor.value.0..];
    var count := Integer(reader, remaining);
    if count.Err? { return Malformed; }
    assert Left(reader.file, reader.pos, count.value.1) == rest[4..];
    r := ScanFields(reader, count.value.1, count.value.0);
  }

  lemma NoFields()
    ensures Verdict(Fields([], false)) == Malformed && Verdict(Fields([], true)) == Nothing
  {}

  /** A field is skipped iff it is not the answer. */
  lemma VerdictStep(s: bytes, count: nat)
    requires count > 0
    ensures TakeItem(s).None? ==> Verdict(ParseFields(s, count)) == Malformed
    ensures TakeItem(s).Some? ==>
              var (field, rest) := TakeItem(s).value;
              Verdict(ParseFields(s, count)) ==
              if IsIsrc(field) then Found(ValueOf(field)) else Verdict(ParseFields(rest, count - 1))
  {
    if TakeItem(s).Some? {
      var (field, rest) := TakeItem(s).value;
      var others := ParseFields(rest, count - 1);
      assert ([field] + others.list)[1..] == others.list;
    }
  }

  /** The loop over the fields of the block. */
  method ScanFields(reader: FileReader, left: u32, count: u32) returns (r: Outcome)
    requires reader.pos + left <= |reader.file|
    modifies reader
    ensures r == Verdict(ParseFields(Left(reader.file, old(reader.pos), left), count))
    ensures reader.pos <= old(reader.pos) + left
  {
    hide Le32, Verdict, ParseFields, IsIsrc, EqualsAt, IsrcKey;
    var remaining := left;
    ghost var end := reader.pos + left;
    for i := 0 to count
      invariant 0 <= remaining < 0x1_0000_0000 && reader.pos + remaining == end
      invariant Verdict(ParseFields(Left(reader.file, old(reader.pos), left), count)) ==
                Verdict(ParseFields(Left(reader.file, reader.pos, remaining), count - i))
    {
      ghost var s := Left(reader.file, reader.pos, remaining);
      ghost var at := reader.pos;
      VerdictStep(s, count - i);
      var length := Integer(reader, remaining);
      if length.Err? { return Malformed; }
      var n := length.value.0;
      if length.value.1 < n { return Malformed; }
      remaining := length.value.1 - n;
      ghost var field := reader.file[at + 4..at + 4 + n];
      FieldParts(reader.file, at, |s|, n);
      assert TakeItem(s) == Some((field, s[4 + n..]));
      var answer := ScanField(reader, n);
      if answer.Some? { return Found(answer.value); }
    }
    EmptyFields(Left(reader.file, reader.pos, remaining));
    return Nothing;
  }

  lemma FieldParts(file: bytes, at: nat, remaining: nat, n: nat)
    requires at + remaining <= |file| && 4 + n <= remaining
    ensures var s := Left(file, at, remaining);
            s[4..4 + n] == file[at + 4..at + 4 + n] && s[4 + n..] == Left(file, at + 4 + n, remaining - 4 - n)
  {
    SliceOfSlice(file, at, at + remaining, 4, 4 + n);
    SliceOfSlice(file, at, at + remaining, 4 + n, remaining);
    assert at + 4 + n + (remaining - 4 - n) == at + remaining;
  }

  lemma SliceOfSlice(x: bytes, lo: nat, hi: nat, i: nat, j: nat)
    requires lo <= hi <= |x| && i <= j <= hi - lo
    ensures x[lo..hi][i..j] == x[lo + i..lo + j]
    ensures j == hi - lo ==> x[lo..hi][i..] == x[lo + i..hi]
  {
    if j == hi - lo { assert x[lo..hi][i..] == x[lo..hi][i..j]; }
    forall k | 0 <= k < j - i ensures x[lo..hi][i..j][k] == x[lo + i..lo + j][k] {}
  }

  lemma EmptyFields(s: bytes)
    ensures Verdict(ParseFields(s, 0)) == Nothing
  {}

  /** One field: six bytes of it decide whether the rest is read or skipped. */
  method ScanField(reader: FileReader, n: nat) returns (answer: Option<bytes>)
    requires reader.pos + n <= |reader.file|
    modifies reader
    ensures reader.pos == old(reader.pos) + n
    ensures var field := reader.file[old(reader.pos)..old(reader.pos) + n];
            answer == if IsIsrc(field) then Some(ValueOf(field)) else None
  {
    hide EqualsAt, IsrcKey;
    ghost var field := reader.file[reader.pos..reader.pos + n];
    var prefixLength := if n < PREFIX then n else PREFIX;
    var read := reader.ReadExact(prefixLength);
    assert read.Ok?;
    var prefix := read.value;
    assert prefix == field[..prefixLength];
    PrefixDecides(field);
    var equal := EqualsAt(prefix);
    if equal < prefixLength && IsrcKey(prefix[..equal]) {
      var tail := ReadTail(reader, n - prefixLength);
      assert prefix[equal + 1..] + tail.value == field[equal + 1..];
      return Some(prefix[equal + 1..] + tail.value);
    }
    reader.SeekBy(n - prefixLength);
    return None;
  }

  /** `read_flac`: what the seeking reader answers is what parsing everything answers. */
  method ReadFlac(reader: FileReader) returns (r: Outcome)
    modifies reader
    ensures r == FileOutcome(reader.file)
  {
    hide CommentOutcome;
    reader.SeekStart(0);
    var header := reader.ReadExact(4);
    if header.Err? { return Malformed; }
    assert header.value == reader.file[..4];
    if header.value != MAGIC { return Nothing; }
    while true
      invariant BlocksOutcome(reader.file, reader.pos) == FileOutcome(reader.file)
      decreases |reader.file| - reader.pos
    {
      ghost var at := reader.pos;
      header := reader.ReadExact(4);
      if header.Err? { return Malformed; }
      var length := Be24(header.value[1..]);
      assert header.value == reader.file[at..at + 4];
      assert header.value[0] == reader.file[at] && length == Be24(reader.file[at + 1..]);
      var kind := header.value[0] as int;
      if kind % 0x80 == COMMENT_TYPE {
        r := CommentIsrc(reader, length);
        return;
      }
      if kind >= 0x80 { return Nothing; }
      reader.SeekBy(length);
    }
  }
}
