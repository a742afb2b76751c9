/**
  The line scanner of CUE sheets (core/src/cue.rs, `Lines`): lines are cut out of a stream that
  arrives in pieces of any size, one trailing carriage return is dropped, and a line of 64 KiB
  or more is an error.
 */
module CueLines {
  import opened Common

  const NEWLINE: byte := 0x0A
  const RETURN: byte := 0x0D
  const MAX_SCANNER_BUFFER := 64 * 1024
  const READ_BUFFER_SIZE := 8 * 1024

  // ----- The lines of a whole stream -----

  /** The offset of the first newline, or the length. */
  function LineLength(s: bytes): (n: nat)
    ensures n <= |s| && NEWLINE !in s[..n] && (n < |s| ==> s[n] == NEWLINE)
  {
    if s == [] || s[0] == NEWLINE then 0 else 1 + LineLength(s[1..])
  }

  function Stripped(line: bytes): bytes {
    if line != [] && line[|line| - 1] == RETURN then line[..|line| - 1] else line
  }

  /** One carriage return at the end goes, and nothing else. */
  lemma StrippedIs(line: bytes)
    ensures Stripped(line + [0x0D]) == line
    ensures line == [] || line[|line| - 1] != 0x0D ==> Stripped(line) == line
  {
    assert (line + [0x0D])[..|line|] == line;
  }

  /** What follows the first line and its newline. */
  function AfterLine(s: bytes): (r: bytes)
    ensures s != [] ==> |r| < |s|
  {
    if LineLength(s) < |s| then s[LineLength(s) + 1..] else []
  }

  datatype Next = Line(text: bytes) | End | TooLong

  /** The answer of one call on the stream that is left: the end, a line, or an error. */
  function Answer(s: bytes): Next {
    if LineLength(s) >= MAX_SCANNER_BUFFER then TooLong
    else if s == [] then End
    else Line(Stripped(s[..LineLength(s)]))
  }

  /** All lines up to the end, or up to the first one that is too long. */
  function AllLines(s: bytes): (seq<bytes>, bool)
    decreases |s|
  {
    match Answer(s)
    case End => ([], true)
    case TooLong => ([], false)
    case Line(text) => var (rest, ok) := AllLines(AfterLine(s)); ([text] + rest, ok)
  }

  // ----- Splitting at newlines, independently -----

  /** The pieces between newlines; text after the last newline is a piece if there is any. */
  function Split(s: bytes): seq<bytes>
    decreases |s|
  {
    if s == [] then [] else [s[..LineLength(s)]] + Split(AfterLine(s))
  }

  /** The pieces joined by newlines, the last one with or without its own. */
  function Join(pieces: seq<bytes>, closed: bool): bytes {
    if pieces == [] then []
    else if |pieces| == 1 then pieces[0] + if closed then [NEWLINE] else []
    else pieces[0] + [NEWLINE] + Join(pieces[1..], closed)
  }

  lemma CutLine(s: bytes)
    requires s != []
    ensures LineLength(s) == |s| ==> s[..LineLength(s)] == s && AfterLine(s) == [] && s[|s| - 1] != NEWLINE
    ensures LineLength(s) < |s| ==>
              && s == s[..LineLength(s)] + [NEWLINE] + AfterLine(s)
              && (AfterLine(s) == [] ==> s[|s| - 1] == NEWLINE)
              && (AfterLine(s) != [] ==> AfterLine(s)[|AfterLine(s)| - 1] == s[|s| - 1])
  {
    var n := LineLength(s);
    hide LineLength;
    if n == |s| {
      assert s[|s| - 1] in s[..n];
      assert s[..n] == s;
    } else {
      CutAt(s, n);
    }
  }

  lemma CutAt(s: bytes, n: nat)
    requires n < |s|
    ensures s == s[..n] + [s[n]] + s[n + 1..]
    ensures s[n + 1..] == [] ==> n == |s| - 1
    ensures s[n + 1..] != [] ==> s[n + 1..][|s[n + 1..]| - 1] == s[|s| - 1]
  {
  }

  /** The pieces are the text: joining them restores it, and no piece holds a newline. */
  lemma {:induction false} SplitJoins(s: bytes)
    ensures Join(Split(s), s != [] && s[|s| - 1] == NEWLINE) == s
    ensures forall p :: p in Split(s) ==> NEWLINE !in p
    decreases |s|
  {
    if s != [] {
      hide LineLength, AfterLine;
      SplitJoins(AfterLine(s));
      CutLine(s);
      var first, pieces := s[..LineLength(s)], Split(AfterLine(s));
      assert Split(s) == [first] + pieces && Split(s)[1..] == pieces;
    }
  }

  predicate AllShort(pieces: seq<bytes>) { forall p :: p in pieces ==> |p| < MAX_SCANNER_BUFFER }

  function StrippedAll(pieces: seq<bytes>): seq<bytes> {
    seq(|pieces|, i requires 0 <= i < |pieces| => Stripped(pieces[i]))
  }

  /** The number of leading pieces that are short enough. */
  function ShortRun(pieces: seq<bytes>): (n: nat)
    ensures n <= |pieces| && (n < |pieces| ==> |pieces[n]| >= MAX_SCANNER_BUFFER)
    ensures forall i :: 0 <= i < n ==> |pieces[i]| < MAX_SCANNER_BUFFER
  {
    if pieces == [] || |pieces[0]| >= MAX_SCANNER_BUFFER then 0 else 1 + ShortRun(pieces[1..])
  }

  lemma ShortRunStep(first: bytes, rest: seq<bytes>)
    ensures var pieces := [first] + rest;
            if |first| >= MAX_SCANNER_BUFFER then
              ShortRun(pieces) == 0 && StrippedAll(pieces[..0]) == [] && !AllShort(pieces)
            else
              && ShortRun(pieces) == 1 + ShortRun(rest) && (AllShort(pieces) <==> AllShort(rest))
              && StrippedAll(pieces[..1 + ShortRun(rest)]) == [Stripped(first)] + StrippedAll(rest[..ShortRun(rest)])
  {
    var pieces := [first] + rest;
    assert pieces[1..] == rest && pieces[0] == first;
    if |first| >= MAX_SCANNER_BUFFER { assert first in pieces; }
  }

  /** Repeated calls give the stripped pieces, and fail exactly at the first piece that is too long. */
  lemma {:induction false} AllLinesSplit(s: bytes)
    ensures AllLines(s).0 == StrippedAll(Split(s)[..ShortRun(Split(s))])
    ensures AllLines(s).1 <==> ShortRun(Split(s)) == |Split(s)|
    ensures AllLines(s).1 <==> AllShort(Split(s))
    decreases |s|
  {
    if s != [] {
      hide ShortRun, StrippedAll, AllShort, LineLength, AfterLine;
      var first, rest, after := s[..LineLength(s)], Split(AfterLine(s)), AllLines(AfterLine(s));
      ShortRunStep(first, rest);
      assert Split(s) == [first] + rest;
      if LineLength(s) < MAX_SCANNER_BUFFER {
        AllLinesSplit(AfterLine(s));
        assert AllLines(s) == ([Stripped(first)] + after.0, after.1);
      } else {
        assert AllLines(s) == ([], false);
      }
    }
  }

  // ----- The scanner -----

  /** The stream; `plan` is any division into pieces. */
  class Source {
    var rest: bytes
    var plan: seq<nat>

    constructor (content: bytes, plan: seq<nat>)
      ensures rest == content
    {
      rest, this.plan := content, plan;
    }

    method Read(buffer: array<byte>) returns (count: nat)
      requires buffer.Length > 0
      modifies this, buffer
      ensures count <= buffer.Length && count <= |old(rest)| && (count == 0 <==> old(rest) == [])
      ensures rest == old(rest)[count..] && buffer[..count] == old(rest)[..count]
    {
      var limit := buffer.Length;
      if plan != [] {
        if 0 < plan[0] < limit { limit := plan[0]; }
        plan := plan[1..];
      }
      count := if |rest| < limit then |rest| else limit;
      for i := 0 to count
        invariant rest == old(rest) && buffer[..i] == rest[..i]
      {
        buffer[i] := rest[i];
        assert rest[..i + 1] == rest[..i] + [rest[i]];
      }
      rest := rest[count..];
    }
  }

  lemma LineLengthSplit(a: bytes, b: bytes)
    ensures LineLength(a + b) == if LineLength(a) < |a| then LineLength(a) else |a| + LineLength(b)
  {
    if a == [] {
      assert a + b == b;
    } else if a[0] != NEWLINE {
      assert (a + b)[1..] == a[1..] + b;
      LineLengthSplit(a[1..], b);
    }
  }

  class Lines {
    const reader: Source
    const buffer: array<byte>
    var start: nat
    var end: nat
    var eof: bool

    ghost predicate Valid()
      reads this, reader
    {
      && start <= end <= buffer.Length && buffer.Length == READ_BUFFER_SIZE
      && (eof ==> reader.rest == [])
    }

    /** What has not been returned yet: the rest of the buffer and of the stream. */
    ghost function Left(): bytes
      reads this, reader, buffer
      requires Valid()
    {
      buffer[start..end] + reader.rest
    }

    constructor (reader: Source)
      ensures Valid() && this.reader == reader && fresh(buffer) && Left() == reader.rest
    {
      this.reader := reader;
      buffer := new byte[READ_BUFFER_SIZE](_ => 0);
      start, end, eof := 0, 0, false;
    }

    /** Refills an empty buffer; at the end of the stream it stays empty. */
    method Fill()
      requires Valid() && start == end && !eof
      modifies this, reader, buffer
      ensures Valid() && Left() == old(Left())
      ensures eof <==> old(reader.rest) == []
      ensures !eof ==> start < end
    {
      ghost var before := Left();
      assert before == reader.rest;
      var count := reader.Read(buffer);
      if count == 0 {
        eof := true;
        return;
      }
      start := 0;
      end := count;
      assert buffer[0..count] + reader.rest == before;
    }

    /** The offset of a newline in the buffered bytes, or their number. */
    method Position() returns (offset: nat)
      requires Valid()
      ensures offset == LineLength(buffer[start..end])
    {
      offset := 0;
      assert buffer[start..end][0..] == buffer[start..end];
      while offset < end - start && buffer[start + offset] != NEWLINE
        invariant offset <= end - start
        invariant LineLength(buffer[start..end]) == offset + LineLength(buffer[start..end][offset..])
      {
        assert buffer[start..end][offset..][1..] == buffer[start..end][offset + 1..];
        offset := offset + 1;
      }
    }

    /** Consumes the buffered bytes before a newline, and the newline. */
    method TakeLine(offset: nat) returns (last: bytes)
      requires Valid() && offset < end - start
      modifies this`start
      ensures Valid() && last == old(buffer[start..end])[..offset]
      ensures Left() == old(buffer[start..end])[offset + 1..] + reader.rest
    {
      ghost var remaining := buffer[start..end];
      last := buffer[start..start + offset];
      assert last == remaining[..offset];
      start := start + offset + 1;
      assert buffer[start..end] == remaining[offset + 1..];
    }

    /**
      One line, however the stream is divided into pieces: the answer and what is left depend
      on the stream alone.
     */
    method Next() returns (r: Next)
      requires Valid()
      modifies this, reader, buffer
      ensures Valid() && r == Answer(old(Left()))
      ensures !r.TooLong? ==> Left() == AfterLine(old(Left()))
    {
      hide LineLength, AfterLine, Answer, Stripped;
      ghost var stream := Left();
      var line: bytes := [];
      var rawLength := 0;
      assert stream == [] + Left();
      while true
        invariant Valid() && rawLength == |line| < MAX_SCANNER_BUFFER
        invariant NEWLINE !in line && stream == line + Left()
        decreases |reader.rest|, end - start, !eof
      {
        if start == end {
          if eof {
            assert Left() == [];
            assert stream == line;
            LastLine(line);
            if line == [] { return End; }
            return Line(Stripped(line));
          }
          Fill();
          if eof { continue; }
        }
        ghost var remaining, rest := buffer[start..end], reader.rest;
        var offset := Position();
        if offset < end - start {
          LineEnds(line, remaining, rest, offset);
          if rawLength + offset + 1 > MAX_SCANNER_BUFFER { return TooLong; }
          var last := TakeLine(offset);
          return Line(Stripped(line + last));
        }
        LineGoesOn(line, remaining, rest);
        rawLength := rawLength + (end - start);
        if rawLength >= MAX_SCANNER_BUFFER { return TooLong; }
        line := line + buffer[start..end];
        start := end;
        assert Left() == rest;
      }
    }
  }

  lemma {:induction false} NoNewline(line: bytes)
    requires NEWLINE !in line
    ensures LineLength(line) == |line| && line[..|line|] == line
  {
    if line != [] {
      assert line[0] in line && forall b :: b in line[1..] ==> b in line;
      NoNewline(line[1..]);
    }
  }

  /** The stream ends with an unfinished line, or with nothing. */
  lemma LastLine(line: bytes)
    requires NEWLINE !in line && |line| < MAX_SCANNER_BUFFER
    ensures Answer(line) == if line == [] then End else Line(Stripped(line))
    ensures AfterLine(line) == []
  {
    NoNewline(line);
  }

  /** The line so far ends in the buffer. */
  lemma LineEnds(line: bytes, remaining: bytes, rest: bytes, offset: nat)
    requires NEWLINE !in line && offset == LineLength(remaining) < |remaining|
    ensures var stream := line + (remaining + rest);
            && Answer(stream) == (if |line| + offset >= MAX_SCANNER_BUFFER then TooLong
                                  else Line(Stripped(line + remaining[..offset])))
            && AfterLine(stream) == remaining[offset + 1..] + rest
  {
    hide LineLength, Stripped, Answer, AfterLine;
    var stream := line + (remaining + rest);
    NoNewline(line);
    LineLengthSplit(line, remaining + rest);
    LineLengthSplit(remaining, rest);
    assert LineLength(stream) == |line| + offset;
    var n, text, after := |line| + offset, line + remaining[..offset], remaining[offset + 1..] + rest;
    assert stream[..n] == text && stream[n + 1..] == after;
    FirstLine(stream, n, text, after);
  }

  lemma FirstLine(s: bytes, n: nat, text: bytes, after: bytes)
    requires LineLength(s) == n < |s| && s[..n] == text && s[n + 1..] == after
    ensures Answer(s) == if n >= MAX_SCANNER_BUFFER then TooLong else Line(Stripped(text))
    ensures AfterLine(s) == after
  {
    hide LineLength, Stripped;
  }

  /** The line so far takes the whole buffer. */
  lemma LineGoesOn(line: bytes, remaining: bytes, rest: bytes)
    requires NEWLINE !in line && LineLength(remaining) == |remaining|
    ensures var stream := line + (remaining + rest);
            && stream == (line + remaining) + rest
            && (|line| + |remaining| >= MAX_SCANNER_BUFFER ==> Answer(stream) == TooLong)
    ensures NEWLINE !in line + remaining
  {
    NoNewline(line);
    LineLengthSplit(line, remaining + rest);
    LineLengthSplit(remaining, rest);
    assert remaining[..|remaining|] == remaining;
    hide LineLength, AfterLine, Stripped;
    Assoc(line, remaining, rest);
  }

  /** Reading to the end gives the lines of the stream, for every division into pieces. */
  method ReadAll(content: bytes, plan: seq<nat>) returns (lines: seq<bytes>, ok: bool)
    ensures (lines, ok) == AllLines(content)
  {
    hide LineLength, Answer, AllLines, AfterLine;
    var source := new Source(content, plan);
    var scanner := new Lines(source);
    lines := [];
    while true
      invariant scanner.Valid() && fresh(scanner) && fresh(scanner.reader) && fresh(scanner.buffer)
      invariant AllLines(content).0 == lines + AllLines(scanner.Left()).0
      invariant AllLines(content).1 == AllLines(scanner.Left()).1
      decreases |scanner.Left()|
    {
      AllLinesStep(scanner.Left(), lines);
      var next := scanner.Next();
      match next {
        case End => return lines, true;
        case TooLong => return lines, false;
        case Line(text) => lines := lines + [text];
      }
    }
  }

  lemma AllLinesStep(s: bytes, lines: seq<bytes>)
    ensures match Answer(s)
            case End => lines + AllLines(s).0 == lines && AllLines(s).1
            case TooLong => lines + AllLines(s).0 == lines && !AllLines(s).1
            case Line(text) =>
              && s != [] && lines + AllLines(s).0 == (lines + [text]) + AllLines(AfterLine(s)).0
              && AllLines(s).1 == AllLines(AfterLine(s)).1
  {
    hide LineLength, AfterLine, Stripped;
    if Answer(s).Line? {
      var text, rest := Answer(s).text, AllLines(AfterLine(s)).0;
      assert lines + ([text] + rest) == (lines + [text]) + rest;
    }
  }
}
