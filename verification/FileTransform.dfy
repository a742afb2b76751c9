/**
  The patterned file transform (extensions/src/file_transform.rs): a file is cut into segments,
  some of which are enciphered or deciphered on their own, while it streams through a buffer
  filled by `read_chunk` and emptied by `write_chunks` (extensions/src/file_host.rs).
 */
module FileTransform {
  import opened Common
  import opened BlockModes
  import opened BlockTransform

  const MAX_READ: int := 16 * 1024 * 1024
  const PIECE: int := 64 * 1024

  // ----- What the transform means, without buffers -----

  datatype Options = Options(
    cipher: Cipher, iv: octets, mode: Mode, decrypt: bool,
    segment: int, every: int, offset: int, partial: bool)
  {
    /** What the option checks leave. */
    ghost predicate Valid() {
      && cipher.Valid() && |iv| == cipher.size
      && 1 <= segment <= MAX_READ && 0 <= offset < every
      && (mode.Cbc? ==> Aligned(segment, cipher.size))
    }

    /** Every `every`-th segment counts; a short last one only if asked for. */
    predicate Selects(index: nat, length: nat)
      requires every > 0
    {
      index % every == offset && (length == segment || partial)
    }
  }

  /** The bytes written, the segments seen and the segments transformed. */
  datatype Report = Report(output: octets, segments: nat, transformed: nat)

  /** A selected segment that CBC cannot take; its index is reported. */
  ghost predicate Misfit(o: Options, index: nat, length: nat)
    requires o.Valid()
  {
    o.Selects(index, length) && o.mode.Cbc? && !Aligned(length, o.cipher.size)
  }

  ghost function SegmentOut(o: Options, index: nat, s: octets): (r: octets)
    requires o.Valid() && !Misfit(o, index, |s|)
    ensures |r| == |s|
  {
    if o.Selects(index, |s|) then Transformed(o.cipher, o.iv, s, o.mode, o.decrypt) else s
  }

  function Head(o: Options, content: octets): (n: nat)
    requires o.segment > 0
    ensures n <= |content| && n <= o.segment && (content != [] ==> n > 0)
  {
    if |content| <= o.segment then |content| else o.segment
  }

  /** The report on the content from segment `index` on, or the index of the first misfit. */
  ghost function Outcome(o: Options, index: nat, content: octets): Result<Report, nat>
    requires o.Valid()
    decreases |content|
  {
    if content == [] then Ok(Report([], 0, 0))
    else
      var n := Head(o, content);
      if Misfit(o, index, n) then Err(index)
      else Combined(Report(SegmentOut(o, index, content[..n]), 1, if o.Selects(index, n) then 1 else 0),
                    Outcome(o, index + 1, content[n..]))
  }

  function Joined(a: Report, b: Report): Report {
    Report(a.output + b.output, a.segments + b.segments, a.transformed + b.transformed)
  }

  function Combined(a: Report, b: Result<Report, nat>): Result<Report, nat> {
    match b case Ok(r) => Ok(Joined(a, r)) case Err(e) => Err(e)
  }

  lemma CombinedTwice(a: Report, b: Report, c: Result<Report, nat>)
    ensures Combined(a, Combined(b, c)) == Combined(Joined(a, b), c)
  {
    if c.Ok? { assert a.output + (b.output + c.value.output) == (a.output + b.output) + c.value.output; }
  }

  // ----- Laws of the meaning -----

  /** One step of the recursion, for a content that has no misfit. */
  lemma OutcomeStep(o: Options, index: nat, content: octets)
    requires o.Valid() && Outcome(o, index, content).Ok? && content != []
    ensures var n := Head(o, content);
            && !Misfit(o, index, n)
            && Outcome(o, index + 1, content[n..]).Ok?
            && Outcome(o, index, content).value ==
               Joined(Report(SegmentOut(o, index, content[..n]), 1, if o.Selects(index, n) then 1 else 0),
                      Outcome(o, index + 1, content[n..]).value)
  {}

  /** Segments needed for so many bytes. */
  function SegmentCount(m: nat, s: nat): nat
    requires s > 0
  {
    (m + s - 1) / s
  }

  lemma SegmentCountStep(m: nat, s: nat)
    requires s > 0
    ensures SegmentCount(0, s) == 0
    ensures 0 < m <= s ==> SegmentCount(m, s) == 1
    ensures m > s ==> SegmentCount(m, s) == 1 + SegmentCount(m - s, s)
  {
    Remainder(s - 1, s, 0, s - 1);
    if 0 < m <= s {
      Remainder(m + s - 1, s, 1, m - 1);
    } else if m > s {
      var l := m - 1;
      assert l == s * (l / s) + l % s;
      assert s * (l / s + 1) == s * (l / s) + s;
      Remainder(l + s, s, l / s + 1, l % s);
    }
  }

  /** A file whose last segment CBC cannot take although the pattern selects it. */
  predicate Fails(o: Options, index: nat, length: nat)
    requires o.segment > 0 && o.every > 0 && o.cipher.size > 0
  {
    && length > 0 && o.mode.Cbc? && o.partial
    && (index + SegmentCount(length, o.segment) - 1) % o.every == o.offset
    && !Aligned(length, o.cipher.size)
  }

  /** The transform fails for exactly these lengths and options, at the last segment. */
  lemma {:induction false} OutcomeFails(o: Options, index: nat, content: octets)
    requires o.Valid()
    ensures if Fails(o, index, |content|)
            then Outcome(o, index, content) == Err(index + SegmentCount(|content|, o.segment) - 1)
            else Outcome(o, index, content).Ok?
    decreases |content|
  {
    if content != [] {
      var m, s := |content|, o.segment;
      SegmentCountStep(m, s);
      if m > s {
        if o.mode.Cbc? { AlignedTail(m, s, o.cipher.size); }
        OutcomeFails(o, index + 1, content[s..]);
        hide SegmentCount, Aligned, SegmentOut;
        assert !Misfit(o, index, s);
      } else {
        hide SegmentCount, SegmentOut, Aligned;
        assert content[m..] == [];
        OutcomeFails(o, index + 1, []);
        assert Fails(o, index, m) <==> Misfit(o, index, m);
      }
    }
  }

  lemma AlignedTail(m: nat, s: nat, n: nat)
    requires n > 0 && s <= m && Aligned(s, n)
    ensures Aligned(m, n) <==> Aligned(m - s, n)
  {
    ShiftedIndex(m - s, s, n);
  }

  /** Lengths are kept and the segment count is the length over the segment size, rounded up. */
  lemma {:induction false} OutcomeSizes(o: Options, index: nat, content: octets)
    requires o.Valid() && !Fails(o, index, |content|)
    ensures Outcome(o, index, content).Ok?
    ensures |Outcome(o, index, content).value.output| == |content|
    ensures Outcome(o, index, content).value.segments == SegmentCount(|content|, o.segment)
    ensures Outcome(o, index, content).value.transformed <= Outcome(o, index, content).value.segments
    decreases |content|
  {
    OutcomeFails(o, index, content);
    SegmentCountStep(|content|, o.segment);
    if content != [] {
      hide SegmentCount, Aligned, Outcome, Fails;
      OutcomeStep(o, index, content);
      OutcomeFails(o, index + 1, content[Head(o, content)..]);
      OutcomeSizes(o, index + 1, content[Head(o, content)..]);
      SegmentCountStep(0, o.segment);
    }
  }

  /** The segment with that index, which starts at `lo`, comes out as it should. */
  ghost predicate SegmentRight(o: Options, index: nat, content: octets, lo: nat, output: octets)
    requires o.Valid() && lo < |content|
  {
    var hi := lo + Head(o, content[lo..]);
    && !Misfit(o, index, hi - lo)
    && hi <= |output| && output[lo..hi] == SegmentOut(o, index, content[lo..hi])
  }

  /**
    The pattern in plain arithmetic: a segment is transformed on its own, with the IV the file
    starts with, if its index is the offset modulo the period and it is full or partial ones
    count too; otherwise it is copied.
   */
  ghost predicate AsPatterned(o: Options, index: nat, input: octets, lo: nat, output: octets)
    requires o.Valid() && lo < |input|
  {
    var hi := if |input| - lo <= o.segment then |input| else lo + o.segment;
    && hi <= |output|
    && if index % o.every == o.offset && (hi - lo == o.segment || o.partial)
       then (o.mode.Cbc? ==> Aligned(hi - lo, o.cipher.size))
            && output[lo..hi] == Transformed(o.cipher, o.iv, input[lo..hi], o.mode, o.decrypt)
       else output[lo..hi] == input[lo..hi]
  }

  lemma RightIsPatterned(o: Options, index: nat, content: octets, lo: nat, output: octets)
    requires o.Valid() && lo < |content| && SegmentRight(o, index, content, lo, output)
    ensures AsPatterned(o, index, content, lo, output)
  {
    hide Aligned, Transformed;
  }

  /** The pattern, segment by segment: the k-th one starts at k times the segment size. */
  lemma OutcomeAt(o: Options, index: nat, content: octets, k: nat, lo: nat)
    requires o.Valid() && !Fails(o, index, |content|) && lo == k * o.segment && lo < |content|
    ensures Outcome(o, index, content).Ok?
    ensures AsPatterned(o, index + k, content, lo, Outcome(o, index, content).value.output)
  {
    hide Fails, SegmentRight, AsPatterned;
    OutcomeRight(o, index, content, k, lo);
    RightIsPatterned(o, index + k, content, lo, Outcome(o, index, content).value.output);
  }

  /** The indices, from `index` on, of the segments the pattern takes, less `index`. */
  function Taken(o: Options, index: nat, length: nat): set<nat>
    requires o.segment > 0 && o.every > 0
  {
    set k: nat | k < SegmentCount(length, o.segment) && Takes(o, index, length, k)
  }

  predicate Takes(o: Options, index: nat, length: nat, k: nat)
    requires o.every > 0
  {
    (index + k) % o.every == o.offset && ((k + 1) * o.segment <= length || o.partial)
  }

  lemma {:induction false} ShiftCount(a: set<nat>, b: set<nat>)
    requires forall k: nat :: k in a <==> k > 0 && k - 1 in b
    ensures |a| == |b|
    decreases |b|
  {
    if b == {} {
      assert a == {};
    } else {
      var k :| k in b;
      ShiftCount(a - {k + 1}, b - {k});
      assert k + 1 in a;
    }
  }

  lemma TakenStep(o: Options, index: nat, length: nat)
    requires o.segment > 0 && o.every > 0 && length > o.segment
    ensures |Taken(o, index, length)| ==
            |Taken(o, index + 1, length - o.segment)| + if index % o.every == o.offset then 1 else 0
  {
    var all, rest := Taken(o, index, length), Taken(o, index + 1, length - o.segment);
    SegmentCountStep(length, o.segment);
    hide SegmentCount;
    forall k: nat ensures k in all - {0} <==> k > 0 && k - 1 in rest {
      if k > 0 {
        assert index + k == (index + 1) + (k - 1);
        assert (k + 1) * o.segment == (k - 1 + 1) * o.segment + o.segment;
      }
    }
    ShiftCount(all - {0}, rest);
    assert 0 in all <==> index % o.every == o.offset;
    if 0 in all { assert all == (all - {0}) + {0}; } else { assert all == all - {0}; }
  }

  lemma TakenLast(o: Options, index: nat, length: nat)
    requires o.segment > 0 && o.every > 0 && length <= o.segment
    ensures |Taken(o, index, length)| ==
            if length > 0 && index % o.every == o.offset && (length == o.segment || o.partial) then 1 else 0
  {
    SegmentCountStep(length, o.segment);
    hide SegmentCount;
    var all := Taken(o, index, length);
    if length > 0 && index % o.every == o.offset && (length == o.segment || o.partial) {
      assert all == {0};
    } else {
      assert all == {};
    }
  }

  /** The count of transformed segments is the number of those the pattern takes. */
  lemma {:induction false} OutcomeCount(o: Options, index: nat, content: octets)
    requires o.Valid() && !Fails(o, index, |content|)
    ensures Outcome(o, index, content).Ok?
    ensures Outcome(o, index, content).value.transformed == |Taken(o, index, |content|)|
    decreases |content|
  {
    hide Aligned, SegmentOut, Misfit, Outcome, Fails, Taken;
    OutcomeFails(o, index, content);
    if content == [] {
      OutcomeNothing(o, index);
      TakenLast(o, index, 0);
    } else {
      var n := Head(o, content);
      OutcomeStep(o, index, content);
      OutcomeFails(o, index + 1, content[n..]);
      OutcomeCount(o, index + 1, content[n..]);
      if |content| > o.segment {
        TakenStep(o, index, |content|);
      } else {
        assert content[n..] == [];
        OutcomeNothing(o, index + 1);
        TakenLast(o, index, |content|);
      }
    }
  }

  lemma {:induction false} OutcomeRight(o: Options, index: nat, content: octets, k: nat, lo: nat)
    requires o.Valid() && !Fails(o, index, |content|) && lo == k * o.segment && lo < |content|
    ensures Outcome(o, index, content).Ok?
    ensures SegmentRight(o, index + k, content, lo, Outcome(o, index, content).value.output)
    decreases k
  {
    hide Aligned, Outcome, Misfit, SegmentCount, SegmentOut, Fails, SegmentRight;
    var n, s := Head(o, content), o.segment;
    OutcomeFails(o, index, content);
    OutcomeStep(o, index, content);
    var first, rest := SegmentOut(o, index, content[..n]), Outcome(o, index + 1, content[n..]).value.output;
    if k == 0 {
      FirstRight(o, index, content, rest);
    } else {
      assert (k - 1) * s == k * s - s;
      Multiple(s, k - 1);
      OutcomeFails(o, index + 1, content[s..]);
      OutcomeRight(o, index + 1, content[s..], k - 1, lo - s);
      LaterRight(o, index + k, content, lo, first, rest);
    }
  }

  lemma FirstRight(o: Options, index: nat, content: octets, rest: octets)
    requires o.Valid() && content != [] && !Misfit(o, index, Head(o, content))
    ensures SegmentRight(o, index, content, 0, SegmentOut(o, index, content[..Head(o, content)]) + rest)
  {
    hide Misfit, SegmentOut;
    FirstOf(content, SegmentOut(o, index, content[..Head(o, content)]), rest);
  }

  lemma LaterRight(o: Options, index: nat, content: octets, lo: nat, first: octets, rest: octets)
    requires o.Valid() && o.segment <= lo < |content| && |first| == o.segment
    requires SegmentRight(o, index, content[o.segment..], lo - o.segment, rest)
    ensures SegmentRight(o, index, content, lo, first + rest)
  {
    hide Misfit, SegmentOut;
    var hi := lo + Head(o, content[lo..]);
    SliceOfSlice(content, o.segment, lo, hi);
    SliceOfSum(first, rest, lo, hi);
  }

  lemma FirstOf(content: octets, first: octets, rest: octets)
    requires |first| <= |content|
    ensures content[0..] == content && content[0..|first|] == content[..|first|]
    ensures (first + rest)[0..|first|] == first
  {}

  lemma SliceOfSlice(x: octets, s: nat, lo: nat, hi: nat)
    requires s <= lo <= hi <= |x|
    ensures x[s..][lo - s..] == x[lo..] && x[s..][lo - s..hi - s] == x[lo..hi]
  {}

  lemma SliceOfSum(a: octets, b: octets, lo: nat, hi: nat)
    requires |a| <= lo <= hi <= |a| + |b|
    ensures (a + b)[lo..hi] == b[lo - |a|..hi - |a|]
  {}

  lemma SegmentBack(o: Options, index: nat, s: octets)
    requires o.Valid() && !Misfit(o, index, |s|)
    ensures var back := o.(decrypt := !o.decrypt);
            && back.Valid() && !Misfit(back, index, |s|)
            && SegmentOut(back, index, SegmentOut(o, index, s)) == s
  {
    hide Aligned, Transformed;
    if o.Selects(index, |s|) { TransformedBack(o.cipher, o.iv, s, o.mode, o.decrypt); }
  }

  /** Running the opposite operation with the same options over the output restores the file. */
  lemma {:induction false} OutcomeBack(o: Options, index: nat, content: octets)
    requires o.Valid() && !Fails(o, index, |content|)
    ensures Outcome(o, index, content).Ok?
    ensures var r := Outcome(o, index, content).value;
            Outcome(o.(decrypt := !o.decrypt), index, r.output) == Ok(r.(output := content))
    decreases |content|
  {
    hide Aligned, SegmentCount, SegmentOut, Misfit, Outcome, Fails;
    OutcomeFails(o, index, content);
    if content == [] {
      OutcomeNothing(o, index);
      OutcomeNothing(o.(decrypt := !o.decrypt), index);
    } else {
      var n := Head(o, content);
      OutcomeStep(o, index, content);
      OutcomeFails(o, index + 1, content[n..]);
      OutcomeBack(o, index + 1, content[n..]);
      OutcomeSizes(o, index + 1, content[n..]);
      BackStep(o, index, content, Outcome(o, index + 1, content[n..]).value);
    }
  }

  lemma OutcomeNothing(o: Options, index: nat)
    requires o.Valid()
    ensures Outcome(o, index, []) == Ok(Report([], 0, 0))
  {}

  lemma BackStep(o: Options, index: nat, content: octets, rest: Report)
    requires o.Valid() && content != [] && Outcome(o, index, content).Ok? && !Misfit(o, index, Head(o, content))
    requires Outcome(o, index + 1, content[Head(o, content)..]) == Ok(rest)
    requires |rest.output| == |content| - Head(o, content)
    requires var back := o.(decrypt := !o.decrypt);
             Outcome(back, index + 1, rest.output) == Ok(rest.(output := content[Head(o, content)..]))
    ensures var r := Outcome(o, index, content).value;
            Outcome(o.(decrypt := !o.decrypt), index, r.output) == Ok(r.(output := content))
  {
    hide Aligned, SegmentOut, Misfit, Outcome;
    var back, n := o.(decrypt := !o.decrypt), Head(o, content);
    OutcomeStep(o, index, content);
    SegmentBack(o, index, content[..n]);
    var first, selected := SegmentOut(o, index, content[..n]), if o.Selects(index, n) then 1 else 0;
    OutcomeFirst(back, index, first, rest.output);
    assert content[..n] + content[n..] == content;
    assert Outcome(o, index, content).value == Joined(Report(first, 1, selected), rest);
    assert Outcome(back, index, first + rest.output) ==
           Combined(Report(content[..n], 1, selected), Ok(rest.(output := content[n..])));
  }

  /** One step of the recursion, put together from a segment and what follows it. */
  lemma OutcomeFirst(o: Options, index: nat, first: octets, rest: octets)
    requires o.Valid() && first != [] && Head(o, first + rest) == |first| && !Misfit(o, index, |first|)
    ensures Outcome(o, index, first + rest) ==
            Combined(Report(SegmentOut(o, index, first), 1, if o.Selects(index, |first|) then 1 else 0),
                     Outcome(o, index + 1, rest))
  {
    hide Aligned, SegmentOut, Misfit;
    assert (first + rest)[..|first|] == first && (first + rest)[|first|..] == rest;
  }

  // ----- The input and the output file -----

  /** What one `read` does: give up to so many bytes, or be interrupted. */
  datatype ReadEvent = Give(limit: nat) | Interrupted

  /** An open input file; `plan` is any pattern of short reads and interruptions. */
  class Reader {
    var rest: octets
    var plan: seq<ReadEvent>

    constructor (content: octets, plan: seq<ReadEvent>)
      ensures rest == content
    {
      rest, this.plan := content, plan;
    }

    /** Fills part of `buffer[lo..hi]`; zero means the end of the file. */
    method Read(buffer: array<octet>, lo: nat, hi: nat) returns (count: Option<nat>)
      requires lo < hi <= buffer.Length
      modifies this, buffer
      ensures count.None? ==> |plan| < |old(plan)| && rest == old(rest) && buffer[..] == old(buffer[..])
      ensures count.Some? ==> |plan| <= |old(plan)|
      ensures count.Some? ==> var n := count.value;
                && n <= hi - lo && n <= |old(rest)| && (n == 0 <==> old(rest) == [])
                && rest == old(rest)[n..]
                && buffer[..] == old(buffer[..lo]) + old(rest)[..n] + old(buffer[lo + n..])
    {
      var limit := hi - lo;
      if plan != [] {
        var event := plan[0];
        plan := plan[1..];
        if event.Interrupted? { return None; }
        if 0 < event.limit < limit { limit := event.limit; }
      }
      var n := if |rest| < limit then |rest| else limit;
      Overwrite(buffer, lo, rest[..n]);
      rest := rest[n..];
      return Some(n);
    }
  }

  /** `read_chunk`: reads pieces until the buffer is full or the file ends. */
  method ReadChunk(input: Reader, buffer: array<octet>) returns (total: nat)
    requires buffer.Length > 0
    modifies input, buffer
    ensures total <= buffer.Length && total <= |old(input.rest)|
    ensures total == buffer.Length || input.rest == []
    ensures input.rest == old(input.rest)[total..]
    ensures buffer[..total] == old(input.rest)[..total]
  {
    ghost var content := input.rest;
    total := 0;
    while total < buffer.Length
      invariant total <= buffer.Length && total <= |content|
      invariant input.rest == content[total..]
      invariant buffer[..total] == content[..total]
      decreases |input.rest| + |input.plan|, buffer.Length - total
    {
      var end := if buffer.Length < total + PIECE then buffer.Length else total + PIECE;
      var count := input.Read(buffer, total, end);
      if count.Some? {
        if count.value == 0 { return; }
        assert buffer[..total + count.value] == content[..total] + content[total..][..count.value];
        total := total + count.value;
      }
    }
  }

  /** The staged output file. */
  class Sink {
    var written: octets

    constructor ()
      ensures written == []
    {
      written := [];
    }

    method WriteAll(piece: octets)
      modifies this
      ensures written == old(written) + piece
    {
      written := written + piece;
    }
  }

  /** `write_chunks`: the bytes in pieces of at most 64 KiB. */
  method WriteChunks(output: Sink, data: octets)
    modifies output
    ensures output.written == old(output.written) + data
  {
    var pos := 0;
    while pos < |data|
      invariant pos <= |data|
      invariant output.written == old(output.written) + data[..pos]
    {
      var end := if |data| < pos + PIECE then |data| else pos + PIECE;
      output.WriteAll(data[pos..end]);
      assert data[..end] == data[..pos] + data[pos..end];
      pos := end;
    }
    assert data[..pos] == data;
  }

  // ----- The streaming loop -----

  datatype TransformError =
    | SegmentSize | TransformEvery | TransformOffset | IvLength | SegmentAlignment | Misaligned(segment: nat)

  /** The requested buffer size, clamped and cut down to whole segments. */
  function BufferSize(requested: int, segment: int): (size: nat)
    requires 1 <= segment <= MAX_READ
    ensures segment <= size <= MAX_READ && OffsetIn(size, segment) == 0
  {
    var clamped := if requested < segment then segment else if requested > MAX_READ then MAX_READ else requested;
    WholePart(clamped, segment);
    clamped - clamped % segment
  }

  /** No larger buffer of whole segments is within the request and the limit. */
  lemma BufferLargest(requested: int, segment: int, larger: int)
    requires 1 <= segment <= MAX_READ && BufferSize(requested, segment) < larger <= MAX_READ && larger <= requested
    ensures larger % segment != 0
  {
    var clamped := if requested > MAX_READ then MAX_READ else requested;
    var q, r := clamped / segment, clamped % segment;
    assert clamped == segment * q + r;
    Remainder(larger, segment, q, larger - (clamped - r));
  }

  lemma WholePart(m: nat, n: nat)
    requires 1 <= n <= m
    ensures n <= m - m % n <= m && OffsetIn(m - m % n, n) == 0
  {
    var q := m / n;
    assert m == n * q + m % n;
    Multiple(n, q - 1);
    assert n * (q - 1) == n * q - n;
    assert q >= 1 by { Multiple(n, q); }
    Remainder(n * q, n, q, 0);
  }

  /** The report on a file read so far, ahead of the outcome of what is still to come. */
  ghost predicate Streamed(o: Options, content: octets, done: Report, rest: octets)
    requires o.Valid()
  {
    Outcome(o, 0, content) == Combined(done, Outcome(o, done.segments, rest))
  }

  lemma StreamedStep(o: Options, content: octets, done: Report, rest: octets)
    requires o.Valid() && Streamed(o, content, done, rest) && rest != []
    ensures var n, index := Head(o, rest), done.segments;
            if Misfit(o, index, n) then Outcome(o, 0, content) == Err(index)
            else
              var one := Report(SegmentOut(o, index, rest[..n]), 1, if o.Selects(index, n) then 1 else 0);
              Streamed(o, content, Joined(done, one), rest[n..])
  {
    var n, index := Head(o, rest), done.segments;
    if !Misfit(o, index, n) {
      var one := Report(SegmentOut(o, index, rest[..n]), 1, if o.Selects(index, n) then 1 else 0);
      CombinedTwice(done, one, Outcome(o, index + 1, rest[n..]));
    }
  }

  /** One segment of the buffer, transformed in place if it is selected. */
  method Segment(o: Options, buffer: array<octet>, lo: nat, hi: nat, index: nat) returns (r: Result<nat, nat>)
    requires o.Valid() && lo <= hi <= buffer.Length
    modifies buffer
    ensures r.Err? <==> Misfit(o, index, hi - lo)
    ensures r.Err? ==> r.error == index
    ensures r.Ok? ==>
              && r.value == (if o.Selects(index, hi - lo) then 1 else 0)
              && buffer[..] == old(buffer[..lo]) + SegmentOut(o, index, old(buffer[lo..hi])) + old(buffer[hi..])
  {
    hide Aligned;
    ghost var before := buffer[..];
    assert before == before[..lo] + buffer[lo..hi] + before[hi..];
    if !o.Selects(index, hi - lo) { return Ok(0); }
    if o.mode.Cbc? && !Aligned(hi - lo, o.cipher.size) { return Err(index); }
    Transform(o.cipher, buffer, lo, hi, o.iv, o.mode, o.decrypt);
    return Ok(1);
  }

  /** The segments of one filled buffer. Only the end of the file may cut the last one short. */
  method Chunk(o: Options, buffer: array<octet>, count: nat, ghost content: octets, ghost done: Report,
               ghost rest: octets, index: nat, transformed: nat)
    returns (r: Result<(nat, nat), nat>)
    requires o.Valid() && count <= buffer.Length && (rest != [] ==> OffsetIn(count, o.segment) == 0)
    requires Streamed(o, content, done, buffer[..count] + rest)
    requires index == done.segments && transformed == done.transformed
    modifies buffer
    ensures r.Err? ==> Outcome(o, 0, content) == Err(r.error)
    ensures r.Ok? ==>
              Streamed(o, content, Report(done.output + buffer[..count], r.value.0, r.value.1), rest)
  {
    hide Aligned, OffsetIn, Streamed, Misfit, SegmentOut;
    ghost var chunk, so := buffer[..count], done;
    var pos, k, t := 0, index, transformed;
    assert done.output + [] == done.output && done == Report(done.output, done.segments, done.transformed);
    while pos < count
      invariant pos <= count
      invariant so == Report(done.output + buffer[..pos], k, t)
      invariant buffer[pos..count] == chunk[pos..count]
      invariant Streamed(o, content, so, chunk[pos..] + rest)
      invariant rest != [] ==> OffsetIn(count - pos, o.segment) == 0
    {
      var end := if count < pos + o.segment then count else pos + o.segment;
      if rest != [] { AlignedSegment(count - pos, o.segment); }
      SegmentNext(o, content, so, chunk, rest, pos, end);
      ghost var now := buffer[..];
      SubSlice(now, chunk, pos, end, count);
      assert buffer[pos..end] == now[pos..end] && buffer[..pos] == now[..pos] && buffer[end..] == now[end..];
      var one := Segment(o, buffer, pos, end, k);
      if one.Err? { return Err(k); }
      ghost var later := buffer[..];
      AfterSegment(now, later, SegmentOut(o, k, chunk[pos..end]), done.output, pos, end, count);
      assert buffer[..end] == later[..end] && buffer[end..count] == later[end..count];
      k, t := k + 1, t + one.value;
      so := Report(done.output + buffer[..end], k, t);
      pos := end;
    }
    assert chunk[pos..] + rest == rest;
    return Ok((k, t));
  }

  lemma SegmentNext(o: Options, content: octets, so: Report, chunk: octets, rest: octets, pos: nat, end: nat)
    requires o.Valid() && pos < end <= |chunk| && Streamed(o, content, so, chunk[pos..] + rest)
    requires end - pos == o.segment || (end - pos < o.segment && end == |chunk| && rest == [])
    ensures if Misfit(o, so.segments, end - pos) then Outcome(o, 0, content) == Err(so.segments)
            else
              var one := Report(SegmentOut(o, so.segments, chunk[pos..end]), 1,
                                if o.Selects(so.segments, end - pos) then 1 else 0);
              Streamed(o, content, Joined(so, one), chunk[end..] + rest)
  {
    hide Aligned, Streamed, Misfit, SegmentOut, Outcome;
    var left, n := chunk[pos..] + rest, end - pos;
    assert |left| == |chunk| - pos + |rest|;
    assert left[..n] == chunk[pos..end] && left[n..] == chunk[end..] + rest;
    StreamedStep(o, content, so, left);
  }

  lemma AfterSegment(now: octets, later: octets, out: octets, done: octets, pos: nat, end: nat, count: nat)
    requires pos <= end <= count <= |now| && |out| == end - pos && later == now[..pos] + out + now[end..]
    ensures |later| == |now| && later[end..count] == now[end..count]
    ensures (done + now[..pos]) + out == done + later[..end]
  {
    assert later[..end] == now[..pos] + out;
  }

  lemma SliceSlice(x: octets, lo: nat, mid: nat, hi: nat)
    requires lo <= mid <= hi <= |x|
    ensures x[lo..hi][..mid - lo] == x[lo..mid] && x[lo..hi][mid - lo..] == x[mid..hi]
  {}

  lemma SubSlice(x: octets, y: octets, pos: nat, end: nat, count: nat)
    requires pos <= end <= count <= |x| && count == |y| && x[pos..count] == y[pos..count]
    ensures x[pos..end] == y[pos..end] && x[end..count] == y[end..count]
  {
    SliceSlice(x, pos, end, count);
    SliceSlice(y, pos, end, count);
  }

  /** A whole number of segments is none or starts with a full one. */
  lemma AlignedSegment(m: nat, n: nat)
    requires n > 0 && OffsetIn(m, n) == 0
    ensures m == 0 || (m >= n && OffsetIn(m - n, n) == 0)
  {
    AlignedStep(m, n);
    assert Aligned(m, n);
  }

  /** Every segment of the file, and nothing else, comes out as the pattern says. */
  ghost predicate Patterned(o: Options, input: octets, output: octets)
    requires o.Valid()
  {
    && |output| == |input|
    && forall k: nat, lo: nat :: lo == k * o.segment && lo < |input| ==> AsPatterned(o, k, input, lo, output)
  }

  lemma OutcomePatterned(o: Options, content: octets)
    requires o.Valid() && !Fails(o, 0, |content|)
    ensures Outcome(o, 0, content).Ok?
    ensures var r := Outcome(o, 0, content).value;
            && r.segments == (|content| + o.segment - 1) / o.segment
            && r.transformed == |Taken(o, 0, |content|)|
            && Patterned(o, content, r.output)
  {
    hide Outcome, Fails, Taken, AsPatterned;
    OutcomeSizes(o, 0, content);
    OutcomeCount(o, 0, content);
    forall k: nat, lo: nat | lo == k * o.segment && lo < |content|
      ensures AsPatterned(o, k, content, lo, Outcome(o, 0, content).value.output)
    {
      OutcomeAt(o, 0, content, k, lo);
    }
  }

  /** The answer for a whole file in plain arithmetic: sizes, counts, segments, or the failing one. */
  ghost predicate Answers(o: Options, input: octets, r: Result<(nat, nat, nat), TransformError>, output: octets)
    requires o.Valid()
  {
    var count := (|input| + o.segment - 1) / o.segment;
    if Fails(o, 0, |input|) then r == Err(Misaligned(count - 1))
    else r == Ok((|input|, count, |Taken(o, 0, |input|)|)) && Patterned(o, input, output)
  }

  lemma OutcomeAnswers(o: Options, content: octets)
    requires o.Valid()
    ensures match Outcome(o, 0, content)
            case Err(k) => forall output: octets :: Answers(o, content, Err(Misaligned(k)), output)
            case Ok(report) =>
              Answers(o, content, Ok((|content|, report.segments, report.transformed)), report.output)
  {
    hide Outcome, Taken, Patterned, Fails;
    OutcomeFails(o, 0, content);
    if !Fails(o, 0, |content|) { OutcomePatterned(o, content); }
  }

  /**
    The transform of a whole file. Whatever buffer size is asked for and however the reads
    come out, the staged file, the counts and the error are those of `Outcome`.
   */
  method TransformFile(o: Options, input: Reader, output: Sink, bufferSize: int)
    returns (r: Result<(nat, nat, nat), TransformError>)
    requires o.cipher.Valid()
    requires output.written == []
    modifies input, output
    ensures !(1 <= o.segment <= MAX_READ) ==> r == Err(SegmentSize)
    ensures 1 <= o.segment <= MAX_READ && o.every <= 0 ==> r == Err(TransformEvery)
    ensures 1 <= o.segment <= MAX_READ && o.every > 0 && !(0 <= o.offset < o.every) ==> r == Err(TransformOffset)
    ensures 1 <= o.segment <= MAX_READ && 0 <= o.offset < o.every && |o.iv| != o.cipher.size ==>
              r == Err(TransformError.IvLength)
    ensures 1 <= o.segment <= MAX_READ && 0 <= o.offset < o.every && |o.iv| == o.cipher.size && !o.Valid() ==>
              r == Err(SegmentAlignment)
    ensures o.Valid() ==> match Outcome(o, 0, old(input.rest))
              case Err(k) => r == Err(Misaligned(k))
              case Ok(report) =>
                r == Ok((|old(input.rest)|, report.segments, report.transformed)) && output.written == report.output
    ensures o.Valid() ==> Answers(o, old(input.rest), r, output.written)
  {
    hide Outcome, Answers;
    ghost var content := input.rest;
    if o.Valid() { OutcomeAnswers(o, content); }
    if !(1 <= o.segment <= MAX_READ) { return Err(SegmentSize); }
    if o.every <= 0 { return Err(TransformEvery); }
    if o.offset < 0 || o.offset >= o.every { return Err(TransformOffset); }
    var size := BufferSize(bufferSize, o.segment);
    if |o.iv| != o.cipher.size { return Err(TransformError.IvLength); }
    if o.mode.Cbc? && !Aligned(o.segment, o.cipher.size) { return Err(SegmentAlignment); }
    r := Stream(o, input, output, size);
  }

  method Stream(o: Options, input: Reader, output: Sink, size: nat)
    returns (r: Result<(nat, nat, nat), TransformError>)
    requires o.Valid() && size > 0 && OffsetIn(size, o.segment) == 0 && output.written == []
    modifies input, output
    ensures match Outcome(o, 0, old(input.rest))
            case Err(k) => r == Err(Misaligned(k))
            case Ok(report) =>
              r == Ok((|old(input.rest)|, report.segments, report.transformed)) && output.written == report.output
  {
    hide Aligned, OffsetIn, Outcome, Misfit;
    ghost var content := input.rest;
    var buffer := new octet[size](_ => 0);
    var processed, index, transformed := 0, 0, 0;
    StreamedStart(o, content);
    while true
      invariant fresh(buffer) && buffer.Length == size
      invariant Streamed(o, content, Report(output.written, index, transformed), input.rest)
      invariant processed + |input.rest| == |content|
      decreases |input.rest|
    {
      ghost var before, done := input.rest, Report(output.written, index, transformed);
      var count := ReadChunk(input, buffer);
      assert before == before[..count] + before[count..];
      if count == 0 { break; }
      var segments := Chunk(o, buffer, count, content, done, input.rest, index, transformed);
      if segments.Err? { return Err(Misaligned(segments.error)); }
      index, transformed := segments.value.0, segments.value.1;
      WriteChunks(output, buffer[..count]);
      processed := processed + count;
    }
    StreamedEnd(o, content, Report(output.written, index, transformed));
    return Ok((processed, index, transformed));
  }

  lemma StreamedStart(o: Options, content: octets)
    requires o.Valid()
    ensures Streamed(o, content, Report([], 0, 0), content)
  {
    var r := Outcome(o, 0, content);
    if r.Ok? { assert [] + r.value.output == r.value.output; }
  }

  lemma StreamedEnd(o: Options, content: octets, done: Report)
    requires o.Valid() && Streamed(o, content, done, [])
    ensures Outcome(o, 0, content) == Ok(done)
  {
    assert done.output + [] == done.output;
  }
}
