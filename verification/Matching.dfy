/**
  String similarity (core/src/matching.rs, `compare_strings`): one row of the edit-distance
  table over the bytes left after stripping the common prefix and suffix, with the shorter
  string across the row. The arguments here are the trimmed, lowercased UTF-8 bytes.
 */
module Matching {
  import opened Common

  function Min(a: int, b: int): int { if a <= b then a else b }

  function Max(a: int, b: int): int { if a >= b then a else b }

  // ----- The textbook distance, and edit scripts it is measured against -----

  /** Levenshtein's recursion on the last characters of the full strings. */
  function Distance(a: bytes, b: bytes): nat
    decreases |a| + |b|
  {
    if a == [] then |b|
    else if b == [] then |a|
    else
      var a', b' := a[..|a| - 1], b[..|b| - 1];
      Min(Min(Distance(a', b) + 1, Distance(a, b') + 1),
          Distance(a', b') + if a[|a| - 1] == b[|b| - 1] then 0 else 1)
  }

  /** One column of an alignment of two strings, read from left to right. */
  datatype Edit = Keep(both: byte) | Replace(dropped: byte, added: byte) | Delete(dropped: byte) | Add(added: byte)

  function Source(script: seq<Edit>): bytes {
    if script == [] then []
    else
      var e := script[|script| - 1];
      Source(script[..|script| - 1])
      + match e case Keep(c) => [c] case Replace(c, _) => [c] case Delete(c) => [c] case Add(_) => []
  }

  function Target(script: seq<Edit>): bytes {
    if script == [] then []
    else
      var e := script[|script| - 1];
      Target(script[..|script| - 1])
      + match e case Keep(c) => [c] case Replace(_, c) => [c] case Delete(_) => [] case Add(c) => [c]
  }

  function Cost(script: seq<Edit>): nat {
    if script == [] then 0
    else Cost(script[..|script| - 1]) + if script[|script| - 1].Keep? then 0 else 1
  }

  // ----- Elementary facts about the distance -----

  lemma DistanceStep(a: bytes, b: bytes)
    requires a != [] && b != []
    ensures var a', b' := a[..|a| - 1], b[..|b| - 1];
            Distance(a, b) == Min(Min(Distance(a', b) + 1, Distance(a, b') + 1),
                                  Distance(a', b') + if a[|a| - 1] == b[|b| - 1] then 0 else 1)
  {}

  lemma DistanceEdge(a: bytes)
    ensures Distance([], a) == Distance(a, []) == |a|
  {}

  lemma {:induction false} DistanceBounds(a: bytes, b: bytes)
    ensures Max(|a|, |b|) - Min(|a|, |b|) <= Distance(a, b) <= Max(|a|, |b|)
    decreases |a| + |b|
  {
    if a != [] && b != [] {
      var a', b' := a[..|a| - 1], b[..|b| - 1];
      DistanceBounds(a', b);
      DistanceBounds(a, b');
      DistanceBounds(a', b');
    }
  }

  lemma {:induction false} Symmetric(a: bytes, b: bytes)
    ensures Distance(a, b) == Distance(b, a)
    decreases |a| + |b|
  {
    if a != [] && b != [] {
      var a', b' := a[..|a| - 1], b[..|b| - 1];
      Symmetric(a', b);
      Symmetric(a, b');
      Symmetric(a', b');
    }
  }

  /** Dropping the last character of one string changes the distance by at most one. */
  lemma {:induction false} DropLast(a: bytes, b: bytes)
    requires a != []
    ensures Distance(a[..|a| - 1], b) <= Distance(a, b) + 1
    decreases |a| + |b|
  {
    var a' := a[..|a| - 1];
    if b != [] {
      var b' := b[..|b| - 1];
      DropLast(a, b');
      if a' != [] { } else { DistanceBounds(a, b); }
      DropLastOther(a', b);
    }
  }

  /** The recursion's own bound: `Distance(a, b) <= Distance(a, b') + 1`. */
  lemma DropLastOther(a: bytes, b: bytes)
    requires b != []
    ensures Distance(a, b) <= Distance(a, b[..|b| - 1]) + 1
  {
    if a == [] {} else {}
  }

  /** A common last character is free. */
  lemma CommonLast(a: bytes, b: bytes)
    requires a != [] && b != [] && a[|a| - 1] == b[|b| - 1]
    ensures Distance(a, b) == Distance(a[..|a| - 1], b[..|b| - 1])
  {
    var a', b' := a[..|a| - 1], b[..|b| - 1];
    // Distance(a', b') <= Distance(a', b) + 1 and <= Distance(a, b') + 1
    DropLast(a, b');
    DropLast(b, a');
    Symmetric(a', b);
    Symmetric(a', b');
  }

  lemma {:induction false} CommonFirstAgainstOne(c: byte, a: bytes)
    ensures Distance([c] + a, [c]) == |a|
  {
    var s := [c] + a;
    DistanceBounds(s, [c]);
    if a == [] {
      CommonLast(s, [c]);
      assert s[..0] == [] && [c][..0] == [];
    } else {
      var a' := a[..|a| - 1];
      CommonFirstAgainstOne(c, a');
      assert s[..|s| - 1] == [c] + a';
    }
  }

  /** A common first character is free, although the recursion looks at the last ones. */
  lemma {:induction false} CommonFirst(c: byte, a: bytes, b: bytes)
    ensures Distance([c] + a, [c] + b) == Distance(a, b)
    decreases |a| + |b|
  {
    hide Distance;
    if b == [] {
      CommonFirstAgainstOne(c, a);
      DistanceEdge(a);
      assert [c] + b == [c];
    } else if a == [] {
      CommonFirstAgainstOne(c, b);
      DistanceEdge(b);
      Symmetric([c] + a, [c] + b);
      assert [c] + a == [c];
    } else {
      var a', b' := a[..|a| - 1], b[..|b| - 1];
      CommonFirst(c, a', b);
      CommonFirst(c, a, b');
      CommonFirst(c, a', b');
      var ca, cb := [c] + a, [c] + b;
      assert ca[..|ca| - 1] == [c] + a' && cb[..|cb| - 1] == [c] + b';
      DistanceStep(a, b);
      DistanceStep(ca, cb);
    }
  }

  lemma {:induction false} CommonPrefix(p: bytes, a: bytes, b: bytes)
    ensures Distance(p + a, p + b) == Distance(a, b)
  {
    hide Distance;
    if p == [] {
      assert p + a == a && p + b == b;
    } else {
      CommonPrefix(p[1..], a, b);
      CommonFirst(p[0], p[1..] + a, p[1..] + b);
      assert p + a == [p[0]] + (p[1..] + a);
      assert p + b == [p[0]] + (p[1..] + b);
    }
  }

  lemma {:induction false} CommonSuffix(a: bytes, b: bytes, s: bytes)
    ensures Distance(a + s, b + s) == Distance(a, b)
  {
    if s == [] {
      assert a + s == a && b + s == b;
    } else {
      var s' := s[..|s| - 1];
      CommonSuffix(a, b, s');
      CommonLast(a + s, b + s);
      assert (a + s)[..|a + s| - 1] == a + s';
      assert (b + s)[..|b + s| - 1] == b + s';
    }
  }

  lemma {:induction false} ZeroMeansEqual(a: bytes, b: bytes)
    ensures Distance(a, b) == 0 <==> a == b
    decreases |a| + |b|
  {
    if a != [] && b != [] {
      var a', b' := a[..|a| - 1], b[..|b| - 1];
      assert a == a' + [a[|a| - 1]] && b == b' + [b[|b| - 1]];
      ZeroMeansEqual(a', b');
      if a == b { CommonLast(a, b); }
    }
  }

  // ----- The distance is the cost of a cheapest edit script -----

  lemma {:induction false} NoScriptIsCheaper(script: seq<Edit>)
    ensures Distance(Source(script), Target(script)) <= Cost(script)
  {
    if script != [] {
      var front, e := script[..|script| - 1], script[|script| - 1];
      NoScriptIsCheaper(front);
      var a, b := Source(front), Target(front);
      var a1, b1 := Source(script), Target(script);
      match e {
        case Keep(c) => CommonLast(a1, b1); assert a1[..|a1| - 1] == a && b1[..|b1| - 1] == b;
        case Replace(c, d) => assert a1[..|a1| - 1] == a && b1[..|b1| - 1] == b;
        case Delete(c) =>
          assert a1[..|a1| - 1] == a && b1 == b;
          DropLastOther(b, a1);
          Symmetric(a1, b);
          Symmetric(a, b);
        case Add(c) =>
          assert a1 == a && b1[..|b1| - 1] == b;
          DropLastOther(a, b1);
      }
    }
  }

  lemma {:induction false} CheapestScript(a: bytes, b: bytes) returns (script: seq<Edit>)
    ensures Source(script) == a && Target(script) == b
    ensures Cost(script) == Distance(a, b)
    decreases |a| + |b|
  {
    hide Distance;
    DistanceEdge(a);
    DistanceEdge(b);
    if a == [] && b == [] { return []; }
    if a != [] && b != [] { DistanceStep(a, b); }
    if a != [] { DistanceEdge(a[..|a| - 1]); }
    if b != [] { DistanceEdge(b[..|b| - 1]); }
    if a == [] || (b != [] && Distance(a, b) == Distance(a, b[..|b| - 1]) + 1) {
      var front := CheapestScript(a, b[..|b| - 1]);
      script := front + [Add(b[|b| - 1])];
      assert script[..|script| - 1] == front;
    } else if b == [] || Distance(a, b) == Distance(a[..|a| - 1], b) + 1 {
      var front := CheapestScript(a[..|a| - 1], b);
      script := front + [Delete(a[|a| - 1])];
      assert script[..|script| - 1] == front;
    } else {
      var front := CheapestScript(a[..|a| - 1], b[..|b| - 1]);
      var x, y := a[|a| - 1], b[|b| - 1];
      script := front + [if x == y then Keep(x) else Replace(x, y)];
      assert script[..|script| - 1] == front;
    }
  }

  // ----- The score -----

  /** `1 - distance / longest`, in exact arithmetic; two empty strings are equal. */
  function Score(a: bytes, b: bytes): real {
    if a == b then 1.0 else 1.0 - Distance(a, b) as real / Max(|a|, |b|) as real
  }

  lemma ScoreLaws(a: bytes, b: bytes)
    ensures 0.0 <= Score(a, b) <= 1.0
    ensures Score(a, b) == Score(b, a)
    ensures Score(a, b) == 1.0 <==> a == b
  {
    DistanceBounds(a, b);
    Symmetric(a, b);
    ZeroMeansEqual(a, b);
    if a != b {
      Fraction(Distance(a, b), Max(|a|, |b|));
    }
  }

  /**
    What the score measures: no way of editing one string into the other costs less than the
    part of the longer length that the score misses, and some way costs just that.
   */
  ghost predicate Measures(a: bytes, b: bytes, score: real) {
    var longest := if |a| >= |b| then |a| else |b|;
    && (forall script :: Source(script) == a && Target(script) == b ==>
          (1.0 - score) * longest as real <= Cost(script) as real)
    && (exists script :: Source(script) == a && Target(script) == b
          && (1.0 - score) * longest as real == Cost(script) as real)
    && (longest == 0 ==> score == 1.0)
  }

  lemma MissedPart(a: bytes, b: bytes)
    ensures var longest := if |a| >= |b| then |a| else |b|;
            (1.0 - Score(a, b)) * longest as real == Distance(a, b) as real
  {
    hide Distance;
    ZeroMeansEqual(a, b);
    var n, longest := Distance(a, b), Max(|a|, |b|);
    if a == b {
      assert Score(a, b) == 1.0 && n == 0;
    } else {
      Undivided(n, longest);
      assert Score(a, b) == 1.0 - n as real / longest as real;
    }
  }

  lemma Undivided(n: int, d: int)
    requires d > 0
    ensures (1.0 - (1.0 - n as real / d as real)) * d as real == n as real
  {}

  lemma ScoreMeasures(a: bytes, b: bytes)
    ensures Measures(a, b, Score(a, b))
  {
    hide Distance, Score;
    MissedPart(a, b);
    var best := CheapestScript(a, b);
    forall script | Source(script) == a && Target(script) == b ensures Distance(a, b) <= Cost(script) {
      NoScriptIsCheaper(script);
    }
    if a == b { ScoreLaws(a, b); }
  }

  lemma Fraction(n: int, d: int)
    requires 0 < n <= d
    ensures 0.0 < n as real / d as real <= 1.0
  {}

  // ----- compare_strings -----

  /** The longest common prefix, as counted by `zip` and `take_while`. */
  method PrefixLength(a: bytes, b: bytes) returns (n: nat)
    ensures n <= |a| && n <= |b| && a[..n] == b[..n]
    ensures n < |a| && n < |b| ==> a[n] != b[n]
  {
    n := 0;
    while n < |a| && n < |b| && a[n] == b[n]
      invariant n <= |a| && n <= |b| && a[..n] == b[..n]
    {
      n := n + 1;
    }
  }

  method SuffixLength(a: bytes, b: bytes) returns (n: nat)
    ensures n <= |a| && n <= |b| && a[|a| - n..] == b[|b| - n..]
    ensures n < |a| && n < |b| ==> a[|a| - 1 - n] != b[|b| - 1 - n]
  {
    n := 0;
    while n < |a| && n < |b| && a[|a| - 1 - n] == b[|b| - 1 - n]
      invariant n <= |a| && n <= |b| && a[|a| - n..] == b[|b| - n..]
    {
      assert a[|a| - (n + 1)..] == [a[|a| - 1 - n]] + a[|a| - n..];
      assert b[|b| - (n + 1)..] == [b[|b| - 1 - n]] + b[|b| - n..];
      n := n + 1;
    }
  }

  /** Row `i` of the edit-distance table: the distances to every prefix of `second`. */
  ghost function Row(first: bytes, second: bytes, i: nat): (row: seq<nat>)
    requires i <= |first|
    ensures |row| == |second| + 1
  {
    seq(|second| + 1, j requires 0 <= j <= |second| => Distance(first[..i], second[..j]))
  }

  lemma RowStep(first: bytes, second: bytes, i: nat, j: nat)
    requires i < |first| && j < |second|
    ensures Row(first, second, i + 1)[j + 1] ==
            Min(Min(Row(first, second, i)[j + 1] + 1, Row(first, second, i + 1)[j] + 1),
                Row(first, second, i)[j] + if first[i] != second[j] then 1 else 0)
  {
    var a, b := first[..i + 1], second[..j + 1];
    assert a[..|a| - 1] == first[..i] && b[..|b| - 1] == second[..j];
  }

  lemma RowEdges(first: bytes, second: bytes, i: nat)
    requires i <= |first|
    ensures Row(first, second, i)[0] == i
    ensures i == 0 ==> forall j :: 0 <= j <= |second| ==> Row(first, second, 0)[j] == j
  {}

  /** The one-row table, updated in place: it ends as the last row of the full table. */
  method LastRow(first: bytes, second: bytes) returns (row: array<nat>)
    ensures row.Length == |second| + 1
    ensures row[..] == Row(first, second, |first|)
  {
    row := new nat[|second| + 1](j => j);
    RowEdges(first, second, 0);
    ghost var current := Row(first, second, 0);
    for i := 0 to |first|
      invariant current == Row(first, second, i)
      invariant forall k :: 0 <= k <= |second| ==> row[k] == current[k]
    {
      ghost var next := Row(first, second, i + 1);
      RowEdges(first, second, i + 1);
      var diagonal := row[0];
      row[0] := i + 1;
      for j := 0 to |second|
        invariant diagonal == current[j]
        invariant forall k :: 0 <= k <= j ==> row[k] == next[k]
        invariant forall k :: j < k <= |second| ==> row[k] == current[k]
      {
        var above := row[j + 1];
        RowStep(first, second, i, j);
        row[j + 1] := Min(Min(above + 1, row[j] + 1), diagonal + if first[i] != second[j] then 1 else 0);
        diagonal := above;
      }
      current := next;
    }
  }

  /** Dropping a common start keeps the distance. */
  lemma StripStart(a: bytes, b: bytes, n: nat)
    requires n <= |a| && n <= |b| && a[..n] == b[..n]
    ensures Distance(a[n..], b[n..]) == Distance(a, b)
  {
    hide Distance;
    CommonPrefix(a[..n], a[n..], b[n..]);
    assert a == a[..n] + a[n..] && b == a[..n] + b[n..];
  }

  /** And so does dropping a common end. */
  lemma StripEnd(a: bytes, b: bytes, n: nat)
    requires n <= |a| && n <= |b| && a[|a| - n..] == b[|b| - n..]
    ensures Distance(a[..|a| - n], b[..|b| - n]) == Distance(a, b)
  {
    hide Distance;
    CommonSuffix(a[..|a| - n], b[..|b| - n], a[|a| - n..]);
    assert a == a[..|a| - n] + a[|a| - n..] && b == b[..|b| - n] + a[|a| - n..];
  }

  /** Stripping the common ends and swapping keep the distance. */
  method Strip(a: bytes, b: bytes) returns (first: bytes, second: bytes)
    ensures Distance(first, second) == Distance(a, b)
    ensures |second| <= |first| <= Max(|a|, |b|)
  {
    hide Distance;
    first, second := a, b;
    var prefix := PrefixLength(first, second);
    StripStart(first, second, prefix);
    first, second := first[prefix..], second[prefix..];
    var suffix := SuffixLength(first, second);
    StripEnd(first, second, suffix);
    first, second := first[..|first| - suffix], second[..|second| - suffix];
    if |first| < |second| {
      Symmetric(first, second);
      first, second := second, first;
    }
  }

  /**
    The optimised comparison computes the score of the full strings, whatever was stripped
    and whichever argument ended up across the row.
   */
  method CompareStrings(a: bytes, b: bytes) returns (score: real)
    ensures score == Score(a, b) && Measures(a, b, score)
  {
    hide Distance, Measures;
    ScoreMeasures(a, b);
    if a == b { return 1.0; }
    var maximum := Max(|a|, |b|);
    if a == [] || b == [] {
      DistanceEdge(a);
      DistanceEdge(b);
      return 0.0;
    }
    var first, second := Strip(a, b);
    var row := LastRow(first, second);
    assert row[|second|] == row[..][|second|] == Distance(first, second) by {
      assert second[..|second|] == second && first[..|first|] == first;
    }
    return 1.0 - row[|second|] as real / maximum as real;
  }
}
