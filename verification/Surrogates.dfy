/**
  Repairing unpaired surrogate escapes in JSON text (core/src/text.rs, `json_surrogates`), after
  RFC 8259, sections 7 and 8.2. The text is its UTF-8 bytes.
 */
module Surrogates {
  import opened Common

  const BACKSLASH: byte := 0x5C
  const QUOTE: byte := 0x22
  const LETTER_U: byte := 0x75
  const REPLACEMENT: bytes := [0x5C, 0x75, 0x66, 0x66, 0x66, 0x64]   // \ufffd

  function HexValue(b: byte): (v: Option<int>)
    ensures v.Some? ==> 0 <= v.value < 16
  {
    if 0x30 <= b <= 0x39 then Some(b as int - 0x30)
    else if 0x41 <= b <= 0x46 then Some(b as int - 0x37)
    else if 0x61 <= b <= 0x66 then Some(b as int - 0x57)
    else None
  }

  predicate IsHex(b: byte) { HexValue(b).Some? }

  /** The first `n` bytes are there and are hexadecimal digits. */
  predicate HexPrefix(s: bytes, n: nat) {
    n == 0 || (s != [] && IsHex(s[0]) && HexPrefix(s[1..], n - 1))
  }

  lemma {:induction false} HexPrefixLength(s: bytes, n: nat)
    requires HexPrefix(s, n)
    ensures n <= |s| && forall i :: 0 <= i < n ==> IsHex(s[i])
  {
    if n > 0 { HexPrefixLength(s[1..], n - 1); }
  }

  /** The UTF-16 unit written by four hexadecimal digits. */
  function Unit(s: bytes): (u: Option<int>)
    ensures u.Some? <==> HexPrefix(s, 4)
    ensures u.Some? ==> |s| >= 4 && 0 <= u.value < 0x1_0000
  {
    if HexPrefix(s, 4) then
      HexPrefixLength(s, 4);
      Some(HexValue(s[0]).value * 0x1000 + HexValue(s[1]).value * 0x100 + HexValue(s[2]).value * 0x10
           + HexValue(s[3]).value)
    else None
  }

  predicate High(code: int) { 0xD800 <= code <= 0xDBFF }

  predicate Low(code: int) { 0xDC00 <= code <= 0xDFFF }

  // ----- Tokens: the meaning of "unpaired" -----

  /** A `\uXXXX` escape inside a string, or anything else of one or two bytes. */
  datatype Token = Escape(text: bytes, code: int) | Raw(text: bytes)

  /** The escape at the head of a text, if its six bytes are one. */
  function EscapeAt(s: bytes): (u: Option<int>)
    ensures u.Some? ==> |s| >= 6 && s[0] == BACKSLASH && s[1] == LETTER_U && 0 <= u.value < 0x1_0000
  {
    if |s| >= 2 && s[0] == BACKSLASH && s[1] == LETTER_U then Unit(s[2..]) else None
  }

  function Lex(s: bytes, quoted: bool): seq<Token>
    decreases |s|
  {
    if s == [] then []
    else if quoted && s[0] == BACKSLASH then
      var code := EscapeAt(s);
      if code.Some? then [Escape(s[..6], code.value)] + Lex(s[6..], true)
      else if |s| == 1 then [Raw(s)]
      else [Raw(s[..2])] + Lex(s[2..], true)
    else [Raw([s[0]])] + Lex(s[1..], if s[0] == QUOTE then !quoted else quoted)
  }

  predicate IsHigh(t: Token) { t.Escape? && High(t.code) }

  predicate IsLow(t: Token) { t.Escape? && Low(t.code) }

  /** A high surrogate not followed by a low one, or a low one not preceded by a high one. */
  predicate Unpaired(ts: seq<Token>, i: nat)
    requires i < |ts|
  {
    || (IsHigh(ts[i]) && !(i + 1 < |ts| && IsLow(ts[i + 1])))
    || (IsLow(ts[i]) && !(i > 0 && IsHigh(ts[i - 1])))
  }

  const REPLACED := Escape(REPLACEMENT, 0xFFFD)

  /** Exactly the unpaired escapes replaced. */
  function Repaired(ts: seq<Token>): seq<Token> {
    seq(|ts|, i requires 0 <= i < |ts| => if Unpaired(ts, i) then REPLACED else ts[i])
  }

  function Text(ts: seq<Token>): bytes {
    if ts == [] then [] else ts[0].text + Text(ts[1..])
  }

  // ----- The simple rewrite -----

  function IsPairAt(s: bytes): bool {
    && EscapeAt(s).Some? && High(EscapeAt(s).value)
    && EscapeAt(s[6..]).Some? && Low(EscapeAt(s[6..]).value)
  }

  function Rewrite(s: bytes, quoted: bool): bytes
    decreases |s|
  {
    if s == [] then []
    else if quoted && s[0] == BACKSLASH then
      var code := EscapeAt(s);
      if code.Some? then
        if IsPairAt(s) then s[..12] + Rewrite(s[12..], true)
        else if High(code.value) || Low(code.value) then REPLACEMENT + Rewrite(s[6..], true)
        else s[..6] + Rewrite(s[6..], true)
      else if |s| == 1 then s
      else s[..2] + Rewrite(s[2..], true)
    else [s[0]] + Rewrite(s[1..], if s[0] == QUOTE then !quoted else quoted)
  }

  // ----- Lexing facts -----

  lemma {:induction false} LexText(s: bytes, quoted: bool)
    ensures Text(Lex(s, quoted)) == s
    decreases |s|
  {
    if s != [] {
      var ts := Lex(s, quoted);
      if quoted && s[0] == BACKSLASH {
        if EscapeAt(s).Some? { LexText(s[6..], true); assert ts[1..] == Lex(s[6..], true); }
        else if |s| > 1 { LexText(s[2..], true); assert ts[1..] == Lex(s[2..], true); }
        else { assert ts[1..] == []; }
      } else {
        var after := if s[0] == QUOTE then !quoted else quoted;
        LexText(s[1..], after);
        assert ts[1..] == Lex(s[1..], after);
      }
    }
  }

  /** Rewriting keeps the first byte, so it cannot create or destroy a run of digits. */
  lemma {:induction false} HexKept(s: bytes, n: nat)
    ensures HexPrefix(Rewrite(s, true), n) <==> HexPrefix(s, n)
  {
    if n > 0 && s != [] {
      if IsHex(s[0]) {
        HexKept(s[1..], n - 1);
        assert Rewrite(s, true)[1..] == Rewrite(s[1..], true);
      } else {
        assert Rewrite(s, true)[0] == s[0];
      }
    }
  }

  lemma LexHead(s: bytes, rest: bytes)
    requires |s| == 6 && EscapeAt(s).Some?
    ensures EscapeAt(s + rest) == EscapeAt(s)
    ensures Lex(s + rest, true) == [Escape(s, EscapeAt(s).value)] + Lex(rest, true)
  {
    EscapePrefix(s, rest);
    assert (s + rest)[..6] == s && (s + rest)[6..] == rest;
  }

  lemma EscapePrefix(s: bytes, rest: bytes)
    requires |s| == 6 && EscapeAt(s).Some?
    ensures EscapeAt(s + rest) == EscapeAt(s)
  {
    assert (s + rest)[2..] == s[2..] + rest;
    HexPrefixAppend(s[2..], rest, 4);
  }

  lemma {:induction false} HexPrefixAppend(s: bytes, rest: bytes, n: nat)
    requires n <= |s|
    ensures HexPrefix(s + rest, n) <==> HexPrefix(s, n)
  {
    if n > 0 {
      assert (s + rest)[1..] == s[1..] + rest;
      HexPrefixAppend(s[1..], rest, n - 1);
    }
  }

  lemma EscapeOfSix(s: bytes)
    requires EscapeAt(s).Some?
    ensures EscapeAt(s[..6]) == EscapeAt(s)
  {
    var head, rest := s[..6], s[6..];
    assert s == head + rest && s[2..] == head[2..] + rest;
    HexPrefixAppend(head[2..], rest, 4);
  }

  lemma ReplacementEscape()
    ensures EscapeAt(REPLACEMENT) == Some(0xFFFD)
  {
    var d := REPLACEMENT[2..];
    assert d == [0x66, 0x66, 0x66, 0x64];
    assert d[1..] == [0x66, 0x66, 0x64] && d[1..][1..] == [0x66, 0x64] && d[1..][1..][1..] == [0x64];
    assert d[1..][1..][1..][1..] == [];
    assert HexPrefix(d[1..][1..][1..][1..], 0);
    assert HexPrefix(d[1..][1..][1..], 1);
    assert HexPrefix(d[1..][1..], 2);
    assert HexPrefix(d[1..], 3);
    assert HexPrefix(d, 4);
  }

  // ----- The repair is local to adjacent tokens -----

  lemma RepairedSplit(a: seq<Token>, b: seq<Token>)
    requires a != [] && !(b != [] && IsHigh(a[|a| - 1]) && IsLow(b[0]))
    ensures Repaired(a + b) == Repaired(a) + Repaired(b)
  {
    var all := a + b;
    forall i | 0 <= i < |all| ensures Repaired(all)[i] == (Repaired(a) + Repaired(b))[i] {
      if i < |a| {
        assert Unpaired(all, i) == Unpaired(a, i);
      } else {
        assert Unpaired(all, i) == Unpaired(b, i - |a|);
      }
    }
  }

  lemma RawRepaired(t: Token, rest: seq<Token>)
    requires !IsHigh(t) && !IsLow(t)
    ensures Repaired([t] + rest) == [t] + Repaired(rest)
  {
    RepairedSplit([t], rest);
    assert Repaired([t]) == [t];
  }

  /** The token after an escape is a low surrogate iff the escape starts a pair. */
  lemma NextIsLow(s: bytes)
    requires EscapeAt(s).Some?
    ensures var next := Lex(s[6..], true);
            (next != [] && IsLow(next[0])) <==> EscapeAt(s[6..]).Some? && Low(EscapeAt(s[6..]).value)
  {}

  /**
    The rewrite replaces exactly the unpaired surrogate escapes inside strings and keeps every
    pair and every other token: lexing the result gives the repaired tokens of the text.
   */
  lemma {:induction false} RewriteRepairs(s: bytes, quoted: bool)
    ensures Lex(Rewrite(s, quoted), quoted) == Repaired(Lex(s, quoted))
    decreases |s|
  {
    hide Unit, HexPrefix;
    if s == [] {
    } else if quoted && s[0] == BACKSLASH {
      if EscapeAt(s).Some? { EscapeRepairs(s); }
      else if |s| == 1 { LoneBackslash(s); }
      else { TwoByteRepairs(s); }
    } else {
      var after := if s[0] == QUOTE then !quoted else quoted;
      RewriteRepairs(s[1..], after);
      var r := Rewrite(s, quoted);
      assert r == [s[0]] + Rewrite(s[1..], after) && r[1..] == Rewrite(s[1..], after);
      RawRepaired(Raw([s[0]]), Lex(s[1..], after));
    }
  }

  lemma LoneBackslash(s: bytes)
    requires s == [BACKSLASH]
    ensures Lex(Rewrite(s, true), true) == Repaired(Lex(s, true))
  {
    RawRepaired(Raw(s), []);
    assert [Raw(s)] + [] == [Raw(s)] && Repaired([]) == [];
    assert EscapeAt(s).None?;
  }

  lemma TwoByteRepairs(s: bytes)
    requires |s| >= 2 && s[0] == BACKSLASH && EscapeAt(s).None?
    ensures Lex(Rewrite(s, true), true) == Repaired(Lex(s, true))
    decreases |s|, 0
  {
    hide HexPrefix;
    RewriteRepairs(s[2..], true);
    var r, rest := Rewrite(s, true), Rewrite(s[2..], true);
    assert r == s[..2] + rest && r[2..] == rest && r[..2] == s[..2];
    HexKept(s[2..], 4);
    assert EscapeAt(r).None?;
    RawRepaired(Raw(s[..2]), Lex(s[2..], true));
  }

  lemma EscapeRepairs(s: bytes)
    requires EscapeAt(s).Some?
    ensures Lex(Rewrite(s, true), true) == Repaired(Lex(s, true))
    decreases |s|, 1
  {
    if IsPairAt(s) {
      PairRepairs(s);
    } else {
      RewriteRepairs(s[6..], true);
      hide Unit, HexPrefix;
      var code := EscapeAt(s).value;
      EscapeOfSix(s);
      var first, rest := Escape(s[..6], code), Lex(s[6..], true);
      assert Repaired([first] + rest) == [if High(code) || Low(code) then REPLACED else first] + Repaired(rest) by {
        NextIsLow(s);
        FirstRepaired(first, rest);
      }
      hide Repaired;
      ReplacementEscape();
      LexHead(if High(code) || Low(code) then REPLACEMENT else s[..6], Rewrite(s[6..], true));
    }
  }

  lemma FirstRepaired(first: Token, rest: seq<Token>)
    requires first.Escape? && !(High(first.code) && rest != [] && IsLow(rest[0]))
    ensures Repaired([first] + rest) ==
            [if High(first.code) || Low(first.code) then REPLACED else first] + Repaired(rest)
  {
    RepairedSplit([first], rest);
    assert Repaired([first]) == [if High(first.code) || Low(first.code) then REPLACED else first];
  }

  lemma PairTokens(s: bytes)
    requires IsPairAt(s)
    ensures var a, b := Escape(s[..6], EscapeAt(s).value), Escape(s[6..12], EscapeAt(s[6..]).value);
            Lex(s, true) == [a, b] + Lex(s[12..], true)
  {
    hide Unit, HexPrefix;
    assert s[6..][..6] == s[6..12] && s[6..][6..] == s[12..];
  }

  lemma PairRelexed(s: bytes, tail: bytes)
    requires IsPairAt(s)
    ensures var a, b := Escape(s[..6], EscapeAt(s).value), Escape(s[6..12], EscapeAt(s[6..]).value);
            Lex(s[..12] + tail, true) == [a, b] + Lex(tail, true)
  {
    hide Unit, HexPrefix, Lex;
    EscapeOfSix(s);
    EscapeOfSix(s[6..]);
    var s1, s2 := s[..6], s[6..12];
    assert s[6..][..6] == s2;
    LexHead(s2, tail);
    LexHead(s1, s2 + tail);
    assert s[..12] + tail == s1 + (s2 + tail);
  }

  lemma PairRepairs(s: bytes)
    requires IsPairAt(s)
    ensures Lex(Rewrite(s, true), true) == Repaired(Lex(s, true))
    decreases |s|, 0
  {
    hide Unit, HexPrefix, Lex, Repaired;
    RewriteRepairs(s[12..], true);
    PairTokens(s);
    PairRelexed(s, Rewrite(s[12..], true));
    PairKept(Escape(s[..6], EscapeAt(s).value), Escape(s[6..12], EscapeAt(s[6..]).value), Lex(s[12..], true));
  }

  lemma PairKept(a: Token, b: Token, rest: seq<Token>)
    requires IsHigh(a) && IsLow(b)
    ensures Repaired([a, b] + rest) == [a, b] + Repaired(rest)
  {
    RepairedSplit([a, b], rest);
    assert Repaired([a, b]) == [a, b];
  }

  // ----- Consequences -----

  predicate AllPaired(ts: seq<Token>) { forall i :: 0 <= i < |ts| ==> !Unpaired(ts, i) }

  lemma RepairedHasNoUnpaired(ts: seq<Token>)
    ensures AllPaired(Repaired(ts))
  {
    var r := Repaired(ts);
    forall i | 0 <= i < |ts| ensures !Unpaired(r, i) {
      if IsHigh(r[i]) { assert !Unpaired(ts, i) && !Unpaired(ts, i + 1); }
      if IsLow(r[i]) { assert !Unpaired(ts, i) && !Unpaired(ts, i - 1); }
    }
  }

  /** No unpaired surrogate escape is left inside a string. */
  lemma NothingUnpaired(s: bytes)
    ensures AllPaired(Lex(Rewrite(s, false), false))
  {
    hide AllPaired;
    RewriteRepairs(s, false);
    RepairedHasNoUnpaired(Lex(s, false));
  }

  lemma NothingToRepair(ts: seq<Token>)
    requires AllPaired(ts)
    ensures Repaired(ts) == ts
  {}

  /** A second pass changes nothing. */
  lemma RewriteIdempotent(s: bytes)
    ensures Rewrite(Rewrite(s, false), false) == Rewrite(s, false)
  {
    hide AllPaired, Rewrite, Lex;
    var once := Rewrite(s, false);
    NothingUnpaired(s);
    NothingToRepair(Lex(once, false));
    RewriteRepairs(once, false);
    LexText(once, false);
    LexText(Rewrite(once, false), false);
  }

  /** The length never changes. */
  lemma {:induction false} RewriteLength(s: bytes, quoted: bool)
    ensures |Rewrite(s, quoted)| == |s|
    decreases |s|
  {
    hide Unit, HexPrefix;
    if s != [] {
      if quoted && s[0] == BACKSLASH {
        if EscapeAt(s).Some? {
          if IsPairAt(s) { RewriteLength(s[12..], true); } else { RewriteLength(s[6..], true); }
        } else if |s| > 1 {
          RewriteLength(s[2..], true);
        }
      } else {
        RewriteLength(s[1..], if s[0] == QUOTE then !quoted else quoted);
      }
    }
  }

  // ----- The copied-offset loop -----

  function Rest(json: bytes, position: nat): bytes {
    if position < |json| then json[position..] else []
  }

  lemma RestRest(json: bytes, position: nat, n: nat)
    requires position + n <= |json|
    ensures Rest(json, position)[n..] == Rest(json, position + n)
  {}

  /** A replaced escape was not the replacement already. */
  lemma SurrogateDiffers(s: bytes)
    requires EscapeAt(s).Some? && (High(EscapeAt(s).value) || Low(EscapeAt(s).value))
    ensures s[..6] != REPLACEMENT
  {
    EscapeOfSix(s);
    ReplacementEscape();
  }

  /** How far the scan moves: past a pair, an escape, a backslash and its byte, or one byte. */
  function Stride(s: bytes, quoted: bool): nat
    requires s != []
  {
    if quoted && s[0] == BACKSLASH then
      if EscapeAt(s).Some? then if IsPairAt(s) then 12 else 6 else 2
    else 1
  }

  predicate Replaces(s: bytes, quoted: bool)
    requires s != []
  {
    && quoted && s[0] == BACKSLASH && EscapeAt(s).Some? && !IsPairAt(s)
    && (High(EscapeAt(s).value) || Low(EscapeAt(s).value))
  }

  function QuotedAfter(s: bytes, quoted: bool): bool
    requires s != []
  {
    if !(quoted && s[0] == BACKSLASH) && s[0] == QUOTE then !quoted else quoted
  }

  lemma RewriteStep(json: bytes, position: nat, quoted: bool)
    requires position < |json|
    ensures var s := Rest(json, position);
            var n := Stride(s, quoted);
            && (n <= |s| || (n == 2 && |s| == 1))
            && Rewrite(s, quoted) ==
               (if Replaces(s, quoted) then REPLACEMENT else s[..if n <= |s| then n else |s|])
               + Rewrite(Rest(json, position + n), QuotedAfter(s, quoted))
  {
    hide Unit, HexPrefix;
    var s := Rest(json, position);
    var n := Stride(s, quoted);
    if n <= |s| { RestRest(json, position, n); }
  }

  /** What is written so far: the output and the piece not copied yet. */
  ghost predicate Scanned(json: bytes, output: bytes, copied: nat, position: nat, quoted: bool) {
    && copied <= position && copied <= |json| && position <= |json| + 1
    && output + json[copied..if position <= |json| then position else |json|] + Rewrite(Rest(json, position), quoted)
       == Rewrite(json, false)
    && |output| == copied
    && (copied == 0 ==> output == [])
    && (copied > 0 ==> output != json[..copied])
  }

  /** What one round of the scan adds to the text, when it replaces nothing. */
  lemma KeptPiece(json: bytes, position: nat, quoted: bool)
    requires position < |json| && !Replaces(Rest(json, position), quoted)
    ensures var s := Rest(json, position);
            s != [] &&
            var next := position + Stride(s, quoted);
            && next <= |json| + 1
            && Rewrite(s, quoted) ==
               json[position..if next <= |json| then next else |json|]
               + Rewrite(Rest(json, next), QuotedAfter(s, quoted))
  {
    hide Rewrite, EscapeAt, IsPairAt, Stride, Replaces, QuotedAfter;
    RewriteStep(json, position, quoted);
    var s := Rest(json, position);
    var n := Stride(s, quoted);
    var end := if position + n <= |json| then position + n else |json|;
    assert s[..if n <= |s| then n else |s|] == json[position..end];
  }

  lemma ScannedKeep(json: bytes, output: bytes, copied: nat, position: nat, quoted: bool)
    requires position < |json| && Scanned(json, output, copied, position, quoted)
    requires !Replaces(Rest(json, position), quoted)
    ensures var s := Rest(json, position);
            Scanned(json, output, copied, position + Stride(s, quoted), QuotedAfter(s, quoted))
  {
    hide Rewrite, EscapeAt, IsPairAt, Stride, Replaces, QuotedAfter, Rest;
    KeptPiece(json, position, quoted);
    var s := Rest(json, position);
    var next := position + Stride(s, quoted);
    var end := if next <= |json| then next else |json|;
    Slide(json, output, copied, position, end, Rewrite(Rest(json, next), QuotedAfter(s, quoted)));
  }

  lemma Slide(json: bytes, output: bytes, copied: nat, position: nat, end: nat, tail: bytes)
    requires copied <= position <= end <= |json|
    ensures output + json[copied..end] + tail == output + json[copied..position] + (json[position..end] + tail)
  {
    assert json[copied..end] == json[copied..position] + json[position..end];
  }

  lemma ScannedReplace(json: bytes, output: bytes, copied: nat, position: nat, quoted: bool)
    requires position < |json| && Scanned(json, output, copied, position, quoted)
    requires Replaces(Rest(json, position), quoted)
    ensures position + 6 <= |json|
    ensures Scanned(json, output + json[copied..position] + REPLACEMENT, position + 6, position + 6, true)
  {
    RewriteStep(json, position, quoted);
    var s := Rest(json, position);
    SurrogateDiffers(s);
    assert position + 6 <= |json| && QuotedAfter(s, quoted);
    hide Rewrite, EscapeAt, IsPairAt, Replaces, QuotedAfter;
    var tail := Rewrite(Rest(json, position + 6), true);
    var grown := output + json[copied..position] + REPLACEMENT;
    assert grown + [] + tail == output + json[copied..position] + (REPLACEMENT + tail);
    assert grown[position..position + 6] == REPLACEMENT && json[..position + 6][position..position + 6] == s[..6];
  }

  /** What the nested tests at a backslash inside a string come to. */
  datatype Kind = Other | Kept | Pair | Lone

  method Classify(json: bytes, position: nat) returns (kind: Kind)
    requires position < |json| && json[position] == BACKSLASH
    ensures var s := Rest(json, position);
            && (kind.Other? <==> EscapeAt(s).None?)
            && (kind.Pair? <==> IsPairAt(s))
            && (kind.Lone? <==> Replaces(s, true))
  {
    hide Unit, HexPrefix;
    ghost var s := Rest(json, position);
    if !(position + 1 < |json| && json[position + 1] == LETTER_U) { return Other; }
    assert s[2..] == json[position + 2..];
    var code := Unit(json[position + 2..]);
    if code.None? { return Other; }
    if High(code.value) && position + 8 <= |json| && json[position + 6..position + 8] == [BACKSLASH, LETTER_U] {
      assert s[6..][2..] == json[position + 8..] && s[6..][..2] == json[position + 6..position + 8];
      var second := Unit(json[position + 8..]);
      if second.Some? && Low(second.value) { return Pair; }
    } else if IsPairAt(s) {
      PairBytes(json, position);
    }
    if High(code.value) || Low(code.value) { return Lone; }
    return Kept;
  }

  /** `json_surrogates`: borrows the text unless an escape had to be replaced. */
  method JsonSurrogates(json: bytes) returns (text: bytes, owned: bool)
    ensures text == Rewrite(json, false)
    ensures owned <==> text != json
  {
    hide Scanned, Rewrite, EscapeAt, IsPairAt;
    var position, copied, quoted := 0, 0, false;
    var output: bytes := [];
    ScannedStart(json);
    while position < |json|
      invariant Scanned(json, output, copied, position, quoted)
      decreases |json| - position
    {
      if quoted && json[position] == BACKSLASH {
        var kind := Classify(json, position);
        if kind.Lone? {
          ScannedReplace(json, output, copied, position, quoted);
          ScannedBounds(json, output, copied, position, quoted);
          output := output + json[copied..position];
          output := output + REPLACEMENT;
          copied := position + 6;
        } else {
          ScannedKeep(json, output, copied, position, quoted);
        }
        position := position + match kind case Pair => 12 case Other => 2 case _ => 6;
        continue;
      }
      ScannedKeep(json, output, copied, position, quoted);
      if json[position] == QUOTE { quoted := !quoted; }
      position := position + 1;
    }
    ScannedEnd(json, output, copied, position, quoted);
    if copied == 0 { return json, false; }
    return output + json[copied..], true;
  }

  lemma ScannedBounds(json: bytes, output: bytes, copied: nat, position: nat, quoted: bool)
    requires position < |json| && Scanned(json, output, copied, position, quoted)
    ensures copied <= position
  {}

  lemma ScannedEnd(json: bytes, output: bytes, copied: nat, position: nat, quoted: bool)
    requires position >= |json| && Scanned(json, output, copied, position, quoted)
    ensures copied <= |json| && Rewrite(json, false) == output + json[copied..]
    ensures if copied == 0 then output + json[copied..] == json else output + json[copied..] != json
  {
    hide Rewrite;
    RewriteNothing(quoted);
    assert Rest(json, position) == [];
    var whole := output + json[copied..];
    assert whole + [] == whole;
    assert json[copied..|json|] == json[copied..];
    if copied == 0 { assert json[0..] == json && [] + json == json; }
    if copied > 0 { ScannedDiffers(json, output, copied); }
  }

  lemma RewriteNothing(quoted: bool)
    ensures Rewrite([], quoted) == []
  {}

  lemma ScannedDiffers(json: bytes, output: bytes, copied: nat)
    requires copied <= |json| && |output| == copied && output != json[..copied]
    ensures output + json[copied..] != json
  {
    assert (output + json[copied..])[..copied] == output;
  }

  lemma ScannedStart(json: bytes)
    ensures Scanned(json, [], 0, 0, false)
  {
    assert Rest(json, 0) == json && json[0..0] == [];
  }

  lemma PairBytes(json: bytes, position: nat)
    requires position < |json| && IsPairAt(Rest(json, position))
    ensures position + 8 <= |json| && json[position + 6..position + 8] == [BACKSLASH, LETTER_U]
    ensures Unit(json[position + 8..]).Some? && Low(Unit(json[position + 8..]).value)
  {
    var s := Rest(json, position);
    assert s[6..][2..] == json[position + 8..] && s[6..][..2] == json[position + 6..position + 8];
  }
}
