/**
  An independent writer of JSON text (RFC 8259, sections 7 and 8.1) for the surrogate repair of
  core/src/text.rs: which bytes are escapes inside strings, and which units are surrogates.
 */
module JsonText {
  import opened Common
  import opened Surrogates

  // ----- Surrogates -----

  /** The two units of a code point beyond 0xFFFF in UTF-16. */
  function Leading(point: int): int { 0xD800 + (point - 0x1_0000) / 0x400 }

  function Trailing(point: int): int { 0xDC00 + (point - 0x1_0000) % 0x400 }

  /** High and low surrogates are exactly the units that such a code point is split into. */
  lemma SurrogateRanges(code: int)
    ensures High(code) <==> exists point :: 0x1_0000 <= point <= 0x10_FFFF && code == Leading(point)
    ensures Low(code) <==> exists point :: 0x1_0000 <= point <= 0x10_FFFF && code == Trailing(point)
  {
    if High(code) { assert code == Leading(0x1_0000 + (code - 0xD800) * 0x400); }
    if Low(code) { assert code == Trailing(0x1_0000 + (code - 0xDC00)); }
  }

  // ----- Writing -----

  const DIGITS: bytes :=
    [0x30, 0x31, 0x32, 0x33, 0x34, 0x35, 0x36, 0x37, 0x38, 0x39, 0x61, 0x62, 0x63, 0x64, 0x65, 0x66]   // 0-9a-f
  const CAPITALS: bytes :=
    [0x30, 0x31, 0x32, 0x33, 0x34, 0x35, 0x36, 0x37, 0x38, 0x39, 0x41, 0x42, 0x43, 0x44, 0x45, 0x46]   // 0-9A-F

  /** A hexadecimal digit in either case. */
  datatype Digit = Digit(value: nat, capital: bool)
  {
    predicate Valid() { value < 16 }

    function Byte(): byte
      requires Valid()
    {
      if capital then CAPITALS[value] else DIGITS[value]
    }
  }

  /** A byte, a two-byte escape or a `\u` escape of a string. */
  datatype Char = Plain(b: byte) | Short(b: byte) | Coded(d3: Digit, d2: Digit, d1: Digit, d0: Digit)
  {
    predicate Valid() {
      match this
      case Plain(b) => b != 0x22 && b != 0x5C
      case Short(b) => b != 0x75
      case Coded(d3, d2, d1, d0) => d3.Valid() && d2.Valid() && d1.Valid() && d0.Valid()
    }

    function Bytes(): bytes
      requires Valid()
    {
      match this
      case Plain(b) => [b]
      case Short(b) => [0x5C, b]
      case Coded(d3, d2, d1, d0) => [0x5C, 0x75, d3.Byte(), d2.Byte(), d1.Byte(), d0.Byte()]
    }

    /** A `\u` escape is an escape with its number; everything else is left as it is. */
    function Token(): Token
      requires Valid()
    {
      match this
      case Plain(b) => Raw([b])
      case Short(b) => Raw([0x5C, b])
      case Coded(d3, d2, d1, d0) =>
        Escape(Bytes(), d3.value * 0x1000 + d2.value * 0x100 + d1.value * 0x10 + d0.value)
    }
  }

  predicate CharsValid(chars: seq<Char>) { forall i :: 0 <= i < |chars| ==> chars[i].Valid() }

  predicate PiecesValid(pieces: seq<Piece>) { forall i :: 0 <= i < |pieces| ==> pieces[i].Valid() }

  /** What JSON text consists of: strings, and bytes outside of them. */
  datatype Piece = Outside(b: byte) | Quoted(chars: seq<Char>)
  {
    predicate Valid() { if Outside? then b != 0x22 else CharsValid(chars) }
  }

  function CharsBytes(chars: seq<Char>): bytes
    requires CharsValid(chars)
  {
    if chars == [] then [] else chars[0].Bytes() + CharsBytes(chars[1..])
  }

  function CharsTokens(chars: seq<Char>): seq<Token>
    requires CharsValid(chars)
  {
    if chars == [] then [] else [chars[0].Token()] + CharsTokens(chars[1..])
  }

  function Write(pieces: seq<Piece>): bytes
    requires PiecesValid(pieces)
  {
    if pieces == [] then []
    else
      (match pieces[0] case Outside(b) => [b] case Quoted(chars) => [0x22] + CharsBytes(chars) + [0x22])
      + Write(pieces[1..])
  }

  function Tokens(pieces: seq<Piece>): seq<Token>
    requires PiecesValid(pieces)
  {
    if pieces == [] then []
    else
      (match pieces[0] case Outside(b) => [Raw([b])]
                       case Quoted(chars) => [Raw([0x22])] + CharsTokens(chars) + [Raw([0x22])])
      + Tokens(pieces[1..])
  }

  // ----- Reading back -----

  lemma DigitBack(d: Digit)
    requires d.Valid()
    ensures HexValue(d.Byte()) == Some(d.value)
  {}

  lemma CodedBack(c: Char, rest: bytes)
    requires c.Coded? && c.Valid()
    ensures EscapeAt(c.Bytes() + rest) == Some(c.Token().code)
  {
    var s := c.Bytes() + rest;
    var t := s[2..];
    DigitBack(c.d3);
    DigitBack(c.d2);
    DigitBack(c.d1);
    DigitBack(c.d0);
    hide HexValue, Digit.Byte;
    assert t[0] == c.d3.Byte() && t[1] == c.d2.Byte() && t[2] == c.d1.Byte() && t[3] == c.d0.Byte();
    assert t[1..][0] == t[1] && t[1..][1..][0] == t[2] && t[1..][1..][1..][0] == t[3];
    assert HexPrefix(t[1..][1..][1..], 1) && HexPrefix(t[1..][1..], 2) && HexPrefix(t[1..], 3) && HexPrefix(t, 4);
  }

  lemma CharBack(c: Char, rest: bytes)
    requires c.Valid()
    ensures Lex(c.Bytes() + rest, true) == [c.Token()] + Lex(rest, true)
  {
    match c {
      case Plain(b) => assert ([b] + rest)[1..] == rest;
      case Short(b) => ShortBack(b, rest);
      case Coded(_, _, _, _) =>
        CodedBack(c, rest);
        EscapeLexed(c.Bytes(), rest);
    }
  }

  lemma ShortBack(b: byte, rest: bytes)
    requires b != 0x75
    ensures Lex([0x5C, b] + rest, true) == [Raw([0x5C, b])] + Lex(rest, true)
  {
    var s := [0x5C, b] + rest;
    assert s[2..] == rest && s[..2] == [0x5C, b];
  }

  lemma EscapeLexed(text: bytes, rest: bytes)
    requires |text| == 6 && text[0] == 0x5C && EscapeAt(text + rest).Some?
    ensures Lex(text + rest, true) == [Escape(text, EscapeAt(text + rest).value)] + Lex(rest, true)
  {
    hide EscapeAt;
    assert (text + rest)[6..] == rest && (text + rest)[..6] == text;
  }

  lemma {:induction false} CharsBack(chars: seq<Char>, rest: bytes)
    requires CharsValid(chars)
    ensures Lex(CharsBytes(chars) + rest, true) == CharsTokens(chars) + Lex(rest, true)
  {
    hide Lex;
    if chars == [] {
      assert CharsBytes(chars) + rest == rest;
      assert CharsTokens(chars) + Lex(rest, true) == Lex(rest, true);
    } else {
      var tail := CharsBytes(chars[1..]) + rest;
      assert CharsBytes(chars) + rest == chars[0].Bytes() + tail;
      CharBack(chars[0], tail);
      CharsBack(chars[1..], rest);
      assert CharsTokens(chars) + Lex(rest, true) == [chars[0].Token()] + (CharsTokens(chars[1..]) + Lex(rest, true));
    }
  }

  lemma QuoteBack(quoted: bool, rest: bytes)
    ensures Lex([0x22] + rest, quoted) == [Raw([0x22])] + Lex(rest, !quoted)
  {
    assert ([0x22] + rest)[1..] == rest;
  }

  lemma OutsideBack(b: byte, rest: bytes)
    requires b != 0x22
    ensures Lex([b] + rest, false) == [Raw([b])] + Lex(rest, false)
  {
    assert ([b] + rest)[1..] == rest;
  }

  /** The tokens the repair goes by are the escapes, plain bytes and quotes that were written. */
  lemma {:induction false} WrittenTokens(pieces: seq<Piece>)
    requires PiecesValid(pieces)
    ensures Lex(Write(pieces), false) == Tokens(pieces)
  {
    hide Lex;
    if pieces == [] {
      LexNothing();
    } else {
      var rest := Write(pieces[1..]);
      WrittenTokens(pieces[1..]);
      match pieces[0] {
        case Outside(b) => OutsideBack(b, rest);
        case Quoted(chars) => QuotedBack(chars, rest);
      }
    }
  }

  lemma LexNothing()
    ensures Lex([], false) == []
  {}

  lemma QuotedBack(chars: seq<Char>, rest: bytes)
    requires CharsValid(chars)
    ensures Lex([0x22] + CharsBytes(chars) + [0x22] + rest, false) ==
            [Raw([0x22])] + CharsTokens(chars) + [Raw([0x22])] + Lex(rest, false)
  {
    hide Lex, CharsBytes, CharsTokens;
    var close := [0x22] + rest;
    assert [0x22] + CharsBytes(chars) + [0x22] + rest == [0x22] + (CharsBytes(chars) + close);
    QuoteBack(false, CharsBytes(chars) + close);
    CharsBack(chars, close);
    QuoteBack(true, rest);
    Assoc([Raw([0x22])], CharsTokens(chars), [Raw([0x22])] + Lex(rest, false));
    Assoc([Raw([0x22])] + CharsTokens(chars), [Raw([0x22])], Lex(rest, false));
  }

  /** So the repair of a written text replaces its unpaired surrogate escapes and keeps all else. */
  lemma WrittenRepaired(pieces: seq<Piece>)
    requires PiecesValid(pieces)
    ensures Rewrite(Write(pieces), false) == Text(Repaired(Tokens(pieces)))
  {
    hide Lex, Rewrite, Repaired;
    WrittenTokens(pieces);
    RewriteRepairs(Write(pieces), false);
    LexText(Rewrite(Write(pieces), false), false);
  }
}
