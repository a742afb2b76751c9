/**
  The audio fingerprint container (core/src/music_signature.rs): peaks packed with pass deltas
  and an escape, four bands in a tag/length/value list, a header with two size fields and a
  CRC; and the order in which the generator produces the peaks. Which bins are peaks, their
  magnitudes and their corrected bins are inputs here.
 */
module SignatureFormat {
  import opened Common

  type u16 = x: int | 0 <= x < 0x1_0000
  type u32 = x: int | 0 <= x < 0x1_0000_0000

  datatype Peak = Peak(pass: u32, magnitude: u16, correctedBin: u16)

  const BANDS := 4
  const MAGIC: u32 := 0xCAFE_2580
  const MAGIC_2: u32 := 0x9411_9C00
  const SAMPLE_RATE_ID: u32 := 0x1800_0000
  const FIXED_HEADER_VALUE: u32 := 0x7C_0000
  const CONTENTS_TAG: u32 := 0x4000_0000
  const BAND_TAG: u32 := 0x6003_0040
  const HEADER_LEN := 48
  const LEAD_IN := 3840

  datatype Signature = Signature(sampleCount: u32, bands: seq<seq<Peak>>)

  // ----- Little-endian fields -----

  function Byte(v: int): byte { (v % 256) as byte }

  /** Least significant byte first. */
  function Le16(v: u16): (r: bytes)
    ensures |r| == 2 && r[0] as int + 0x100 * r[1] as int == v
  { [Byte(v), Byte(v / 256)] }

  function Le32(v: u32): (r: bytes)
    ensures |r| == 4
    ensures r[0] as int + 0x100 * r[1] as int + 0x1_0000 * r[2] as int + 0x100_0000 * r[3] as int == v
  {
    FourBytes(v);
    [Byte(v), Byte(v / 0x100), Byte(v / 0x1_0000), Byte(v / 0x100_0000)]
  }

  lemma FourBytes(v: u32)
    ensures v / 0x100_0000 < 0x100
    ensures v % 256 + 0x100 * (v / 0x100 % 256) + 0x1_0000 * (v / 0x1_0000 % 256) + 0x100_0000 * (v / 0x100_0000) == v
  {
    var a, b, c := v / 0x100, v / 0x1_0000, v / 0x100_0000;
    assert b == a / 0x100 && c == b / 0x100 && c < 0x100;
    assert v == v % 256 + 256 * a && a == a % 256 + 256 * b && b == b % 256 + 256 * c;
  }

  function Read16(s: bytes): u16
    requires |s| >= 2
  {
    s[0] as int + 0x100 * s[1] as int
  }

  function Read32(s: bytes): u32
    requires |s| >= 4
  {
    s[0] as int + 0x100 * s[1] as int + 0x1_0000 * s[2] as int + 0x100_0000 * s[3] as int
  }

  lemma Read16Back(v: u16, rest: bytes)
    ensures Read16(Le16(v) + rest) == v && (Le16(v) + rest)[2..] == rest
  {}

  lemma Read32Back(v: u32, rest: bytes)
    ensures Read32(Le32(v) + rest) == v && (Le32(v) + rest)[4..] == rest
  {
    hide Byte;
    var s, t := Le32(v) + rest, Le32(v);
    assert s[0] == t[0] && s[1] == t[1] && s[2] == t[2] && s[3] == t[3];
  }

  // ----- One band: peaks with pass deltas -----

  /** Peaks in pass order, starting no earlier than `pass`. */
  predicate Ordered(peaks: seq<Peak>, pass: u32) {
    peaks == [] || (pass <= peaks[0].pass && Ordered(peaks[1..], peaks[0].pass))
  }

  function LastPass(peaks: seq<Peak>, pass: u32): u32 {
    if peaks == [] then pass else peaks[|peaks| - 1].pass
  }

  lemma {:induction false} OrderedNext(peaks: seq<Peak>, pass: u32, p: Peak)
    ensures Ordered(peaks + [p], pass) <==> Ordered(peaks, pass) && LastPass(peaks, pass) <= p.pass
  {
    var all := peaks + [p];
    if peaks == [] {
      assert all[1..] == [];
    } else {
      assert all[1..] == peaks[1..] + [p];
      OrderedNext(peaks[1..], peaks[0].pass, p);
    }
  }

  function Body(p: Peak): (r: bytes)
    ensures |r| == 4
  { Le16(p.magnitude) + Le16(p.correctedBin) }

  /** One peak after `pass`; a delta of 255 or more is escaped by the absolute pass. */
  function PeakBytes(p: Peak, pass: u32): bytes
    requires pass <= p.pass
  {
    if p.pass - pass >= 255 then [0xFF] + Le32(p.pass) + [0] + Body(p)
    else [Byte(p.pass - pass)] + Body(p)
  }

  /** Delta, magnitude, corrected bin; 255 passes or more go before it as an absolute pass. */
  lemma PeakLayout(p: Peak, pass: u32)
    requires pass <= p.pass
    ensures var s, delta := PeakBytes(p, pass), p.pass - pass;
            if delta < 255 then
              |s| == 5 && s[0] as int == delta && Fields(s[1..], p)
            else
              && |s| == 10 && s[0] == 0xFF && s[5] == 0 && Fields(s[6..], p)
              && s[1] as int + 0x100 * s[2] as int + 0x1_0000 * s[3] as int + 0x100_0000 * s[4] as int == p.pass
  {
    hide Le16, Le32;
    var body := Le16(p.magnitude) + Le16(p.correctedBin);
    var s := PeakBytes(p, pass);
    if p.pass - pass < 255 {
      assert s[1..] == body;
    } else {
      assert s[6..] == body && s[1..5] == Le32(p.pass);
      assert s[1] == s[1..5][0] && s[2] == s[1..5][1] && s[3] == s[1..5][2] && s[4] == s[1..5][3];
    }
  }

  predicate Fields(s: bytes, p: Peak) {
    && |s| == 4
    && s[0] as int + 0x100 * s[1] as int == p.magnitude
    && s[2] as int + 0x100 * s[3] as int == p.correctedBin
  }

  function PeaksBytes(peaks: seq<Peak>, pass: u32): bytes
    requires Ordered(peaks, pass)
  {
    if peaks == [] then [] else PeakBytes(peaks[0], pass) + PeaksBytes(peaks[1..], peaks[0].pass)
  }

  /** The reader: 0xFF sets the pass, any other byte advances it and starts a peak. */
  function DecodePeaks(s: bytes, pass: u32): Option<seq<Peak>>
    decreases |s|
  {
    if s == [] then Some([])
    else if |s| < 5 then None
    else if s[0] == 0xFF then DecodePeaks(s[5..], Read32(s[1..]))
    else if pass + s[0] as int >= 0x1_0000_0000 then None
    else
      var peak := Peak(pass + s[0] as int, Read16(s[1..]), Read16(s[3..]));
      match DecodePeaks(s[5..], peak.pass)
      case Some(rest) => Some([peak] + rest)
      case None => None
  }

  lemma DecodeOnePlain(delta: byte, p: Peak, pass: u32, rest: bytes)
    requires delta != 0xFF && p.pass == pass + delta as int
    ensures var s := [delta] + Body(p) + rest;
            && |s| >= 5 && s[0] == delta && s[5..] == rest
            && Read16(s[1..]) == p.magnitude && Read16(s[3..]) == p.correctedBin
  {
    var s := [delta] + Body(p) + rest;
    Read16Back(p.magnitude, Le16(p.correctedBin) + rest);
    Read16Back(p.correctedBin, rest);
    assert s[1..] == Le16(p.magnitude) + (Le16(p.correctedBin) + rest);
    assert s[3..] == Le16(p.correctedBin) + rest;
  }

  lemma DecodeEscape(p: Peak, rest: bytes)
    ensures var s := [0xFF] + Le32(p.pass) + rest;
            |s| >= 5 && s[0] == 0xFF && Read32(s[1..]) == p.pass && s[5..] == rest
  {
    var s := [0xFF] + Le32(p.pass) + rest;
    Read32Back(p.pass, rest);
    assert s[1..] == Le32(p.pass) + rest;
  }

  /** The reader takes one encoded peak, escaped or not, off the front. */
  lemma DecodeOne(p: Peak, pass: u32, rest: bytes)
    requires pass <= p.pass
    ensures DecodePeaks(PeakBytes(p, pass) + rest, pass) ==
            match DecodePeaks(rest, p.pass) case Some(ps) => Some([p] + ps) case None => None
  {
    hide Body, Read16, Read32, Le32, Le16;
    if p.pass - pass >= 255 {
      var tail := [0] + Body(p) + rest;
      DecodeEscape(p, tail);
      DecodeOnePlain(0, p, p.pass, rest);
      assert PeakBytes(p, pass) + rest == [0xFF] + Le32(p.pass) + tail;
      assert DecodePeaks([0xFF] + Le32(p.pass) + tail, pass) == DecodePeaks(tail, p.pass);
    } else {
      DecodeOnePlain(Byte(p.pass - pass), p, pass, rest);
    }
  }

  /** Every ordered band is read back exactly, escapes included. */
  lemma {:induction false} PeaksRoundTrip(peaks: seq<Peak>, pass: u32)
    requires Ordered(peaks, pass)
    ensures DecodePeaks(PeaksBytes(peaks, pass), pass) == Some(peaks)
  {
    hide PeakBytes, DecodePeaks;
    if peaks == [] {
      DecodeNone(pass);
    } else {
      var p, rest := peaks[0], PeaksBytes(peaks[1..], peaks[0].pass);
      PeaksRoundTrip(peaks[1..], p.pass);
      DecodeOne(p, pass, rest);
      assert PeaksBytes(peaks, pass) == PeakBytes(p, pass) + rest;
      assert peaks == [p] + peaks[1..];
    }
  }

  lemma DecodeNone(pass: u32)
    ensures DecodePeaks([], pass) == Some([])
  {
    hide Read32, Read16;
  }

  /** Five bytes a peak, and five more for an escape. */
  lemma {:induction false} PeaksSize(peaks: seq<Peak>, pass: u32)
    requires Ordered(peaks, pass)
    ensures 5 * |peaks| <= |PeaksBytes(peaks, pass)| <= 10 * |peaks|
  {
    if peaks != [] { PeaksSize(peaks[1..], peaks[0].pass); }
  }

  // ----- The list of bands -----

  function Padding(n: nat): bytes { seq((4 - n % 4) % 4, _ => 0) }

  /** A band without peaks has no entry. */
  function BandBytes(band: nat, peaks: seq<Peak>): bytes
    requires band < BANDS && Ordered(peaks, 0) && |PeaksBytes(peaks, 0)| < 0x1_0000_0000
  {
    if peaks == [] then []
    else
      var payload := PeaksBytes(peaks, 0);
      Le32(BAND_TAG + band) + Le32(|payload|) + payload + Padding(|payload|)
  }

  /** The passes of every band are in order and no band is too long for its size field. */
  predicate Encodable(bands: seq<seq<Peak>>) {
    && |bands| == BANDS
    && forall k :: 0 <= k < BANDS ==> Ordered(bands[k], 0) && |PeaksBytes(bands[k], 0)| < 0x1_0000_0000
  }

  /** The entries of the bands from `band` on. */
  function Contents(bands: seq<seq<Peak>>, band: nat): bytes
    requires Encodable(bands) && band <= BANDS
    decreases BANDS - band
  {
    if band == BANDS then [] else BandBytes(band, bands[band]) + Contents(bands, band + 1)
  }

  /** The reader of the list: an entry with another tag belongs to a later band. */
  function DecodeBands(s: bytes, band: nat): Option<seq<seq<Peak>>>
    requires band <= BANDS
    decreases BANDS - band
  {
    if band == BANDS then if s == [] then Some([]) else None
    else if |s| < 8 || Read32(s) != BAND_TAG + band then
      match DecodeBands(s, band + 1) case Some(rest) => Some([[]] + rest) case None => None
    else
      var n := Read32(s[4..]);
      var end := 8 + n + |Padding(n)|;
      if end > |s| || s[8 + n..end] != Padding(n) then None
      else
        match (DecodePeaks(s[8..8 + n], 0), DecodeBands(s[end..], band + 1))
        case (Some(peaks), Some(rest)) => Some([peaks] + rest)
        case _ => None
  }

  /** What follows a band never looks like an entry of it. */
  lemma {:induction false} LaterTags(bands: seq<seq<Peak>>, band: nat)
    requires Encodable(bands) && band <= BANDS
    ensures var s := Contents(bands, band);
            s == [] || (|s| >= 8 && Read32(s) >= BAND_TAG + band)
    decreases BANDS - band
  {
    if band < BANDS {
      LaterTags(bands, band + 1);
      var rest := Contents(bands, band + 1);
      if bands[band] == [] {
        assert BandBytes(band, bands[band]) + rest == rest;
      } else {
        EntryParts(band, PeaksBytes(bands[band], 0), rest);
      }
    }
  }

  lemma EntryParts(band: nat, payload: bytes, rest: bytes)
    requires band < BANDS && |payload| < 0x1_0000_0000
    ensures var s := Le32(BAND_TAG + band) + Le32(|payload|) + payload + Padding(|payload|) + rest;
            var n := |payload|;
            var end := 8 + n + |Padding(n)|;
            && |s| >= end && Read32(s) == BAND_TAG + band && Read32(s[4..]) == n
            && s[8..8 + n] == payload && s[8 + n..end] == Padding(n) && s[end..] == rest
  {
    var n, tail := |payload|, payload + Padding(|payload|) + rest;
    var s := Le32(BAND_TAG + band) + Le32(n) + payload + Padding(n) + rest;
    Read32Back(n, tail);
    Read32Back(BAND_TAG + band, Le32(n) + tail);
    assert s == Le32(BAND_TAG + band) + (Le32(n) + tail);
    assert s[4..] == Le32(n) + tail;
    assert s[8..] == tail;
  }

  /** The reader takes the entry of a band off the front, or notices that there is none. */
  lemma DecodeBand(band: nat, peaks: seq<Peak>, rest: bytes)
    requires band < BANDS && Ordered(peaks, 0) && |PeaksBytes(peaks, 0)| < 0x1_0000_0000
    requires rest == [] || (|rest| >= 8 && Read32(rest) > BAND_TAG + band)
    ensures DecodeBands(BandBytes(band, peaks) + rest, band) ==
            match DecodeBands(rest, band + 1) case Some(bs) => Some([peaks] + bs) case None => None
  {
    hide Read32, Le32, Padding, PeaksBytes, DecodePeaks, Ordered;
    if peaks == [] {
      assert BandBytes(band, peaks) + rest == rest;
    } else {
      EntryParts(band, PeaksBytes(peaks, 0), rest);
      PeaksRoundTrip(peaks, 0);
    }
  }

  lemma {:induction false} ContentsRoundTrip(bands: seq<seq<Peak>>, band: nat)
    requires Encodable(bands) && band <= BANDS
    ensures DecodeBands(Contents(bands, band), band) == Some(bands[band..])
    decreases BANDS - band
  {
    hide BandBytes, Read32, DecodeBands, Ordered, PeaksBytes;
    if band == BANDS {
      NoBandLeft(bands);
    } else {
      ContentsRoundTrip(bands, band + 1);
      LaterTags(bands, band + 1);
      var rest := Contents(bands, band + 1);
      DecodeBand(band, bands[band], rest);
      assert Contents(bands, band) == BandBytes(band, bands[band]) + rest;
      assert bands[band..] == [bands[band]] + bands[band + 1..];
    }
  }

  lemma NoBandLeft(bands: seq<seq<Peak>>)
    requires Encodable(bands)
    ensures Contents(bands, BANDS) == [] && DecodeBands([], BANDS) == Some([])
  {
    hide Encodable;
  }

  // ----- The container -----

  /** The zlib CRC32, reflected, polynomial 0xEDB88320. */
  function Crc32(data: bytes): u32 { (CrcRun(data, 0xFFFF_FFFF) ^ 0xFFFF_FFFF) as int }

  function Widen(b: byte): bv32 { b as bv32 }

  function CrcRun(data: bytes, crc: bv32): bv32
    decreases |data|
  {
    if data == [] then crc else CrcRun(data[1..], CrcBits(crc ^ Widen(data[0]), 8))
  }

  function CrcBits(crc: bv32, n: nat): bv32
    decreases n
  {
    if n == 0 then crc
    else CrcBits((crc >> 1) ^ (if crc & 1 == 1 then 0xEDB8_8320 else 0), n - 1)
  }

  /** The check value of the zlib CRC: that of the digits 1 to 9. */
  lemma CrcCheckValue()
    ensures Crc32([0x31, 0x32, 0x33, 0x34, 0x35, 0x36, 0x37, 0x38, 0x39]) == 0xCBF4_3926
  {
    hide CrcRun, CrcBits, Widen;
    DigitsBits();
    DigitsWidened();
    CrcStep(0x31, [0x32, 0x33, 0x34, 0x35, 0x36, 0x37, 0x38, 0x39], 0xFFFF_FFFF, 0xFFFF_FFCE, 0x7C23_1048);
    assert [0x31, 0x32, 0x33, 0x34, 0x35, 0x36, 0x37, 0x38, 0x39]
        == [0x31] + [0x32, 0x33, 0x34, 0x35, 0x36, 0x37, 0x38, 0x39];
    CrcStep(0x32, [0x33, 0x34, 0x35, 0x36, 0x37, 0x38, 0x39], 0x7C23_1048, 0x7C23_107A, 0xB0AC_BB32);
    assert [0x32, 0x33, 0x34, 0x35, 0x36, 0x37, 0x38, 0x39] == [0x32] + [0x33, 0x34, 0x35, 0x36, 0x37, 0x38, 0x39];
    CrcStep(0x33, [0x34, 0x35, 0x36, 0x37, 0x38, 0x39], 0xB0AC_BB32, 0xB0AC_BB01, 0x77B7_9C2D);
    assert [0x33, 0x34, 0x35, 0x36, 0x37, 0x38, 0x39] == [0x33] + [0x34, 0x35, 0x36, 0x37, 0x38, 0x39];
    CrcStep(0x34, [0x35, 0x36, 0x37, 0x38, 0x39], 0x77B7_9C2D, 0x77B7_9C19, 0x641C_1F5C);
    assert [0x34, 0x35, 0x36, 0x37, 0x38, 0x39] == [0x34] + [0x35, 0x36, 0x37, 0x38, 0x39];
    CrcStep(0x35, [0x36, 0x37, 0x38, 0x39], 0x641C_1F5C, 0x641C_1F69, 0x340A_C5E3);
    assert [0x35, 0x36, 0x37, 0x38, 0x39] == [0x35] + [0x36, 0x37, 0x38, 0x39];
    CrcStep(0x36, [0x37, 0x38, 0x39], 0x340A_C5E3, 0x340A_C5D5, 0xF68D_2C9E);
    assert [0x36, 0x37, 0x38, 0x39] == [0x36] + [0x37, 0x38, 0x39];
    CrcStep(0x37, [0x38, 0x39], 0xF68D_2C9E, 0xF68D_2CA9, 0xAFFC_9660);
    assert [0x37, 0x38, 0x39] == [0x37] + [0x38, 0x39];
    CrcStep(0x38, [0x39], 0xAFFC_9660, 0xAFFC_9658, 0x651F_2550);
    assert [0x38, 0x39] == [0x38] + [0x39];
    CrcStep(0x39, [], 0x651F_2550, 0x651F_2569, 0x340B_C6D9);
    assert [0x39] + [] == [0x39 as byte];
    CrcEnd(0x340B_C6D9);
    assert (0x340B_C6D9 as bv32 ^ 0xFFFF_FFFF) as int == 0xCBF4_3926;
  }

  lemma DigitsWidened()
    ensures Widen(0x31) == 0x31
    ensures Widen(0x32) == 0x32
    ensures Widen(0x33) == 0x33
    ensures Widen(0x34) == 0x34
    ensures Widen(0x35) == 0x35
    ensures Widen(0x36) == 0x36
    ensures Widen(0x37) == 0x37
    ensures Widen(0x38) == 0x38
    ensures Widen(0x39) == 0x39
  {}

  lemma DigitsBits()
    ensures CrcBits(0xFFFF_FFCE, 8) == 0x7C23_1048
    ensures CrcBits(0x7C23_107A, 8) == 0xB0AC_BB32
    ensures CrcBits(0xB0AC_BB01, 8) == 0x77B7_9C2D
    ensures CrcBits(0x77B7_9C19, 8) == 0x641C_1F5C
    ensures CrcBits(0x641C_1F69, 8) == 0x340A_C5E3
    ensures CrcBits(0x340A_C5D5, 8) == 0xF68D_2C9E
    ensures CrcBits(0xF68D_2CA9, 8) == 0xAFFC_9660
    ensures CrcBits(0xAFFC_9658, 8) == 0x651F_2550
    ensures CrcBits(0x651F_2569, 8) == 0x340B_C6D9
  {}

  lemma CrcStep(first: byte, rest: bytes, crc: bv32, mixed: bv32, next: bv32)
    requires mixed == crc ^ Widen(first) && next == CrcBits(mixed, 8)
    ensures CrcRun([first] + rest, crc) == CrcRun(rest, next)
  {
    hide CrcRun, CrcBits, Widen;
    var data := [first] + rest;
    assert data[0] == first && data[1..] == rest;
    CrcFirst(data, crc);
  }

  lemma CrcFirst(data: bytes, crc: bv32)
    requires data != []
    ensures CrcRun(data, crc) == CrcRun(data[1..], CrcBits(crc ^ Widen(data[0]), 8))
  {
    hide CrcBits, Widen;
  }

  lemma CrcEnd(crc: bv32)
    ensures CrcRun([], crc) == crc
  {}

  /** Everything fits its 32-bit field. */
  predicate Fits(s: Signature) {
    && Encodable(s.bands)
    && |Contents(s.bands, 0)| + 8 < 0x1_0000_0000
    && s.sampleCount + LEAD_IN < 0x1_0000_0000
  }

  function Zeros(n: nat): bytes { seq(n, _ => 0) }

  /** The container after its magic number and CRC; both size fields count the contents entry. */
  function Tail(sampleCount: u32, contents: bytes): bytes
    requires |contents| + 8 < 0x1_0000_0000 && sampleCount + LEAD_IN < 0x1_0000_0000
  {
    Le32(|contents| + 8) + Le32(MAGIC_2) + Zeros(12) + Le32(SAMPLE_RATE_ID) + Zeros(8)
    + Le32(sampleCount + LEAD_IN) + Le32(FIXED_HEADER_VALUE) + Le32(CONTENTS_TAG)
    + Le32(|contents| + 8) + contents
  }

  /** The fields of the tail, bracketed for a reader. */
  lemma TailFields(x1: bytes, x2: bytes, x3: bytes, x4: bytes, x5: bytes,
                   x6: bytes, x7: bytes, x8: bytes, x9: bytes, x10: bytes)
    ensures x1 + x2 + x3 + x4 + x5 + x6 + x7 + x8 + x9 + x10 ==
            x1 + (x2 + (x3 + (x4 + (x5 + (x6 + (x7 + (x8 + (x9 + x10))))))))
  {
    var r9 := x9 + x10;
    var r8 := x8 + r9;
    var r7 := x7 + r8;
    var r6 := x6 + r7;
    var r5 := x5 + r6;
    var r4 := x4 + r5;
    var l2 := x1 + x2;
    var l3 := l2 + x3;
    var l4 := l3 + x4;
    var l5 := l4 + x5;
    var l6 := l5 + x6;
    var l7 := l6 + x7;
    Assoc(l7 + x8, x9, x10);
    Assoc(l7, x8, r9);
    Assoc(l6, x7, r8);
    Assoc(l5, x6, r7);
    Assoc(l4, x5, r6);
    Assoc(l3, x4, r5);
    Assoc(l2, x3, r4);
    Assoc(x1, x2, x3 + r4);
  }

  function Encoded(s: Signature): bytes
    requires Fits(s)
  {
    var tail := Tail(s.sampleCount, Contents(s.bands, 0));
    Le32(MAGIC) + (Le32(Crc32(tail)) + tail)
  }

  /** A field in front of the rest. */
  lemma Front(out: bytes, at: nat, field: bytes, rest: bytes)
    requires at <= |out| && out[at..] == field + rest
    ensures at + |field| <= |out| && out[at..at + |field|] == field && out[at + |field|..] == rest
  {
    assert out[at..at + |field|] == out[at..][..|field|];
    assert out[at + |field|..] == out[at..][|field|..];
  }

  predicate IsLe32(s: bytes, v: int) {
    |s| == 4 && s[0] as int + 0x100 * s[1] as int + 0x1_0000 * s[2] as int + 0x100_0000 * s[3] as int == v
  }

  /** The container byte by byte; what is not mentioned is zero. */
  lemma Layout(s: Signature)
    requires Fits(s)
    ensures var out := Encoded(s);
            && |out| == 56 + |Contents(s.bands, 0)|
            && out[0..4] == [0x80, 0x25, 0xFE, 0xCA]
            && IsLe32(out[4..8], Crc32(out[8..]))
            && IsLe32(out[8..12], |out| - 48)
            && out[12..16] == [0x00, 0x9C, 0x11, 0x94]
            && out[16..28] == [0, 0, 0, 0, 0, 0, 0, 0, 0, 0, 0, 0]
            && out[28..32] == [0x00, 0x00, 0x00, 0x18]
            && out[32..40] == [0, 0, 0, 0, 0, 0, 0, 0]
            && IsLe32(out[40..44], s.sampleCount + 3840)
            && out[44..48] == [0x00, 0x00, 0x7C, 0x00]
            && out[48..52] == [0x00, 0x00, 0x00, 0x40]
            && IsLe32(out[52..56], |out| - 48)
            && out[56..] == Contents(s.bands, 0)
  {
    hide Crc32, Contents, Encodable, Le32;
    var contents := Contents(s.bands, 0);
    var size, count := |contents| + 8, s.sampleCount + LEAD_IN;
    var r9 := Le32(size) + contents;
    var r8 := Le32(CONTENTS_TAG) + r9;
    var r7 := Le32(FIXED_HEADER_VALUE) + r8;
    var r6 := Le32(count) + r7;
    var r5 := Zeros(8) + r6;
    var r4 := Le32(SAMPLE_RATE_ID) + r5;
    var r3 := Zeros(12) + r4;
    var r2 := Le32(MAGIC_2) + r3;
    var tail := Le32(size) + r2;
    var out := Encoded(s);
    TailFields(Le32(size), Le32(MAGIC_2), Zeros(12), Le32(SAMPLE_RATE_ID), Zeros(8), Le32(count),
               Le32(FIXED_HEADER_VALUE), Le32(CONTENTS_TAG), Le32(size), contents);
    assert out[0..] == Le32(MAGIC) + (Le32(Crc32(tail)) + tail);
    Constants();
    Front(out, 0, Le32(MAGIC), Le32(Crc32(tail)) + tail);
    Front(out, 4, Le32(Crc32(tail)), tail);
    Front(out, 8, Le32(size), r2);
    Front(out, 12, Le32(MAGIC_2), r3);
    Front(out, 16, Zeros(12), r4);
    Front(out, 28, Le32(SAMPLE_RATE_ID), r5);
    Front(out, 32, Zeros(8), r6);
    Front(out, 40, Le32(count), r7);
    Front(out, 44, Le32(FIXED_HEADER_VALUE), r8);
    Front(out, 48, Le32(CONTENTS_TAG), r9);
    Front(out, 52, Le32(size), contents);
  }

  lemma Constants()
    ensures Le32(MAGIC) == [0x80, 0x25, 0xFE, 0xCA] && Le32(MAGIC_2) == [0x00, 0x9C, 0x11, 0x94]
    ensures Le32(SAMPLE_RATE_ID) == [0x00, 0x00, 0x00, 0x18] && Le32(FIXED_HEADER_VALUE) == [0x00, 0x00, 0x7C, 0x00]
    ensures Le32(CONTENTS_TAG) == [0x00, 0x00, 0x00, 0x40]
    ensures Zeros(8) == [0, 0, 0, 0, 0, 0, 0, 0]
    ensures Zeros(12) == [0, 0, 0, 0, 0, 0, 0, 0, 0, 0, 0, 0]
  {}

  /** The entry of a band: tag, payload length, payload, and zeros up to a multiple of four. */
  lemma EntryLayout(band: nat, peaks: seq<Peak>)
    requires band < BANDS && Ordered(peaks, 0) && |PeaksBytes(peaks, 0)| < 0x1_0000_0000
    ensures peaks == [] ==> BandBytes(band, peaks) == []
    ensures peaks != [] ==>
              var out, n := BandBytes(band, peaks), |PeaksBytes(peaks, 0)|;
              && 8 + n <= |out| < 8 + n + 4 && |out| % 4 == 0
              && IsLe32(out[0..4], 0x6003_0040 + band) && IsLe32(out[4..8], n)
              && out[8..8 + n] == PeaksBytes(peaks, 0)
              && forall i :: 8 + n <= i < |out| ==> out[i] == 0
  {
    hide Le32, PeaksBytes, Ordered, Padding;
    if peaks != [] {
      var payload := PeaksBytes(peaks, 0);
      var n, padding := |payload|, Padding(|payload|);
      var out := BandBytes(band, peaks);
      assert out[0..] == Le32(BAND_TAG + band) + (Le32(n) + (payload + padding));
      Front(out, 0, Le32(BAND_TAG + band), Le32(n) + (payload + padding));
      Front(out, 4, Le32(n), payload + padding);
      Front(out, 8, payload, padding);
      PaddingIs(n);
      Sum4(n, |padding|);
      assert out[8 + n..] == padding;
      forall i | 8 + n <= i < |out| ensures out[i] == 0 { assert out[i] == out[8 + n..][i - 8 - n]; }
    }
  }

  lemma PaddingIs(n: nat)
    ensures |Padding(n)| < 4 && (n + |Padding(n)|) % 4 == 0
    ensures forall i :: 0 <= i < |Padding(n)| ==> Padding(n)[i] == 0
  {}

  lemma Sum4(n: nat, k: nat)
    requires (n + k) % 4 == 0
    ensures (8 + n + k) % 4 == 0
  {}

  /** Reads one field that must have a given value. */
  function Expect(s: Option<bytes>, v: u32): Option<bytes> {
    if s.Some? && |s.value| >= 4 && Read32(s.value) == v then Some(s.value[4..]) else None
  }

  function ExpectZeros(s: Option<bytes>, n: nat): Option<bytes> {
    if s.Some? && |s.value| >= n && s.value[..n] == Zeros(n) then Some(s.value[n..]) else None
  }

  lemma ExpectBack(v: u32, rest: bytes)
    ensures Expect(Some(Le32(v) + rest), v) == Some(rest)
  {
    Read32Back(v, rest);
  }

  lemma ExpectZerosBack(n: nat, rest: bytes)
    ensures ExpectZeros(Some(Zeros(n) + rest), n) == Some(rest)
  {}

  /** The reader of the container: all constants, the CRC and both sizes are checked. */
  function DecodeContainer(s: bytes): Option<Signature> {
    if |s| < HEADER_LEN + 8 || Read32(s[4..]) != Crc32(s[8..]) then None
    else
      var size := |s| - HEADER_LEN;
      if size >= 0x1_0000_0000 then None
      else
        var tail := if Read32(s) == MAGIC then Some(s[8..]) else None;
        var counted := ExpectZeros(Expect(ExpectZeros(Expect(Expect(tail, size), MAGIC_2), 12), SAMPLE_RATE_ID), 8);
        if counted.None? || |counted.value| < 4 then None
        else
          var samples := Read32(counted.value) - LEAD_IN;
          var contents :=
            Expect(Expect(Expect(Some(counted.value[4..]), FIXED_HEADER_VALUE), CONTENTS_TAG), size);
          if samples < 0 || contents.None? then None
          else
            match DecodeBands(contents.value, 0)
            case Some(bands) => Some(Signature(samples, bands))
            case None => None
  }

  /**
    Container round trip: whatever fits its fields is read back exactly, all four bands,
    absent ones included, with both size fields and the CRC right.
   */
  lemma RoundTrip(s: Signature)
    requires Fits(s)
    ensures DecodeContainer(Encoded(s)) == Some(s)
  {
    hide Crc32, Read32, Le32, Contents, DecodeBands, Encodable;
    var contents := Contents(s.bands, 0);
    var size, count := |contents| + 8, s.sampleCount + LEAD_IN;
    var s9 := Le32(size) + contents;
    var s8 := Le32(CONTENTS_TAG) + s9;
    var s7 := Le32(FIXED_HEADER_VALUE) + s8;
    var s6 := Le32(count) + s7;
    var s5 := Zeros(8) + s6;
    var s4 := Le32(SAMPLE_RATE_ID) + s5;
    var s3 := Zeros(12) + s4;
    var s2 := Le32(MAGIC_2) + s3;
    var tail := Le32(size) + s2;
    var out := Encoded(s);
    TailFields(Le32(size), Le32(MAGIC_2), Zeros(12), Le32(SAMPLE_RATE_ID), Zeros(8), Le32(count),
               Le32(FIXED_HEADER_VALUE), Le32(CONTENTS_TAG), Le32(size), contents);
    assert tail == Tail(s.sampleCount, contents);
    Read32Back(Crc32(tail), tail);
    Read32Back(MAGIC, Le32(Crc32(tail)) + tail);
    ExpectBack(size, s2);
    ExpectBack(MAGIC_2, s3);
    ExpectZerosBack(12, s4);
    ExpectBack(SAMPLE_RATE_ID, s5);
    ExpectZerosBack(8, s6);
    Read32Back(count, s7);
    ExpectBack(FIXED_HEADER_VALUE, s8);
    ExpectBack(CONTENTS_TAG, s9);
    ExpectBack(size, contents);
    assert out[8..] == tail && out[4..] == Le32(Crc32(tail)) + tail;
    ContentsRoundTrip(s.bands, 0);
    assert s.bands[0..] == s.bands;
  }
}
