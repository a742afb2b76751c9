/**
  The encoder and the peak bookkeeping of core/src/music_signature.rs as they run: buffers that
  grow, a running pass, and a generator that numbers its passes by the frames it has seen.
 */
module SignatureEncoder {
  import opened Common
  import opened SignatureFormat

  // ----- Encoding -----

  lemma {:induction false} PeaksBytesNext(peaks: seq<Peak>, pass: u32, p: Peak)
    requires Ordered(peaks, pass) && LastPass(peaks, pass) <= p.pass
    ensures Ordered(peaks + [p], pass)
    ensures PeaksBytes(peaks + [p], pass) == PeaksBytes(peaks, pass) + PeakBytes(p, LastPass(peaks, pass))
  {
    hide PeakBytes;
    OrderedNext(peaks, pass, p);
    var all := peaks + [p];
    if peaks == [] {
      assert all[1..] == [];
    } else {
      assert all[1..] == peaks[1..] + [p] && all[0] == peaks[0];
      PeaksBytesNext(peaks[1..], peaks[0].pass, p);
      var head := PeakBytes(peaks[0], pass);
      Assoc(head, PeaksBytes(peaks[1..], peaks[0].pass), PeakBytes(p, LastPass(peaks, pass)));
    }
  }

  /** `encode_peaks`: the pass of the last peak written is the base of the next delta. */
  method EncodePeaks(peaks: seq<Peak>) returns (out: bytes)
    requires Ordered(peaks, 0)
    ensures out == PeaksBytes(peaks, 0)
  {
    hide PeaksBytes, PeakBytes;
    out := [];
    var pass: u32 := 0;
    EmptyBand();
    for i := 0 to |peaks|
      invariant Ordered(peaks[..i], 0)
      invariant out == PeaksBytes(peaks[..i], 0)
      invariant pass == LastPass(peaks[..i], 0)
    {
      assert peaks[..i + 1] == peaks[..i] + [peaks[i]];
      OrderedPrefix(peaks, i + 1);
      OrderedNext(peaks[..i], 0, peaks[i]);
      PeaksBytesNext(peaks[..i], 0, peaks[i]);
      out, pass := PushPeak(out, pass, peaks[i]);
    }
    assert peaks[..|peaks|] == peaks;
  }

  /** One round of the loop over the peaks. */
  method PushPeak(before: bytes, base: u32, peak: Peak) returns (out: bytes, pass: u32)
    requires base <= peak.pass
    ensures out == before + PeakBytes(peak, base)
    ensures pass == peak.pass
  {
    hide Le16, Le32;
    out, pass := before, base;
    if peak.pass - pass >= 255 {
      out := out + [0xFF];
      out := out + Le32(peak.pass);
      pass := peak.pass;
    }
    out := out + [Byte(peak.pass - pass)];
    out := out + Le16(peak.magnitude);
    out := out + Le16(peak.correctedBin);
    pass := peak.pass;
  }

  lemma {:induction false} OrderedPrefix(peaks: seq<Peak>, n: nat)
    requires Ordered(peaks, 0) && n <= |peaks|
    ensures Ordered(peaks[..n], 0)
    decreases |peaks| - n
  {
    if n == |peaks| {
      assert peaks[..n] == peaks;
    } else {
      OrderedPrefix(peaks, n + 1);
      assert peaks[..n + 1] == peaks[..n] + [peaks[n]];
      OrderedNext(peaks[..n], 0, peaks[n]);
    }
  }

  lemma EmptyBand()
    ensures Ordered([], 0) && PeaksBytes([], 0) == []
  {}

  /** The padding after a payload also completes the list itself to whole words. */
  lemma PaddingByLength(before: nat, payload: nat)
    requires before % 4 == 0
    ensures Padding(before + 8 + payload) == Padding(payload)
    ensures (before + 8 + payload + |Padding(payload)|) % 4 == 0
  {}

  ghost function ContentsUpTo(bands: seq<seq<Peak>>, n: nat): bytes
    requires Encodable(bands) && n <= BANDS
  {
    if n == 0 then [] else ContentsUpTo(bands, n - 1) + BandBytes(n - 1, bands[n - 1])
  }

  lemma {:induction false} ContentsSplit(bands: seq<seq<Peak>>, n: nat)
    requires Encodable(bands) && n <= BANDS
    ensures Contents(bands, 0) == ContentsUpTo(bands, n) + Contents(bands, n)
  {
    if n > 0 {
      ContentsSplit(bands, n - 1);
      ContentsStep(bands, n - 1);
      hide BandBytes, Encodable, Contents;
      Assoc(ContentsUpTo(bands, n - 1), BandBytes(n - 1, bands[n - 1]), Contents(bands, n));
    }
  }

  lemma ContentsStep(bands: seq<seq<Peak>>, band: nat)
    requires Encodable(bands) && band < BANDS
    ensures Contents(bands, band) == BandBytes(band, bands[band]) + Contents(bands, band + 1)
  {}

  /** `Signature::encode`. */
  method Encode(s: Signature) returns (out: bytes)
    requires Fits(s)
    ensures out == Encoded(s)
  {
    hide Contents, Le32, Crc32, Encodable;
    var contents := EncodeContents(s.bands);
    out := EncodeTail(s.sampleCount, contents);
    assert out[8..] == Tail(s.sampleCount, contents);
    out := out[..4] + Le32(Crc32(out[8..])) + out[8..];
  }

  /** The header with a zero in place of the CRC, and the contents. */
  method EncodeTail(sampleCount: u32, contents: bytes) returns (out: bytes)
    requires |contents| + 8 < 0x1_0000_0000 && sampleCount + LEAD_IN < 0x1_0000_0000
    ensures out == Le32(MAGIC) + Le32(0) + Tail(sampleCount, contents)
  {
    hide Le32, Zeros;
    var size := |contents| + 8;
    out := Le32(MAGIC);
    out := out + Le32(0);
    ghost var start, tail := out, Le32(size);
    out := out + Le32(size);
    Assoc(start, tail, Le32(MAGIC_2));
    out, tail := out + Le32(MAGIC_2), tail + Le32(MAGIC_2);
    Assoc(start, tail, Zeros(12));
    out, tail := out + Zeros(12), tail + Zeros(12);
    Assoc(start, tail, Le32(SAMPLE_RATE_ID));
    out, tail := out + Le32(SAMPLE_RATE_ID), tail + Le32(SAMPLE_RATE_ID);
    Assoc(start, tail, Zeros(8));
    out, tail := out + Zeros(8), tail + Zeros(8);
    Assoc(start, tail, Le32(sampleCount + LEAD_IN));
    out, tail := out + Le32(sampleCount + LEAD_IN), tail + Le32(sampleCount + LEAD_IN);
    Assoc(start, tail, Le32(FIXED_HEADER_VALUE));
    out, tail := out + Le32(FIXED_HEADER_VALUE), tail + Le32(FIXED_HEADER_VALUE);
    Assoc(start, tail, Le32(CONTENTS_TAG));
    out, tail := out + Le32(CONTENTS_TAG), tail + Le32(CONTENTS_TAG);
    Assoc(start, tail, Le32(size));
    out, tail := out + Le32(size), tail + Le32(size);
    Assoc(start, tail, contents);
    out, tail := out + contents, tail + contents;
  }

  method EncodeContents(bands: seq<seq<Peak>>) returns (contents: bytes)
    requires Encodable(bands)
    ensures contents == Contents(bands, 0)
  {
    contents := [];
    for band := 0 to BANDS
      invariant |contents| % 4 == 0
      invariant contents == ContentsUpTo(bands, band)
    {
      var peaks := bands[band];
      if peaks == [] { continue; }
      contents := PushBand(contents, band, peaks);
    }
    ContentsSplit(bands, BANDS);
  }

  method PushBand(before: bytes, band: nat, peaks: seq<Peak>) returns (contents: bytes)
    requires |before| % 4 == 0 && band < BANDS && peaks != []
    requires Ordered(peaks, 0) && |PeaksBytes(peaks, 0)| < 0x1_0000_0000
    ensures contents == before + BandBytes(band, peaks)
    ensures |contents| % 4 == 0
  {
    var payload := EncodePeaks(peaks);
    hide Le32, PeaksBytes, Padding;
    PaddingByLength(|before|, |payload|);
    contents := before + Le32(BAND_TAG + band);
    ghost var entry := Le32(BAND_TAG + band);
    Assoc(before, entry, Le32(|payload|));
    contents, entry := contents + Le32(|payload|), entry + Le32(|payload|);
    Assoc(before, entry, payload);
    contents, entry := contents + payload, entry + payload;
    assert |contents| == |before| + 8 + |payload|;
    Assoc(before, entry, Padding(|contents|));
    contents, entry := contents + Padding(|contents|), entry + Padding(|contents|);
  }

  // ----- The generator -----

  const HOP := 128
  const PEAK_DELAY := 46
  const MAX_HOPS := 1500     // twelve seconds of 16 kHz samples
  const MAX_FOUND := 1005    // bins 10 to 1014

  /** A bin that passed the peak tests, with the band its frequency fell into. */
  datatype Found = Found(band: int, magnitude: u16, correctedBin: u16)

  class Generator {
    var frames: nat
    var sampleCount: nat
    var bands: seq<seq<Peak>>

    /** Passes are frame numbers, so each band is in order and stays short. */
    ghost predicate Valid()
      reads this
    {
      && |bands| == BANDS && frames <= MAX_HOPS && sampleCount == HOP * frames
      && forall k :: 0 <= k < BANDS ==> Banded(bands[k], frames)
    }

    constructor ()
      ensures Valid() && frames == 0 && bands == [[], [], [], []]
    {
      frames, sampleCount, bands := 0, 0, [[], [], [], []];
    }

    /** `push_hop`: one more frame; once enough frames have spread over an old one, its peaks. */
    method PushHop(found: seq<Found>)
      requires Valid() && frames < MAX_HOPS && |found| <= MAX_FOUND
      requires forall f :: f in found ==> 0 <= f.band < BANDS
      modifies this
      ensures Valid() && frames == old(frames) + 1
      ensures frames < PEAK_DELAY ==> bands == old(bands)
      ensures frames >= PEAK_DELAY ==> forall k :: 0 <= k < BANDS ==>
                bands[k] == old(bands[k]) + PeaksFound(found, k, frames - PEAK_DELAY)
    {
      sampleCount := sampleCount + HOP;
      frames := frames + 1;
      if frames >= PEAK_DELAY { FindPeaks(found); }
    }

    /** `find_peaks`: every peak of the frame gets the same pass. */
    method FindPeaks(found: seq<Found>)
      requires |bands| == BANDS && PEAK_DELAY <= frames <= MAX_HOPS && |found| <= MAX_FOUND
      requires forall f :: f in found ==> 0 <= f.band < BANDS
      requires forall k :: 0 <= k < BANDS ==> Banded(bands[k], frames - 1)
      modifies this`bands
      ensures |bands| == BANDS
      ensures forall k :: 0 <= k < BANDS ==> Banded(bands[k], frames)
      ensures forall k :: 0 <= k < BANDS ==> bands[k] == old(bands[k]) + PeaksFound(found, k, frames - PEAK_DELAY)
    {
      hide Banded, PeaksFound;
      var pass := frames - PEAK_DELAY;
      ghost var before := bands;
      forall k | 0 <= k < BANDS ensures before[k] == before[k] + PeaksFound(found[..0], k, pass) {
        NothingFound(k, pass);
      }
      for i := 0 to |found|
        invariant |bands| == BANDS
        invariant forall k :: 0 <= k < BANDS ==> bands[k] == before[k] + PeaksFound(found[..i], k, pass)
      {
        var f := found[i];
        ghost var now := bands;
        bands := bands[f.band := bands[f.band] + [Peak(pass, f.magnitude, f.correctedBin)]];
        forall k | 0 <= k < BANDS ensures bands[k] == before[k] + PeaksFound(found[..i + 1], k, pass) {
          FoundNext(found, i, k, pass);
          assert now[k] == before[k] + PeaksFound(found[..i], k, pass);
        }
      }
      assert found[..|found|] == found;
      forall k | 0 <= k < BANDS ensures Banded(bands[k], frames) {
        BandedNext(before[k], found, k, frames);
      }
    }
  }

  lemma NothingFound(band: int, pass: u32)
    ensures PeaksFound([], band, pass) == []
  {}

  lemma FoundNext(found: seq<Found>, i: nat, band: int, pass: u32)
    requires i < |found|
    ensures PeaksFound(found[..i + 1], band, pass) ==
            PeaksFound(found[..i], band, pass)
            + if found[i].band == band then [Peak(pass, found[i].magnitude, found[i].correctedBin)] else []
  {
    assert found[..i + 1][..i] == found[..i];
  }

  /** The peaks of one pass that belong to a band, in bin order. */
  function PeaksFound(found: seq<Found>, band: int, pass: u32): seq<Peak> {
    if found == [] then []
    else
      var last := found[|found| - 1];
      PeaksFound(found[..|found| - 1], band, pass)
      + if last.band == band then [Peak(pass, last.magnitude, last.correctedBin)] else []
  }

  /** A band after so many frames: ordered passes of old frames, few enough peaks. */
  ghost predicate Banded(peaks: seq<Peak>, frames: nat) {
    && |peaks| <= MAX_FOUND * frames
    && Ordered(peaks, 0)
    && forall i :: 0 <= i < |peaks| ==> peaks[i].pass + PEAK_DELAY <= frames
  }

  lemma {:induction false} PeaksFoundPass(found: seq<Found>, band: int, pass: u32)
    ensures |PeaksFound(found, band, pass)| <= |found|
    ensures forall p :: p in PeaksFound(found, band, pass) ==> p.pass == pass
  {
    if found != [] { PeaksFoundPass(found[..|found| - 1], band, pass); }
  }

  lemma BandedNext(peaks: seq<Peak>, found: seq<Found>, band: int, frames: nat)
    requires PEAK_DELAY <= frames <= MAX_HOPS && |found| <= MAX_FOUND && Banded(peaks, frames - 1)
    ensures Banded(peaks + PeaksFound(found, band, frames - PEAK_DELAY), frames)
  {
    var newest := PeaksFound(found, band, frames - PEAK_DELAY);
    PeaksFoundPass(found, band, frames - PEAK_DELAY);
    LastPassBound(peaks, frames);
    OrderedAppend(peaks, newest, frames - PEAK_DELAY);
    forall i | 0 <= i < |peaks + newest| ensures (peaks + newest)[i].pass + PEAK_DELAY <= frames {
      if i >= |peaks| { assert newest[i - |peaks|] in newest; }
    }
  }

  lemma LastPassBound(peaks: seq<Peak>, frames: nat)
    requires PEAK_DELAY <= frames && Banded(peaks, frames - 1)
    ensures LastPass(peaks, 0) <= frames - PEAK_DELAY
  {}

  lemma {:induction false} OrderedAppend(peaks: seq<Peak>, newest: seq<Peak>, pass: u32)
    requires Ordered(peaks, 0) && LastPass(peaks, 0) <= pass
    requires forall p :: p in newest ==> p.pass == pass
    ensures Ordered(peaks + newest, 0)
    ensures LastPass(peaks + newest, 0) <= pass
  {
    if newest == [] {
      assert peaks + newest == peaks;
    } else {
      var front, last := newest[..|newest| - 1], newest[|newest| - 1];
      OrderedAppend(peaks, front, pass);
      OrderedNext(peaks + front, 0, last);
      assert peaks + newest == peaks + front + [last];
    }
  }

  /** Whatever peaks a run of the generator finds, its signature can be encoded and read back. */
  method Fingerprint(hops: seq<seq<Found>>) returns (s: Signature, out: bytes)
    requires |hops| <= MAX_HOPS
    requires forall h :: h in hops ==> |h| <= MAX_FOUND && forall f :: f in h ==> 0 <= f.band < BANDS
    ensures s.sampleCount == HOP * |hops| && Fits(s)
    ensures out == Encoded(s) && DecodeContainer(out) == Some(s)
    ensures forall k :: 0 <= k < BANDS ==> s.bands[k] == BandOf(hops, k)
  {
    hide Banded, Encoded, DecodeContainer, Fits, PeaksFound;
    var g := new Generator();
    assert hops[..0] == [];
    for i := 0 to |hops|
      invariant g.Valid() && g.frames == i && fresh(g)
      invariant forall k :: 0 <= k < BANDS ==> g.bands[k] == BandOf(hops[..i], k)
    {
      assert hops[..i + 1][..i] == hops[..i];
      g.PushHop(hops[i]);
    }
    assert hops[..|hops|] == hops;
    s := Signature(g.sampleCount, g.bands);
    BandedFits(s, |hops|);
    out := Encode(s);
    RoundTrip(s);
  }

  /** All peaks of a band over a run: frame by frame, numbered from the first frame whose peaks are sought. */
  function BandOf(hops: seq<seq<Found>>, band: int): seq<Peak>
    requires |hops| <= MAX_HOPS
  {
    if hops == [] then []
    else
      BandOf(hops[..|hops| - 1], band)
      + if |hops| < PEAK_DELAY then [] else PeaksFound(hops[|hops| - 1], band, |hops| - PEAK_DELAY)
  }

  /** All indices of peaks that belong to a band, in increasing order. */
  ghost predicate ListsBand(found: seq<Found>, band: int, at: seq<nat>) {
    && (forall j, k :: 0 <= j < k < |at| ==> at[j] < at[k])
    && (forall k :: 0 <= k < |at| ==> at[k] < |found|)
    && (forall i :: 0 <= i < |found| ==> (found[i].band == band <==> i in at))
  }

  lemma ListedWithout(found: seq<Found>, band: int, at: seq<nat>)
    requires ListsBand(found, band, at) && found != [] && found[|found| - 1].band == band
    ensures at != [] && at[|at| - 1] == |found| - 1 && ListsBand(found[..|found| - 1], band, at[..|at| - 1])
  {
    var front, rest := found[..|found| - 1], at[..|at| - 1];
    var k :| 0 <= k < |at| && at[k] == |found| - 1;
    assert at[k] <= at[|at| - 1];
    forall i | 0 <= i < |front| && i in at ensures i in rest {
      var j :| 0 <= j < |at| && at[j] == i;
      assert rest[j] == i;
    }
  }

  /** The peaks of a pass are the found ones of that band, each once and in order. */
  lemma {:induction false} EachPeakOnce(found: seq<Found>, band: int, pass: u32, at: seq<nat>)
    requires ListsBand(found, band, at)
    ensures |PeaksFound(found, band, pass)| == |at|
    ensures forall k :: 0 <= k < |at| ==>
              PeaksFound(found, band, pass)[k] == Peak(pass, found[at[k]].magnitude, found[at[k]].correctedBin)
  {
    assert at == [] || at[0] < |found|;
    if found != [] {
      var front, last := found[..|found| - 1], |found| - 1;
      if found[last].band == band {
        ListedWithout(found, band, at);
        hide ListsBand;
        EachPeakOnce(front, band, pass, at[..|at| - 1]);
      } else {
        EachPeakOnce(front, band, pass, at);
      }
    }
  }

  predicate Before(a: (nat, nat), b: (nat, nat)) { a.0 < b.0 || (a.0 == b.0 && a.1 < b.1) }

  /** All peaks of a band over a run whose frames are old enough: hop and index, in order. */
  ghost predicate ListsRun(hops: seq<seq<Found>>, band: int, at: seq<(nat, nat)>) {
    Ascending(at) && Inside(hops, at) && Complete(hops, band, at)
  }

  ghost predicate Ascending(at: seq<(nat, nat)>) { forall j, k :: 0 <= j < k < |at| ==> Before(at[j], at[k]) }

  ghost predicate Inside(hops: seq<seq<Found>>, at: seq<(nat, nat)>) {
    forall k :: 0 <= k < |at| ==> at[k].0 < |hops| && at[k].1 < |hops[at[k].0]| && at[k].0 >= 45
  }

  ghost predicate Complete(hops: seq<seq<Found>>, band: int, at: seq<(nat, nat)>) {
    forall h, i :: 45 <= h < |hops| && 0 <= i < |hops[h]| ==> (hops[h][i].band == band <==> (h, i) in at)
  }

  lemma WithoutEmpty(hops: seq<seq<Found>>, band: int, at: seq<(nat, nat)>)
    requires ListsRun(hops, band, at) && hops != [] && hops[|hops| - 1] == []
    ensures ListsRun(hops[..|hops| - 1], band, at)
  {}

  function WithoutLast(hops: seq<seq<Found>>): (r: seq<seq<Found>>)
    requires hops != [] && hops[|hops| - 1] != []
    ensures |r| == |hops| && r[..|r| - 1] == hops[..|hops| - 1]
    ensures r[|r| - 1] == hops[|hops| - 1][..|hops[|hops| - 1]| - 1]
  {
    var last := hops[|hops| - 1];
    hops[|hops| - 1 := last[..|last| - 1]]
  }

  /** The last peak of the last hop is listed last, or not at all. */
  lemma WithoutLastLists(hops: seq<seq<Found>>, band: int, at: seq<(nat, nat)>)
    requires ListsRun(hops, band, at) && hops != [] && hops[|hops| - 1] != []
    ensures var h, i := |hops| - 1, |hops[|hops| - 1]| - 1;
            if h >= 45 && hops[h][i].band == band
            then at != [] && at[|at| - 1] == (h, i) && ListsRun(WithoutLast(hops), band, at[..|at| - 1])
            else ListsRun(WithoutLast(hops), band, at)
  {
    var h, i := |hops| - 1, |hops[|hops| - 1]| - 1;
    if h >= 45 && hops[h][i].band == band {
      ListedLast(hops, at, h, i);
      WithoutListed(hops, band, at);
    } else {
      WithoutUnlisted(hops, band, at);
    }
  }

  lemma ListedLast(hops: seq<seq<Found>>, at: seq<(nat, nat)>, h: nat, i: nat)
    requires Ascending(at) && Inside(hops, at) && (h, i) in at && h == |hops| - 1 && i == |hops[h]| - 1
    ensures at != [] && at[|at| - 1] == (h, i)
  {
    var k :| 0 <= k < |at| && at[k] == (h, i);
    assert at[k] == at[|at| - 1] || Before(at[k], at[|at| - 1]);
  }

  lemma InRest(at: seq<(nat, nat)>, p: (nat, nat))
    requires Ascending(at) && at != []
    ensures p in at[..|at| - 1] <==> p in at && p != at[|at| - 1]
  {
    var rest := at[..|at| - 1];
    if p in rest {
      var k :| 0 <= k < |rest| && rest[k] == p;
      assert at[k] == p && Before(at[k], at[|at| - 1]);
    }
    if p in at && p != at[|at| - 1] {
      var k :| 0 <= k < |at| && at[k] == p;
      assert rest[k] == p;
    }
  }

  lemma WithoutListed(hops: seq<seq<Found>>, band: int, at: seq<(nat, nat)>)
    requires ListsRun(hops, band, at) && hops != [] && hops[|hops| - 1] != [] && at != []
    requires at[|at| - 1] == (|hops| - 1, |hops[|hops| - 1]| - 1)
    ensures ListsRun(WithoutLast(hops), band, at[..|at| - 1])
  {
    var rest, fewer := at[..|at| - 1], WithoutLast(hops);
    assert Inside(fewer, rest) by {
      forall k | 0 <= k < |rest| ensures rest[k].0 < |fewer| && rest[k].1 < |fewer[rest[k].0]| && rest[k].0 >= 45 {
        assert Before(at[k], at[|at| - 1]);
      }
    }
    assert Complete(fewer, band, rest) by {
      hide Ascending, Inside;
      forall h, i | 45 <= h < |fewer| && 0 <= i < |fewer[h]|
        ensures fewer[h][i].band == band <==> (h, i) in rest
      {
        InRest(at, (h, i));
        assert fewer[h][i] == hops[h][i];
      }
    }
  }

  lemma WithoutUnlisted(hops: seq<seq<Found>>, band: int, at: seq<(nat, nat)>)
    requires ListsRun(hops, band, at) && hops != [] && hops[|hops| - 1] != []
    requires (|hops| - 1, |hops[|hops| - 1]| - 1) !in at
    ensures ListsRun(WithoutLast(hops), band, at)
  {
    hide Ascending;
  }

  ghost predicate ArePeaks(peaks: seq<Peak>, hops: seq<seq<Found>>, at: seq<(nat, nat)>)
    requires Inside(hops, at) && |hops| <= MAX_HOPS
  {
    |peaks| == |at| && forall k :: 0 <= k < |at| ==>
      var f := hops[at[k].0][at[k].1]; peaks[k] == Peak(at[k].0 - 45, f.magnitude, f.correctedBin)
  }

  lemma OnePeakMore(peaks: seq<Peak>, hops: seq<seq<Found>>, at: seq<(nat, nat)>)
    requires |hops| <= MAX_HOPS && at != [] && Inside(hops, at) && Inside(hops, at[..|at| - 1])
    requires ArePeaks(peaks, hops, at[..|at| - 1])
    ensures var (h, i) := at[|at| - 1];
            ArePeaks(peaks + [Peak(h - 45, hops[h][i].magnitude, hops[h][i].correctedBin)], hops, at)
  {}

  lemma ArePeaksWithout(peaks: seq<Peak>, hops: seq<seq<Found>>, at: seq<(nat, nat)>)
    requires hops != [] && hops[|hops| - 1] != [] && |hops| <= MAX_HOPS
    requires Inside(WithoutLast(hops), at) && ArePeaks(peaks, WithoutLast(hops), at)
    ensures Inside(hops, at) && ArePeaks(peaks, hops, at)
  {}

  lemma BandOfNext(hops: seq<seq<Found>>, band: int)
    requires hops != [] && hops[|hops| - 1] != [] && |hops| <= MAX_HOPS
    ensures var h, i := |hops| - 1, |hops[|hops| - 1]| - 1;
            var f := hops[h][i];
            BandOf(hops, band) ==
            BandOf(WithoutLast(hops), band)
            + if h >= 45 && f.band == band then [Peak(h - 45, f.magnitude, f.correctedBin)] else []
  {
    var last, front, fewer := hops[|hops| - 1], hops[..|hops| - 1], WithoutLast(hops);
    assert fewer[..|fewer| - 1] == front && fewer[|fewer| - 1] == last[..|last| - 1];
    if |hops| >= PEAK_DELAY {
      var pass := |hops| - PEAK_DELAY;
      FoundNext(last, |last| - 1, band, pass);
      assert last[..|last|] == last;
      hide PeaksFound, WithoutLast;
      var f := last[|last| - 1];
      Assoc(BandOf(front, band), PeaksFound(last[..|last| - 1], band, pass),
            if f.band == band then [Peak(pass, f.magnitude, f.correctedBin)] else []);
    }
  }

  /**
    A band of the run: the peaks found from the 46th hop on, each once and in order, with the
    number of the hop less the 45 that went before them.
   */
  lemma {:induction false} RunPeaks(hops: seq<seq<Found>>, band: int, at: seq<(nat, nat)>)
    requires |hops| <= MAX_HOPS && ListsRun(hops, band, at)
    ensures ArePeaks(BandOf(hops, band), hops, at)
    decreases |hops|, if hops == [] then 0 else |hops[|hops| - 1]|
  {
    hide PeaksFound, WithoutLast, Ascending, Complete;
    assert at == [] || at[0].0 < |hops|;
    if hops == [] {
    } else if hops[|hops| - 1] == [] {
      WithoutEmpty(hops, band, at);
      RunPeaks(hops[..|hops| - 1], band, at);
      NothingFound(band, 0);
      if |hops| >= PEAK_DELAY { NothingFound(band, |hops| - PEAK_DELAY); }
    } else {
      hide BandOf, Inside, ArePeaks;
      WithoutLastLists(hops, band, at);
      BandOfNext(hops, band);
      var h, i := |hops| - 1, |hops[|hops| - 1]| - 1;
      if h >= 45 && hops[h][i].band == band {
        RunPeaks(WithoutLast(hops), band, at[..|at| - 1]);
        ArePeaksWithout(BandOf(WithoutLast(hops), band), hops, at[..|at| - 1]);
        OnePeakMore(BandOf(WithoutLast(hops), band), hops, at);
      } else {
        RunPeaks(WithoutLast(hops), band, at);
        ArePeaksWithout(BandOf(WithoutLast(hops), band), hops, at);
        assert BandOf(WithoutLast(hops), band) + [] == BandOf(WithoutLast(hops), band);
      }
    }
  }

  lemma BandSize(band: nat, peaks: seq<Peak>)
    requires band < BANDS && Banded(peaks, MAX_HOPS)
    ensures |PeaksBytes(peaks, 0)| < 0x1_0000_0000
    ensures |BandBytes(band, peaks)| <= 10 * MAX_FOUND * MAX_HOPS + 12
  {
    PeaksSize(peaks, 0);
  }

  lemma BandedEncodable(bands: seq<seq<Peak>>, frames: nat)
    requires |bands| == BANDS && frames <= MAX_HOPS
    requires forall k :: 0 <= k < BANDS ==> Banded(bands[k], frames)
    ensures Encodable(bands)
    ensures forall k :: 0 <= k < BANDS ==> |BandBytes(k, bands[k])| <= 10 * MAX_FOUND * MAX_HOPS + 12
  {
    hide BandBytes, PeaksBytes;
    forall k | 0 <= k < BANDS
      ensures Ordered(bands[k], 0) && |PeaksBytes(bands[k], 0)| < 0x1_0000_0000
      ensures |BandBytes(k, bands[k])| <= 10 * MAX_FOUND * MAX_HOPS + 12
    {
      BandSize(k, bands[k]);
    }
  }

  lemma BandedFits(s: Signature, frames: nat)
    requires |s.bands| == BANDS && frames <= MAX_HOPS && s.sampleCount == HOP * frames
    requires forall k :: 0 <= k < BANDS ==> Banded(s.bands[k], frames)
    ensures Fits(s)
  {
    hide BandBytes, PeaksBytes, Banded, Encodable, Contents;
    BandedEncodable(s.bands, frames);
    ContentsSplit(s.bands, 4);
    NoMoreContents(s.bands);
    ContentsSize(s.bands, 4, 10 * MAX_FOUND * MAX_HOPS + 12);
  }

  lemma NoMoreContents(bands: seq<seq<Peak>>)
    requires Encodable(bands)
    ensures Contents(bands, BANDS) == []
  {}

  lemma {:induction false} ContentsSize(bands: seq<seq<Peak>>, n: nat, most: nat)
    requires Encodable(bands) && n <= BANDS
    requires forall k :: 0 <= k < BANDS ==> |BandBytes(k, bands[k])| <= most
    ensures |ContentsUpTo(bands, n)| <= n * most
  {
    hide BandBytes, Encodable;
    if n > 0 {
      ContentsSize(bands, n - 1, most);
      assert n * most == (n - 1) * most + most;
    }
  }
}
