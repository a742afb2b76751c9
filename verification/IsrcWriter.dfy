/**
  An independent writer of FLAC metadata (RFC 9639, sections 8.1 and 8.6) for the ISRC scan of
  core/src/isrc.rs: what is found in a written file is what was put into it.
 */
module IsrcWriter {
  import opened Common
  import opened Isrc

  // ----- Writing -----

  /** A metadata block: its type and what it holds. */
  datatype Block = Block(kind: nat, content: bytes)
  {
    predicate Valid() { kind < 128 && |content| < 0x100_0000 }
  }

  const FLAC: bytes := [0x66, 0x4C, 0x61, 0x43]
  const VORBIS_COMMENT := 4

  /** Most significant byte first. */
  function Be24Bytes(n: nat): bytes
    requires n < 0x100_0000
  {
    [(n / 0x1_0000) as byte, (n / 0x100 % 0x100) as byte, (n % 0x100) as byte]
  }

  /** Least significant byte first. */
  function Le32Bytes(n: nat): bytes
    requires n < 0x1_0000_0000
  {
    [(n % 0x100) as byte, (n / 0x100 % 0x100) as byte, (n / 0x1_0000 % 0x100) as byte, (n / 0x100_0000) as byte]
  }

  function BlockBytes(b: Block, last: bool): bytes
    requires b.Valid()
  {
    [(b.kind + if last then 128 else 0) as byte] + Be24Bytes(|b.content|) + b.content
  }

  predicate AllOther(blocks: seq<Block>) { forall b :: b in blocks ==> b.Valid() && b.kind != VORBIS_COMMENT }

  function BlocksBytes(blocks: seq<Block>): bytes
    requires AllOther(blocks)
  {
    if blocks == [] then [] else BlockBytes(blocks[0], false) + BlocksBytes(blocks[1..])
  }

  predicate Short(s: bytes) { |s| < 0x1_0000_0000 }

  function Item(s: bytes): bytes
    requires Short(s)
  {
    Le32Bytes(|s|) + s
  }

  predicate AllShort(fields: seq<bytes>) { forall f :: f in fields ==> Short(f) }

  function FieldsBytes(fields: seq<bytes>): bytes
    requires AllShort(fields)
  {
    if fields == [] then [] else Item(fields[0]) + FieldsBytes(fields[1..])
  }

  function CommentBytes(vendor: bytes, fields: seq<bytes>): bytes
    requires Short(vendor) && AllShort(fields) && |fields| < 0x1_0000_0000
  {
    Item(vendor) + Le32Bytes(|fields|) + FieldsBytes(fields)
  }

  // ----- What an ISRC field is -----

  function Upper(b: byte): byte { if 0x61 <= b <= 0x7A then b - 0x20 else b }

  function UpperAll(s: bytes): bytes { seq(|s|, i requires 0 <= i < |s| => Upper(s[i])) }

  /** ISRC in upper or lower case, or with the long s, which UTF-8 writes as C5 BF. */
  predicate IsrcName(key: bytes) {
    UpperAll(key) == [0x49, 0x53, 0x52, 0x43] || UpperAll(key) == [0x49, 0xC5, 0xBF, 0x52, 0x43]
  }

  /** The name, an equals sign, and the value. */
  ghost predicate Names(field: bytes, value: bytes) {
    exists key :: IsrcName(key) && field == key + [0x3D] + value
  }

  ghost predicate NoIsrc(fields: seq<bytes>) { forall j, value :: 0 <= j < |fields| ==> !Names(fields[j], value) }

  lemma UpperAt(s: bytes, i: nat)
    requires i < |s|
    ensures |UpperAll(s)| == |s| && UpperAll(s)[i] == Upper(s[i])
  {}

  lemma NameIsKey(key: bytes)
    ensures IsrcName(key) <==> IsrcKey(key)
    ensures IsrcName(key) ==> 0x3D !in key
  {
    var upper := UpperAll(key);
    assert |upper| == |key|;
    forall i | 0 <= i < |key| ensures upper[i] == Upper(key[i]) { UpperAt(key, i); }
    if |key| == 4 {
      assert upper == [upper[0], upper[1], upper[2], upper[3]];
    } else if |key| == 5 {
      assert upper == [upper[0], upper[1], upper[2], upper[3], upper[4]];
      assert key[1..3] == [key[1], key[2]];
    }
  }

  lemma {:induction false} EqualsAfter(key: bytes, rest: bytes)
    requires 0x3D !in key
    ensures EqualsAt(key + [0x3D] + rest) == |key|
  {
    var s := key + [0x3D] + rest;
    if key != [] {
      assert s[1..] == key[1..] + [0x3D] + rest;
      EqualsAfter(key[1..], rest);
    }
  }

  /** The reference takes exactly the fields with that name, and their values. */
  lemma NamesMeaning(field: bytes)
    ensures forall value :: Names(field, value) ==> IsIsrc(field) && ValueOf(field) == value
    ensures IsIsrc(field) ==> Names(field, ValueOf(field))
  {
    forall value | Names(field, value) ensures IsIsrc(field) && ValueOf(field) == value {
      var key :| IsrcName(key) && field == key + [0x3D] + value;
      NameIsKey(key);
      EqualsAfter(key, value);
      assert field[..|key|] == key && field[|key| + 1..] == value;
    }
    if IsIsrc(field) {
      var key := field[..EqualsAt(field)];
      NameIsKey(key);
      assert field == key + [0x3D] + ValueOf(field);
    }
  }

  // ----- Reading back -----

  lemma Be24Back(n: nat, rest: bytes)
    requires n < 0x100_0000
    ensures |Be24Bytes(n)| == 3 && Be24(Be24Bytes(n) + rest) == n
  {
    var s := Be24Bytes(n) + rest;
    assert s[0] == Be24Bytes(n)[0] && s[1] == Be24Bytes(n)[1] && s[2] == Be24Bytes(n)[2];
    var h := n / 0x100;
    assert n == 0x100 * h + n % 0x100 && h == 0x100 * (h / 0x100) + h % 0x100 && h / 0x100 == n / 0x1_0000;
  }

  lemma Le32Back(n: nat, rest: bytes)
    requires n < 0x1_0000_0000
    ensures |Le32Bytes(n)| == 4 && Le32(Le32Bytes(n) + rest) == n
  {
    var s, t := Le32Bytes(n) + rest, Le32Bytes(n);
    assert s[0] == t[0] && s[1] == t[1] && s[2] == t[2] && s[3] == t[3];
    var x := n / 0x100;
    var y := x / 0x100;
    assert y == n / 0x1_0000 && y / 0x100 == n / 0x100_0000;
    assert n == 0x100 * x + n % 0x100 && x == 0x100 * y + x % 0x100 && y == 0x100 * (y / 0x100) + y % 0x100;
  }

  lemma ItemBack(s: bytes, rest: bytes)
    requires Short(s)
    ensures TakeItem(Item(s) + rest) == Some((s, rest))
  {
    hide Le32, Le32Bytes;
    var all := Item(s) + rest;
    Le32Back(|s|, s + rest);
    assert all == Le32Bytes(|s|) + (s + rest);
    assert all[4..4 + |s|] == s && all[4 + |s|..] == rest;
  }

  lemma {:induction false} FieldsBack(fields: seq<bytes>, slack: bytes)
    requires AllShort(fields)
    ensures ParseFields(FieldsBytes(fields) + slack, |fields|) == Fields(fields, true)
  {
    if fields != [] {
      hide TakeItem, Item;
      var rest := FieldsBytes(fields[1..]) + slack;
      assert FieldsBytes(fields) + slack == Item(fields[0]) + rest;
      ItemBack(fields[0], rest);
      FieldsBack(fields[1..], slack);
      assert fields == [fields[0]] + fields[1..];
    }
  }

  lemma CommentBack(vendor: bytes, fields: seq<bytes>, slack: bytes)
    requires Short(vendor) && AllShort(fields) && |fields| < 0x1_0000_0000
    ensures ParseComment(CommentBytes(vendor, fields) + slack) == Fields(fields, true)
  {
    hide TakeItem, Item, Le32, Le32Bytes, FieldsBytes, ParseFields;
    var after := FieldsBytes(fields) + slack;
    var rest := Le32Bytes(|fields|) + after;
    assert CommentBytes(vendor, fields) + slack == Item(vendor) + rest;
    ItemBack(vendor, rest);
    Le32Back(|fields|, after);
    assert rest[4..] == after;
    FieldsBack(fields, slack);
  }

  lemma NoneInTail(fields: seq<bytes>)
    requires NoIsrc(fields) && fields != []
    ensures NoIsrc(fields[1..])
  {
    hide Names;
  }

  lemma {:induction false} VerdictFirst(fields: seq<bytes>, complete: bool, i: nat, value: bytes)
    requires i < |fields| && Names(fields[i], value) && NoIsrc(fields[..i])
    ensures Verdict(Fields(fields, complete)) == Found(value)
  {
    hide IsIsrc, Names, ValueOf;
    NamesMeaning(fields[0]);
    if i > 0 {
      assert fields[..i][0] == fields[0];
      NoneInTail(fields[..i]);
      assert fields[..i][1..] == fields[1..][..i - 1];
      VerdictFirst(fields[1..], complete, i - 1, value);
    }
  }

  lemma {:induction false} VerdictNone(fields: seq<bytes>, complete: bool)
    requires NoIsrc(fields)
    ensures Verdict(Fields(fields, complete)) == if complete then Nothing else Malformed
  {
    hide IsIsrc, Names, ValueOf;
    if fields != [] {
      NamesMeaning(fields[0]);
      NoneInTail(fields);
      VerdictNone(fields[1..], complete);
    }
  }

  // ----- Whole files -----

  lemma BlockParts(file: bytes, pos: nat, b: Block, last: bool, rest: bytes)
    requires pos <= |file| && b.Valid() && file[pos..] == BlockBytes(b, last) + rest
    ensures pos + 4 + |b.content| + |rest| == |file|
    ensures file[pos] as int == b.kind + (if last then 128 else 0)
    ensures Be24(file[pos + 1..]) == |b.content|
    ensures file[pos + 4..pos + 4 + |b.content|] == b.content
    ensures file[pos + 4 + |b.content|..] == rest
  {
    hide Be24, Be24Bytes;
    Be24Back(|b.content|, b.content + rest);
    var s := file[pos..];
    var first := [(b.kind + if last then 128 else 0) as byte];
    assert s == first + (Be24Bytes(|b.content|) + (b.content + rest));
    assert file[pos] == s[0] && file[pos + 1..] == s[1..];
    assert s[1..] == Be24Bytes(|b.content|) + (b.content + rest);
    assert s[4..] == b.content + rest && file[pos + 4..] == s[4..];
    assert file[pos + 4..pos + 4 + |b.content|] == s[4..][..|b.content|];
    assert file[pos + 4 + |b.content|..] == s[4..][|b.content|..];
  }

  /** Blocks of other types are passed over, whatever they hold. */
  lemma {:induction false} OthersSkipped(file: bytes, pos: nat, blocks: seq<Block>, rest: bytes)
    requires AllOther(blocks) && pos <= |file| && file[pos..] == BlocksBytes(blocks) + rest
    ensures pos + |BlocksBytes(blocks)| <= |file| && file[pos + |BlocksBytes(blocks)|..] == rest
    ensures BlocksOutcome(file, pos) == BlocksOutcome(file, pos + |BlocksBytes(blocks)|)
    decreases |blocks|
  {
    hide BlockBytes, BlocksBytes, BlocksOutcome;
    if blocks == [] {
      NoBlocks(rest);
    } else {
      var b, tail := blocks[0], BlocksBytes(blocks[1..]) + rest;
      FirstBlock(blocks, rest);
      OneSkipped(file, pos, b, tail);
      var next := pos + 4 + |b.content|;
      OthersSkipped(file, next, blocks[1..], rest);
      assert pos + |BlocksBytes(blocks)| == next + |BlocksBytes(blocks[1..])|;
    }
  }

  lemma NoBlocks(rest: bytes)
    ensures |BlocksBytes([])| == 0 && BlocksBytes([]) + rest == rest
  {}

  lemma FirstBlock(blocks: seq<Block>, rest: bytes)
    requires AllOther(blocks) && blocks != []
    ensures BlocksBytes(blocks) + rest == BlockBytes(blocks[0], false) + (BlocksBytes(blocks[1..]) + rest)
    ensures |BlocksBytes(blocks)| == 4 + |blocks[0].content| + |BlocksBytes(blocks[1..])|
  {
    BlockLength(blocks[0], false);
    hide BlockBytes;
  }

  lemma OneSkipped(file: bytes, pos: nat, b: Block, rest: bytes)
    requires b.Valid() && b.kind != VORBIS_COMMENT && pos <= |file| && file[pos..] == BlockBytes(b, false) + rest
    ensures pos + 4 + |b.content| <= |file| && file[pos + 4 + |b.content|..] == rest
    ensures BlocksOutcome(file, pos) == BlocksOutcome(file, pos + 4 + |b.content|)
  {
    hide BlockBytes, Be24, CommentOutcome;
    BlockParts(file, pos, b, false, rest);
  }

  lemma BlockLength(b: Block, last: bool)
    requires b.Valid()
    ensures |BlockBytes(b, last)| == 4 + |b.content|
  {}

  /** The written file: other blocks, and then `rest`, which starts with the block that matters. */
  lemma BehindOthers(before: seq<Block>, rest: bytes)
    requires AllOther(before)
    ensures var file, pos := FLAC + BlocksBytes(before) + rest, 4 + |BlocksBytes(before)|;
            file[pos..] == rest && FileOutcome(file) == BlocksOutcome(file, pos)
  {
    hide BlocksBytes, BlocksOutcome;
    var file := FLAC + BlocksBytes(before) + rest;
    assert file[..4] == FLAC && file[4..] == BlocksBytes(before) + rest;
    OthersSkipped(file, 4, before, rest);
  }

  lemma CommentDecides(before: seq<Block>, content: bytes, last: bool, rest: bytes)
    requires AllOther(before) && |content| < 0x100_0000
    ensures FileOutcome(FLAC + BlocksBytes(before) + (BlockBytes(Block(VORBIS_COMMENT, content), last) + rest)) ==
            Verdict(ParseComment(content))
  {
    hide BlockBytes, BlocksBytes, Be24, Verdict, ParseComment, FileOutcome;
    var b := Block(VORBIS_COMMENT, content);
    var tail := BlockBytes(b, last) + rest;
    var file, pos := FLAC + BlocksBytes(before) + tail, 4 + |BlocksBytes(before)|;
    BehindOthers(before, tail);
    BlockParts(file, pos, b, last, rest);
  }

  /** The first ISRC field of the first comment block is found, whatever surrounds it. */
  lemma WrittenIsFound(before: seq<Block>, vendor: bytes, fields: seq<bytes>, slack: bytes, last: bool, rest: bytes,
                       i: nat, value: bytes)
    requires AllOther(before) && Short(vendor) && AllShort(fields) && |fields| < 0x1_0000_0000
    requires |CommentBytes(vendor, fields) + slack| < 0x100_0000
    requires i < |fields| && Names(fields[i], value) && NoIsrc(fields[..i])
    ensures var comment := Block(VORBIS_COMMENT, CommentBytes(vendor, fields) + slack);
            FileOutcome(FLAC + BlocksBytes(before) + (BlockBytes(comment, last) + rest)) == Found(value)
  {
    hide BlockBytes, BlocksBytes, CommentBytes, FileOutcome, Verdict, ParseComment, Names;
    CommentDecides(before, CommentBytes(vendor, fields) + slack, last, rest);
    CommentBack(vendor, fields, slack);
    VerdictFirst(fields, true, i, value);
  }

  /** A first comment block without an ISRC field settles that there is none. */
  lemma UnwrittenIsNot(before: seq<Block>, vendor: bytes, fields: seq<bytes>, slack: bytes, last: bool, rest: bytes)
    requires AllOther(before) && Short(vendor) && AllShort(fields) && |fields| < 0x1_0000_0000
    requires |CommentBytes(vendor, fields) + slack| < 0x100_0000 && NoIsrc(fields)
    ensures var comment := Block(VORBIS_COMMENT, CommentBytes(vendor, fields) + slack);
            FileOutcome(FLAC + BlocksBytes(before) + (BlockBytes(comment, last) + rest)) == Nothing
  {
    hide BlockBytes, BlocksBytes, CommentBytes, FileOutcome, Verdict, ParseComment, NoIsrc;
    CommentDecides(before, CommentBytes(vendor, fields) + slack, last, rest);
    CommentBack(vendor, fields, slack);
    VerdictNone(fields, true);
  }

  /** A last block of another type ends the search. */
  lemma LastBlockEnds(before: seq<Block>, b: Block, rest: bytes)
    requires AllOther(before) && b.Valid() && b.kind != VORBIS_COMMENT
    ensures FileOutcome(FLAC + BlocksBytes(before) + (BlockBytes(b, true) + rest)) == Nothing
  {
    hide BlockBytes, BlocksBytes, Be24, FileOutcome, CommentOutcome;
    var tail := BlockBytes(b, true) + rest;
    var file, pos := FLAC + BlocksBytes(before) + tail, 4 + |BlocksBytes(before)|;
    BehindOthers(before, tail);
    BlockParts(file, pos, b, true, rest);
  }

  // ----- Files and comments cut short -----

  /** From `pos` on the file is the beginning of `whole`, but not all of it. */
  ghost predicate CutOff(file: bytes, pos: nat, whole: bytes) {
    pos <= |file| && |file| - pos < |whole| && file[pos..] == whole[..|file| - pos]
  }

  lemma CutHeader(file: bytes, pos: nat, b: Block, last: bool, rest: bytes)
    requires b.Valid() && pos + 4 <= |file| && CutOff(file, pos, BlockBytes(b, last) + rest)
    ensures file[pos] as int == b.kind + (if last then 128 else 0)
    ensures Be24(file[pos + 1..]) == |b.content|
  {
    hide Be24, Be24Bytes;
    var n := |file| - pos;
    Be24Back(|b.content|, file[pos + 4..]);
    var first, length := [(b.kind + if last then 128 else 0) as byte], Be24Bytes(|b.content|);
    assert BlockBytes(b, last) + rest == first + length + (b.content + rest);
    assert file[pos..] == first + length + (b.content + rest)[..n - 4];
    assert file[pos] == file[pos..][0] && file[pos + 1..] == file[pos..][1..] && file[pos + 4..] == file[pos..][4..];
    assert file[pos + 1..] == length + file[pos + 4..];
  }

  lemma CutBehind(file: bytes, pos: nat, head: bytes, rest: bytes)
    requires CutOff(file, pos, head + rest) && pos + |head| <= |file|
    ensures CutOff(file, pos + |head|, rest)
  {
    assert file[pos + |head|..] == file[pos..][|head|..];
    assert (head + rest)[..|file| - pos][|head|..] == rest[..|file| - pos - |head|];
  }

  lemma CutInComment(file: bytes, pos: nat, comment: Block, last: bool)
    requires comment.Valid() && comment.kind == VORBIS_COMMENT && CutOff(file, pos, BlockBytes(comment, last))
    ensures BlocksOutcome(file, pos) == Malformed
  {
    if pos + 4 <= |file| {
      BlockLength(comment, last);
      assert BlockBytes(comment, last) + [] == BlockBytes(comment, last);
      CutHeader(file, pos, comment, last, []);
      hide Be24, BlockBytes;
    }
  }

  lemma CutOther(file: bytes, pos: nat, b: Block, rest: bytes)
    requires b.Valid() && b.kind != VORBIS_COMMENT && CutOff(file, pos, BlockBytes(b, false) + rest)
    ensures var next := pos + 4 + |b.content|;
            if next <= |file| then CutOff(file, next, rest) && BlocksOutcome(file, pos) == BlocksOutcome(file, next)
            else BlocksOutcome(file, pos) == Malformed
  {
    var next := pos + 4 + |b.content|;
    BlockLength(b, false);
    hide Be24, BlockBytes, CommentOutcome, CutOff;
    if pos + 4 <= |file| { CutHeader(file, pos, b, false, rest); }
    if next <= |file| { CutBehind(file, pos, BlockBytes(b, false), rest); }
  }

  lemma {:induction false} CutBlocks(file: bytes, pos: nat, blocks: seq<Block>, comment: Block, last: bool)
    requires AllOther(blocks) && comment.Valid() && comment.kind == VORBIS_COMMENT
    requires CutOff(file, pos, BlocksBytes(blocks) + BlockBytes(comment, last))
    ensures BlocksOutcome(file, pos) == Malformed
    decreases |blocks|
  {
    hide BlockBytes, BlocksBytes, BlocksOutcome, CutOff;
    if blocks == [] {
      NoBlocks(BlockBytes(comment, last));
      CutInComment(file, pos, comment, last);
    } else {
      var b, rest := blocks[0], BlocksBytes(blocks[1..]) + BlockBytes(comment, last);
      FirstBlock(blocks, BlockBytes(comment, last));
      CutOther(file, pos, b, rest);
      if pos + 4 + |b.content| <= |file| { CutBlocks(file, pos + 4 + |b.content|, blocks[1..], comment, last); }
    }
  }

  /** A file that ends before its first comment block does is malformed, wherever it ends. */
  lemma CutIsMalformed(before: seq<Block>, content: bytes, last: bool, n: nat)
    requires AllOther(before) && |content| < 0x100_0000
    requires n < |FLAC + BlocksBytes(before) + BlockBytes(Block(VORBIS_COMMENT, content), last)|
    ensures var whole := FLAC + BlocksBytes(before) + BlockBytes(Block(VORBIS_COMMENT, content), last);
            FileOutcome(whole[..n]) == Malformed
  {
    hide BlockBytes, BlocksBytes, BlocksOutcome;
    var whole := BlocksBytes(before) + BlockBytes(Block(VORBIS_COMMENT, content), last);
    var file := (FLAC + BlocksBytes(before) + BlockBytes(Block(VORBIS_COMMENT, content), last))[..n];
    if n >= 4 {
      assert file == FLAC + whole[..n - 4];
      assert file[..4] == FLAC && file[4..] == whole[..n - 4];
      CutBlocks(file, 4, before, Block(VORBIS_COMMENT, content), last);
    }
  }

  lemma CutItem(s: bytes, n: nat)
    requires Short(s) && n < 4 + |s| && |Item(s)| == 4 + |s|
    ensures TakeItem(Item(s)[..n]).None?
  {
    hide Le32, Le32Bytes;
    if n >= 4 {
      Le32Back(|s|, s[..n - 4]);
      assert Item(s)[..n] == Le32Bytes(|s|) + s[..n - 4];
    }
  }

  lemma ItemLength(s: bytes)
    requires Short(s)
    ensures |Item(s)| == 4 + |s|
  {}

  /** The fields before the cut, and that not all are there. */
  lemma {:induction false} CutFields(fields: seq<bytes>, k: nat, n: nat)
    requires AllShort(fields) && k < |fields|
    requires |FieldsBytes(fields[..k])| <= n < |FieldsBytes(fields[..k])| + 4 + |fields[k]|
    ensures n < |FieldsBytes(fields)|
    ensures ParseFields(FieldsBytes(fields)[..n], |fields|) == Fields(fields[..k], false)
  {
    hide TakeItem, Item;
    var first, others := fields[0], FieldsBytes(fields[1..]);
    ItemLength(first);
    if k == 0 {
      CutItem(first, n);
      assert FieldsBytes(fields)[..n] == Item(first)[..n];
    } else {
      assert fields[..k][0] == first && fields[..k][1..] == fields[1..][..k - 1];
      CutFields(fields[1..], k - 1, n - |Item(first)|);
      assert FieldsBytes(fields)[..n] == Item(first) + others[..n - |Item(first)|];
      ItemBack(first, others[..n - |Item(first)|]);
      assert [first] + fields[1..][..k - 1] == fields[..k];
    }
  }

  /** A comment block that ends before its head does, or inside its k-th field. */
  lemma CutComment(vendor: bytes, fields: seq<bytes>, n: nat, k: nat)
    requires Short(vendor) && AllShort(fields) && k < |fields| < 0x1_0000_0000
    requires var at := 8 + |vendor| + |FieldsBytes(fields[..k])|; at <= n < at + 4 + |fields[k]|
    ensures n < |CommentBytes(vendor, fields)|
    ensures ParseComment(CommentBytes(vendor, fields)[..n]) == Fields(fields[..k], false)
  {
    hide TakeItem, Item, Le32, Le32Bytes, FieldsBytes, ParseFields;
    var m := n - 8 - |vendor|;
    CutFields(fields, k, m);
    ItemLength(vendor);
    var after := FieldsBytes(fields)[..m];
    Le32Back(|fields|, after);
    var rest := Le32Bytes(|fields|) + after;
    assert CommentBytes(vendor, fields)[..n] == Item(vendor) + rest;
    ItemBack(vendor, rest);
    assert rest[4..] == after;
  }

  /** An ISRC field counts if it lies before the cut; without one there, the block is malformed. */
  lemma ShortComment(before: seq<Block>, vendor: bytes, fields: seq<bytes>, last: bool, rest: bytes, n: nat, k: nat)
    requires AllOther(before) && Short(vendor) && AllShort(fields) && k < |fields| < 0x1_0000_0000
    requires var at := 8 + |vendor| + |FieldsBytes(fields[..k])|; at <= n < at + 4 + |fields[k]|
    requires n < 0x100_0000
    ensures n < |CommentBytes(vendor, fields)|
    ensures var comment := Block(VORBIS_COMMENT, CommentBytes(vendor, fields)[..n]);
            var r := FileOutcome(FLAC + BlocksBytes(before) + (BlockBytes(comment, last) + rest));
            && (NoIsrc(fields[..k]) ==> r == Malformed)
            && forall i, value :: 0 <= i < k && Names(fields[i], value) && NoIsrc(fields[..i]) ==> r == Found(value)
  {
    hide BlockBytes, BlocksBytes, CommentBytes, FieldsBytes, FileOutcome, Verdict, ParseComment, Names, NoIsrc;
    CutComment(vendor, fields, n, k);
    CommentDecides(before, CommentBytes(vendor, fields)[..n], last, rest);
    if NoIsrc(fields[..k]) { VerdictNone(fields[..k], false); }
    forall i, value | 0 <= i < k && Names(fields[i], value) && NoIsrc(fields[..i])
      ensures Verdict(Fields(fields[..k], false)) == Found(value)
    {
      assert fields[..k][..i] == fields[..i];
      VerdictFirst(fields[..k], false, i, value);
    }
  }

  /** A comment block that ends before its fields start is malformed. */
  lemma ShortHead(before: seq<Block>, vendor: bytes, count: nat, last: bool, rest: bytes, n: nat)
    requires AllOther(before) && Short(vendor) && count < 0x1_0000_0000 && n < 0x100_0000
    requires n < |Item(vendor) + Le32Bytes(count)|
    ensures var comment := Block(VORBIS_COMMENT, (Item(vendor) + Le32Bytes(count))[..n]);
            FileOutcome(FLAC + BlocksBytes(before) + (BlockBytes(comment, last) + rest)) == Malformed
  {
    hide BlockBytes, BlocksBytes, FileOutcome, Item, TakeItem, Le32Bytes;
    ItemLength(vendor);
    var content := (Item(vendor) + Le32Bytes(count))[..n];
    if n < 4 + |vendor| {
      CutItem(vendor, n);
      assert content == Item(vendor)[..n];
    } else {
      var part := Le32Bytes(count)[..n - 4 - |vendor|];
      Le32Back(count, []);
      assert content == Item(vendor) + part;
      ItemBack(vendor, part);
    }
    CommentDecides(before, content, last, rest);
  }

  /** A file that does not start with the marker is no FLAC file. */
  lemma MarkerDecides(file: bytes)
    requires |file| >= 4 && file[..4] != FLAC
    ensures FileOutcome(file) == Nothing
  {}
}
