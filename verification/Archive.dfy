/** The archive file format: src/archive/writer.cpp, reader.cpp, stream.cpp, chunktypes.cpp. */
module Archive {
  import opened Options

  type Byte = n: nat | n < 256

  const U32 := 0x1_0000_0000
  const VERSION := 24

  /** "egalito" and the byte 0xc4. */
  const SIGNATURE: seq<Byte> := [101, 103, 97, 108, 105, 116, 111, 196]

  // ---- Chunk types ----

  const TYPE_TOTAL := 29

  /** The table in `encodeChunkType`: ?PMFZTRSLQfbizJjD:dvAaVpsl */
  const ENCODE: seq<Byte> := [63, 80, 77, 70, 90, 84, 82, 83, 76, 81, 102, 98, 105, 122, 74, 106, 68, 58, 100, 118, 65,
                              97, 86, 112, 115, 108]

  function EncodeChunkType(kind: nat): Byte
    requires kind < |ENCODE|
  {
    ENCODE[kind]
  }

  function DecodeChunkType(b: Byte): nat {
    match b
    case 63 => 0 case 80 => 1 case 77 => 2 case 70 => 3 case 90 => 4 case 84 => 5 case 82 => 6
    case 83 => 8 case 76 => 9 case 81 => 10 case 102 => 11 case 98 => 12 case 105 => 13 case 122 => 14
    case 74 => 15 case 106 => 16 case 68 => 17 case 58 => 18 case 100 => 19 case 118 => 20 case 65 => 22
    case 97 => 23 case 86 => 24 case 112 => 25 case 115 => 27 case 108 => 28
    case _ => 0
  }

  /** What a type reads back as. */
  function Survives(kind: nat): nat
    requires kind < |ENCODE|
  {
    DecodeChunkType(EncodeChunkType(kind))
  }

  /** The table leaves out three of the types, so the ones after them read back as later types. */
  lemma OnlyFirstTypesSurvive(kind: nat)
    requires kind < |ENCODE|
    ensures Survives(kind) == kind <==> kind <= 6
    ensures Survives(kind) == kind + (if kind <= 6 then 0 else if kind <= 19 then 1 else if kind <= 23 then 2 else 3)
    ensures |ENCODE| == TYPE_TOTAL - 3
  {
  }

  /** Each type that is written and its letter, and the type that the letter is read as. */
  const LETTERS: seq<(char, nat, nat)> :=
    [('?', 0, 0), ('P', 1, 1), ('M', 2, 2), ('F', 3, 3), ('Z', 4, 4), ('T', 5, 5), ('R', 6, 6), ('S', 7, 8),
     ('L', 8, 9), ('Q', 9, 10), ('f', 10, 11), ('b', 11, 12), ('i', 12, 13), ('z', 13, 14), ('J', 14, 15),
     ('j', 15, 16), ('D', 16, 17), (':', 17, 18), ('d', 18, 19), ('v', 19, 20), ('A', 20, 22), ('a', 21, 23),
     ('V', 22, 24), ('p', 23, 25), ('s', 24, 27), ('l', 25, 28)]

  /** The letters in both directions. Every other byte reads as the unknown type. */
  lemma LettersAre(kind: nat, b: Byte)
    requires kind < |ENCODE|
    ensures |LETTERS| == |ENCODE| && LETTERS[kind].1 == kind
    ensures EncodeChunkType(kind) == LETTERS[kind].0 as int
    ensures DecodeChunkType(EncodeChunkType(kind)) == LETTERS[kind].2
    ensures (forall i :: 0 <= i < |LETTERS| ==> b as int != LETTERS[i].0 as int) ==> DecodeChunkType(b) == 0
  {
    if DecodeChunkType(b) != 0 {
      var i := LetterOf(b);
    }
  }

  lemma LetterOf(b: Byte) returns (i: nat)
    requires DecodeChunkType(b) != 0
    ensures i < |LETTERS| && LETTERS[i].0 as int == b as int
  {
    var d := DecodeChunkType(b);
    i := if d <= 6 then d else if d <= 20 then d - 1 else if d <= 25 then d - 2 else d - 3;
  }

  // ---- Fixed-width values ----

  /** `writeValue(uint32_t)`: the low 32 bits, lowest byte first. */
  function Word(v: nat): (b: seq<Byte>)
    ensures |b| == 4
  {
    [v % 256, v / 256 % 256, v / 256 / 256 % 256, v / 256 / 256 / 256 % 256]
  }

  function Value(b: seq<Byte>): nat
    requires |b| == 4
  {
    b[0] as nat + 256 * (b[1] as nat + 256 * (b[2] as nat + 256 * (b[3] as nat)))
  }

  ghost function Pow256(i: nat): (n: nat)
    ensures n >= 1
  {
    if i == 0 then 1 else 256 * Pow256(i - 1)
  }

  /** Byte `i` of a word is the one of weight 256 to the power of `i`. */
  lemma WordBytes(v: nat, i: nat)
    requires i < 4
    ensures Word(v)[i] == v / Pow256(i) % 256
  {
    assert Pow256(1) == 256 && Pow256(2) == 65536;
    assert Pow256(3) == 256 * Pow256(2) == 16777216;
    assert v / 256 / 256 == v / 65536;
    assert v / 65536 / 256 == v / 16777216;
  }

  lemma WordValue(v: nat)
    requires v < U32
    ensures Value(Word(v)) == v
  {
  }

  // ---- Writing ----

  datatype FlatChunk = FlatChunk(kind: nat, id: nat, offset: nat, data: seq<Byte>)

  /** Chunks as `FlatChunkList` keeps them, by id, without gaps. */
  ghost predicate Dense(list: seq<FlatChunk>) {
    forall i :: 0 <= i < |list| ==> list[i].id == i && list[i].kind < |ENCODE|
  }

  function Header(count: nat): seq<Byte> {
    SIGNATURE + Word(VERSION) + Word(count)
  }

  /** `getSize`. */
  function SizeOf(f: FlatChunk): nat {
    |f.data| % U32
  }

  function ChunkBytes(f: FlatChunk): (b: seq<Byte>)
    requires f.kind < |ENCODE|
    ensures |b| == 13 + SizeOf(f)
  {
    [EncodeChunkType(f.kind)] + Word(f.id) + Word(f.offset) + Word(SizeOf(f)) + f.data[..SizeOf(f)]
  }

  ghost function Concat(parts: seq<seq<Byte>>): seq<Byte> {
    if parts == [] then [] else Concat(parts[..|parts| - 1]) + parts[|parts| - 1]
  }

  /** The bytes of each chunk. */
  ghost function Parts(list: seq<FlatChunk>): (parts: seq<seq<Byte>>)
    requires Dense(list)
    ensures |parts| == |list| && forall i :: 0 <= i < |list| ==> parts[i] == ChunkBytes(list[i])
  {
    seq(|list|, i requires 0 <= i < |list| => ChunkBytes(list[i]))
  }

  /** The file of an archive. */
  ghost function FileOf(list: seq<FlatChunk>): seq<Byte>
    requires Dense(list)
  {
    Header(|list|) + Concat(Parts(list))
  }

  /** Where chunk `i` starts in it. */
  ghost function PositionOf(list: seq<FlatChunk>, i: nat): nat
    requires Dense(list) && i <= |list|
  {
    16 + |Concat(Parts(list)[..i])|
  }

  /** `writeData`. */
  method WriteData(list: seq<FlatChunk>) returns (out: seq<Byte>)
    requires Dense(list)
    ensures out == FileOf(list)
  {
    out := SIGNATURE;
    out := out + Word(VERSION);
    out := out + Word(|list|);
    ghost var head, parts := Header(|list|), Parts(list);
    for i := 0 to |list|
      invariant out == head + Concat(parts[..i])
    {
      out := WriteChunk(out, list[i]);
      ConcatNext(head, parts, i);
    }
    assert parts[..|list|] == parts;
  }

  lemma ConcatNext(head: seq<Byte>, parts: seq<seq<Byte>>, i: nat)
    requires i < |parts|
    ensures head + Concat(parts[..i + 1]) == head + Concat(parts[..i]) + parts[i]
  {
    assert parts[..i + 1][..i] == parts[..i];
  }

  /** The body of its loop. */
  method WriteChunk(before: seq<Byte>, flat: FlatChunk) returns (out: seq<Byte>)
    requires flat.kind < |ENCODE|
    ensures out == before + ChunkBytes(flat)
  {
    out := before + [EncodeChunkType(flat.kind)];
    out := out + Word(flat.id);
    out := out + Word(flat.offset);
    out := out + Word(SizeOf(flat));
    out := out + flat.data[..SizeOf(flat)];
  }

  /** The sizes that `assignOffsets` adds up, without wrap-around. */
  function OffsetSum(list: seq<FlatChunk>): nat {
    if list == [] then 16 else OffsetSum(list[..|list| - 1]) + 14 + SizeOf(list[|list| - 1])
  }

  lemma WrapOnce(x: nat, y: nat)
    ensures (x % U32 + y) % U32 == (x + y) % U32
  {
    var q := x / U32;
    assert x == q * U32 + x % U32;
    assert (q * U32 + (x % U32 + y)) % U32 == (x % U32 + y) % U32;
  }

  /** The offset of chunk `i`, as the 32-bit total has it. */
  function OffsetAt(list: seq<FlatChunk>, i: nat): nat
    requires i <= |list|
  {
    OffsetSum(list[..i]) % U32
  }

  /** `assignOffsets`. */
  method AssignOffsets(list: seq<FlatChunk>) returns (out: seq<FlatChunk>)
    ensures |out| == |list|
    ensures forall i :: 0 <= i < |list| ==> out[i] == list[i].(offset := OffsetAt(list, i))
  {
    var totalSize: nat := |SIGNATURE|;
    totalSize := totalSize + 4;
    totalSize := totalSize + 4;
    out := [];
    for i := 0 to |list|
      invariant totalSize == OffsetAt(list, i)
      invariant |out| == i && forall k :: 0 <= k < i ==> out[k] == list[k].(offset := OffsetAt(list, k))
    {
      out := out + [list[i].(offset := totalSize)];
      totalSize := NextOffset(list, i, totalSize);
    }
  }

  method NextOffset(list: seq<FlatChunk>, i: nat, totalSize: nat) returns (next: nat)
    requires i < |list| && totalSize == OffsetAt(list, i)
    ensures next == OffsetAt(list, i + 1)
  {
    assert list[..i + 1][..i] == list[..i];
    WrapOnce(OffsetSum(list[..i]), 14 + SizeOf(list[i]));
    next := (totalSize + 2 + 4 * 3 + SizeOf(list[i])) % U32;
  }

  /** The offset recorded for chunk `i` is its position in the file plus `i`: each type field is
      counted as two bytes but written as one. */
  lemma {:induction false} OffsetIsPositionPlusIndex(list: seq<FlatChunk>, i: nat)
    requires Dense(list) && i <= |list|
    ensures OffsetSum(list[..i]) == PositionOf(list, i) + i
    decreases i
  {
    if i > 0 {
      OffsetIsPositionPlusIndex(list, i - 1);
      SumNext(list, i - 1);
      ConcatNext([], Parts(list), i - 1);
    } else {
      assert Parts(list)[..0] == [];
    }
  }

  lemma SumNext(list: seq<FlatChunk>, i: nat)
    requires i < |list|
    ensures OffsetSum(list[..i + 1]) == OffsetSum(list[..i]) + 14 + SizeOf(list[i])
  {
    assert list[..i + 1][..i] == list[..i];
  }

  // ---- Reading ----

  /** The list that `addFlatChunk` keeps: ids that have not come yet are empty. */
  function AddFlatChunk(list: seq<Option<FlatChunk>>, f: FlatChunk): seq<Option<FlatChunk>> {
    if |list| <= f.id then list + seq(f.id - |list|, _ => None) + [Some(f)] else list[f.id := Some(f)]
  }

  /** One chunk at `pos`, and where the next one starts, unless the file ends before. */
  function ReadChunk(file: seq<Byte>, pos: nat): Option<(FlatChunk, nat)> {
    if pos + 13 > |file| then None
    else
      var size := Value(file[pos + 9..pos + 13]);
      if pos + 13 + size > |file| then None
      else Some((FlatChunk(DecodeChunkType(file[pos]), Value(file[pos + 1..pos + 5]), Value(file[pos + 5..pos + 9]),
                           file[pos + 13..pos + 13 + size]),
                 pos + 13 + size))
  }

  /** `count` chunks, given the parser for one. */
  function ReadChunks(parse: nat -> Option<(FlatChunk, nat)>, pos: nat, count: nat,
                      list: seq<Option<FlatChunk>>): Option<seq<Option<FlatChunk>>>
    decreases count
  {
    if count == 0 then Some(list)
    else
      match parse(pos)
      case None => None
      case Some((f, next)) => ReadChunks(parse, next, count - 1, AddFlatChunk(list, f))
  }

  function Parser(file: seq<Byte>): nat -> Option<(FlatChunk, nat)> {
    (pos: nat) => ReadChunk(file, pos)
  }

  /** The count in the header, read into four uninitialised bytes. When the file ends inside the
      count, the bytes that are there are stored and the others stay what they were. */
  function CountIn(file: seq<Byte>, leftover: seq<Byte>): nat
    requires |file| >= 12 && |leftover| == 4
  {
    if |file| < 16 then Value(file[12..] + leftover[|file| - 12..]) else Value(file[12..16])
  }

  /** Byte `i` of the count: from the file as far as it goes, and what was there before behind that. */
  ghost function CountByte(file: seq<Byte>, leftover: seq<Byte>, i: nat): nat
    requires |file| >= 12 && |leftover| == 4 && i < 4
  {
    if 12 + i < |file| then file[12 + i] else leftover[i]
  }

  lemma CountBytes(file: seq<Byte>, leftover: seq<Byte>)
    requires |file| >= 12 && |leftover| == 4
    ensures CountIn(file, leftover) == CountByte(file, leftover, 0) + CountByte(file, leftover, 1) * Pow256(1)
              + CountByte(file, leftover, 2) * Pow256(2) + CountByte(file, leftover, 3) * Pow256(3)
  {
    var bytes: seq<Byte> := if |file| < 16 then file[12..] + leftover[|file| - 12..] else file[12..16];
    assert Pow256(1) == 256 && Pow256(2) == 65536;
    assert Pow256(3) == 256 * Pow256(2) == 16777216;
    assert forall i: nat :: i < 4 ==> bytes[i] == CountByte(file, leftover, i);
  }

  predicate GoodHeader(file: seq<Byte>) {
    |file| >= 12 && file[..8] == SIGNATURE && Value(file[8..12]) <= VERSION
  }

  function ReadArchive(file: seq<Byte>, leftover: seq<Byte>): Option<seq<Option<FlatChunk>>>
    requires |leftover| == 4
  {
    if !GoodHeader(file) then None
    else ReadChunks(Parser(file), if |file| < 16 then |file| else 16, CountIn(file, leftover), [])
  }

  /** `readHeader` and `read`. */
  method Read(file: seq<Byte>, leftover: seq<Byte>) returns (archive: Option<seq<Option<FlatChunk>>>)
    requires |leftover| == 4
    ensures archive == ReadArchive(file, leftover)
  {
    if |file| < 8 || file[..8] != SIGNATURE {
      return None;
    }
    if |file| < 12 || Value(file[8..12]) > VERSION {
      return None;
    }
    var flatCount := CountIn(file, leftover);
    archive := ReadList(file, if |file| < 16 then |file| else 16, flatCount);
  }

  /** The loop in `read`. */
  method ReadList(file: seq<Byte>, start: nat, flatCount: nat) returns (archive: Option<seq<Option<FlatChunk>>>)
    ensures archive == ReadChunks(Parser(file), start, flatCount, [])
  {
    var pos: nat := start;
    var list: seq<Option<FlatChunk>> := [];
    ghost var parse := Parser(file);
    for i := 0 to flatCount
      invariant ReadChunks(parse, pos, flatCount - i, list) == ReadChunks(parse, start, flatCount, [])
    {
      var chunk := ReadChunk(file, pos);
      assert parse(pos) == chunk;
      if chunk.None? {
        return None;
      }
      list := AddFlatChunk(list, chunk.value.0);
      pos := chunk.value.1;
    }
    archive := Some(list);
  }

  // ---- What any file reads as ----

  /** The chunks that the parser gives, one after the other, unless one is cut off. */
  ghost function Parsed(parse: nat -> Option<(FlatChunk, nat)>, pos: nat, count: nat): Option<seq<FlatChunk>>
    decreases count
  {
    if count == 0 then Some([])
    else if parse(pos).None? then None
    else
      var rest := Parsed(parse, parse(pos).value.1, count - 1);
      if rest.None? then None else Some([parse(pos).value.0] + rest.value)
  }

  /** What a list has under id `k`: the last chunk with this id, or nothing when there is none. */
  ghost predicate EntryFor(chunks: seq<FlatChunk>, k: nat, entry: Option<FlatChunk>) {
    match entry
    case None => forall i :: 0 <= i < |chunks| ==> chunks[i].id != k
    case Some(f) => f.id == k && exists i :: LastWith(chunks, f, i)
  }

  ghost predicate LastWith(chunks: seq<FlatChunk>, f: FlatChunk, i: int) {
    0 <= i < |chunks| && chunks[i] == f && forall j :: i < j < |chunks| ==> chunks[j].id != f.id
  }

  /** A list has the last chunk under each id, and ends with the largest one. (Stated of every list equal
      to `list`, so that it is unfolded only where it is used.) */
  ghost predicate ListOf(chunks: seq<FlatChunk>, list: seq<Option<FlatChunk>>) {
    forall l: seq<Option<FlatChunk>> :: l == list ==> KeepsLast(chunks, l)
  }

  ghost predicate KeepsLast(chunks: seq<FlatChunk>, list: seq<Option<FlatChunk>>) {
    && (forall k: nat :: k < |list| ==> EntryFor(chunks, k, list[k]))
    && (forall i :: 0 <= i < |chunks| ==> chunks[i].id < |list|)
    && (list != [] ==> list[|list| - 1].Some?)
  }

  lemma EntryAfter(chunks: seq<FlatChunk>, f: FlatChunk, k: nat, entry: Option<FlatChunk>)
    requires k != f.id && EntryFor(chunks, k, entry)
    ensures EntryFor(chunks + [f], k, entry)
  {
    if entry.Some? {
      var i :| LastWith(chunks, entry.value, i);
      assert LastWith(chunks + [f], entry.value, i);
    }
  }

  lemma ListAfter(chunks: seq<FlatChunk>, list: seq<Option<FlatChunk>>, f: FlatChunk)
    requires ListOf(chunks, list)
    ensures ListOf(chunks + [f], AddFlatChunk(list, f))
  {
    assert KeepsLast(chunks, list);
    var next := AddFlatChunk(list, f);
    assert LastWith(chunks + [f], f, |chunks|);
    forall k: nat | k < |next| ensures EntryFor(chunks + [f], k, next[k]) {
      if k != f.id {
        assert next[k] == if k < |list| then list[k] else None;
        assert EntryFor(chunks, k, next[k]);
        EntryAfter(chunks, f, k, next[k]);
      }
    }
  }

  ghost function AddAll(list: seq<Option<FlatChunk>>, chunks: seq<FlatChunk>): seq<Option<FlatChunk>>
    decreases |chunks|
  {
    if chunks == [] then list else AddAll(AddFlatChunk(list, chunks[0]), chunks[1..])
  }

  lemma {:induction false} AddAllKeepsLast(before: seq<FlatChunk>, list: seq<Option<FlatChunk>>, chunks: seq<FlatChunk>)
    requires ListOf(before, list)
    ensures ListOf(before + chunks, AddAll(list, chunks))
    decreases |chunks|
  {
    if chunks == [] {
      assert before + chunks == before;
    } else {
      ListAfter(before, list, chunks[0]);
      AddAllKeepsLast(before + [chunks[0]], AddFlatChunk(list, chunks[0]), chunks[1..]);
      assert before + [chunks[0]] + chunks[1..] == before + chunks;
    }
  }

  lemma {:induction false} ReadsParsed(parse: nat -> Option<(FlatChunk, nat)>, pos: nat, count: nat,
                                       list: seq<Option<FlatChunk>>)
    ensures ReadChunks(parse, pos, count, list).Some? <==> Parsed(parse, pos, count).Some?
    ensures Parsed(parse, pos, count).Some? ==>
              ReadChunks(parse, pos, count, list).value == AddAll(list, Parsed(parse, pos, count).value)
    decreases count
  {
    if count > 0 && parse(pos).Some? {
      ReadsParsed(parse, parse(pos).value.1, count - 1, AddFlatChunk(list, parse(pos).value.0));
    }
  }

  /** What a file with a good header reads as, whatever ids its chunks have. */
  lemma ArchiveKeepsLast(file: seq<Byte>, leftover: seq<Byte>)
    requires |leftover| == 4 && GoodHeader(file)
    ensures var chunks := Parsed(Parser(file), if |file| < 16 then |file| else 16, CountIn(file, leftover));
            && (ReadArchive(file, leftover).Some? <==> chunks.Some?)
            && (chunks.Some? ==> ListOf(chunks.value, ReadArchive(file, leftover).value))
  {
    var start := if |file| < 16 then |file| else 16;
    ReadsParsed(Parser(file), start, CountIn(file, leftover), []);
    var chunks := Parsed(Parser(file), start, CountIn(file, leftover));
    if chunks.Some? {
      AddAllKeepsLast([], [], chunks.value);
      assert [] + chunks.value == chunks.value;
    }
  }

  // ---- Round trip ----

  /** A chunk as it comes back. */
  function Reread(f: FlatChunk): FlatChunk
    requires f.kind < |ENCODE|
  {
    f.(kind := Survives(f.kind))
  }

  predicate Fits(f: FlatChunk) {
    f.kind < |ENCODE| && f.id < U32 && f.offset < U32 && |f.data| < U32
  }

  lemma SliceInside(before: seq<Byte>, b: seq<Byte>, after: seq<Byte>, i: nat, j: nat)
    requires i <= j <= |b|
    ensures (before + b + after)[|before| + i..|before| + j] == b[i..j]
  {
  }

  lemma FiveFields(a: seq<Byte>, b: seq<Byte>, c: seq<Byte>, d: seq<Byte>, e: seq<Byte>)
    requires |a| == 1 && |b| == 4 && |c| == 4 && |d| == 4
    ensures var all := a + b + c + d + e;
            all[0..1] == a && all[1..5] == b && all[5..9] == c && all[9..13] == d && all[13..13 + |e|] == e
  {
  }

  /** Only the low 32 bits are written. */
  lemma WordWraps(v: nat)
    ensures Word(v % U32) == Word(v)
  {
    var q, r := v / U32, v % U32;
    NextByte(v, 0x100_0000 * q, r);
    NextByte(v / 256, 0x1_0000 * q, r / 256);
    NextByte(v / 256 / 256, 0x100 * q, r / 256 / 256);
    NextByte(v / 256 / 256 / 256, q, r / 256 / 256 / 256);
  }

  lemma NextByte(v: nat, high: nat, r: nat)
    requires v == 256 * high + r
    ensures v % 256 == r % 256 && v / 256 == high + r / 256
  {
  }

  /** Where the fields of a chunk are. The size field has 32 bits, and no more data than it says is written. */
  lemma ChunkFields(f: FlatChunk)
    requires f.kind < |ENCODE|
    ensures var b := ChunkBytes(f);
            && |b| == 13 + |f.data| % U32
            && b[0..1] == [EncodeChunkType(f.kind)] && b[1..5] == Word(f.id) && b[5..9] == Word(f.offset)
            && b[9..13] == Word(|f.data|) && b[13..] == f.data[..|f.data| % U32]
  {
    WordWraps(|f.data|);
    FiveFields([EncodeChunkType(f.kind)], Word(f.id), Word(f.offset), Word(SizeOf(f)), f.data[..SizeOf(f)]);
  }

  lemma FieldValues(f: FlatChunk, b: seq<Byte>)
    requires Fits(f) && b == ChunkBytes(f)
    ensures |b| == 13 + |f.data| && b[0..1] == [EncodeChunkType(f.kind)] && b[13..13 + |f.data|] == f.data
    ensures Value(b[1..5]) == f.id && Value(b[5..9]) == f.offset && Value(b[9..13]) == |f.data|
  {
    ChunkFields(f);
    WordValue(f.id);
    WordValue(f.offset);
    WordValue(|f.data|);
  }

  /** There is `f` at `pos`, up to `next`. (Stated of every position equal to `pos`, so that it is
      unfolded only where it is used.) */
  ghost predicate ReadsAs(file: seq<Byte>, pos: nat, f: FlatChunk, next: nat) {
    forall p: nat :: p == pos ==> ReadChunk(file, p) == Some((f, next))
  }

  lemma ParserReads(file: seq<Byte>, pos: nat, f: FlatChunk, next: nat)
    requires ReadsAs(file, pos, f, next)
    ensures ReadChunk(file, pos) == Some((f, next)) && Parser(file)(pos) == Some((f, next))
  {
  }

  lemma ReadFields(file: seq<Byte>, before: seq<Byte>, b: seq<Byte>, after: seq<Byte>, f: FlatChunk)
    requires file == before + b + after && f.kind < |ENCODE|
    requires |b| == 13 + |f.data| && b[0..1] == [EncodeChunkType(f.kind)] && b[13..13 + |f.data|] == f.data
    requires Value(b[1..5]) == f.id && Value(b[5..9]) == f.offset && Value(b[9..13]) == |f.data|
    ensures ReadsAs(file, |before|, Reread(f), |before| + |b|)
  {
    var pos := |before|;
    SliceInside(before, b, after, 0, 1);
    SliceInside(before, b, after, 1, 5);
    SliceInside(before, b, after, 5, 9);
    SliceInside(before, b, after, 9, 13);
    SliceInside(before, b, after, 13, 13 + |f.data|);
    assert file[pos] == file[pos..pos + 1][0];
  }

  lemma ReadWritten(file: seq<Byte>, before: seq<Byte>, f: FlatChunk, after: seq<Byte>)
    requires Fits(f) && file == before + ChunkBytes(f) + after
    ensures ReadsAs(file, |before|, Reread(f), |before| + |ChunkBytes(f)|)
  {
    FieldValues(f, ChunkBytes(f));
    ReadFields(file, before, ChunkBytes(f), after, f);
  }

  lemma {:induction false} ConcatSplit(parts: seq<seq<Byte>>, i: nat) returns (after: seq<Byte>)
    requires i < |parts|
    ensures Concat(parts) == Concat(parts[..i]) + parts[i] + after
    decreases |parts|
  {
    if i == |parts| - 1 {
      assert parts[..i + 1] == parts;
      after := [];
    } else {
      var rest := parts[..|parts| - 1];
      var inner := ConcatSplit(rest, i);
      assert rest[..i] == parts[..i];
      after := inner + parts[|parts| - 1];
    }
  }

  lemma ReadAt(list: seq<FlatChunk>, i: nat)
    requires Dense(list) && i < |list| && Fits(list[i])
    ensures ReadsAs(FileOf(list), PositionOf(list, i), Reread(list[i]), PositionOf(list, i + 1))
  {
    ReadPart(FileOf(list), Header(|list|), Parts(list), i, list[i]);
  }

  lemma ReadPart(file: seq<Byte>, head: seq<Byte>, parts: seq<seq<Byte>>, i: nat, f: FlatChunk)
    requires file == head + Concat(parts) && i < |parts| && Fits(f) && parts[i] == ChunkBytes(f)
    ensures ReadsAs(file, |head| + |Concat(parts[..i])|, Reread(f), |head| + |Concat(parts[..i + 1])|)
  {
    var after := ConcatSplit(parts, i);
    ConcatNext([], parts, i);
    var before := Concat(parts[..i]);
    Regroup(head, before, parts[i], after);
    ReadWritten(file, head + before, f, after);
  }

  lemma Regroup(head: seq<Byte>, before: seq<Byte>, b: seq<Byte>, after: seq<Byte>)
    ensures head + (before + b + after) == (head + before) + b + after
  {
  }

  /** The first `n` chunks as they come back. */
  ghost function RereadFirst(list: seq<FlatChunk>, n: nat): (r: seq<Option<FlatChunk>>)
    requires Dense(list) && n <= |list|
    ensures |r| == n && forall i :: 0 <= i < n ==> r[i] == Some(Reread(list[i]))
  {
    seq(n, i requires 0 <= i < n => Some(Reread(list[i])))
  }

  /** A parser that finds the next chunk at each of these positions. */
  ghost predicate FindsAll(parse: nat -> Option<(FlatChunk, nat)>, list: seq<FlatChunk>, upTo: nat)
    requires Dense(list) && upTo <= |list|
  {
    forall i: nat :: i < upTo ==> parse(PositionOf(list, i)) == Some((Reread(list[i]), PositionOf(list, i + 1)))
  }

  lemma {:induction false} ReadFirst(parse: nat -> Option<(FlatChunk, nat)>, list: seq<FlatChunk>, n: nat, count: nat)
    requires Dense(list) && n <= |list| && n <= count && FindsAll(parse, list, n)
    ensures ReadChunks(parse, 16, count, []) == ReadChunks(parse, PositionOf(list, n), count - n, RereadFirst(list, n))
    decreases n
  {
    if n == 0 {
      assert Parts(list)[..0] == [] && RereadFirst(list, 0) == [];
    } else {
      ReadFirst(parse, list, n - 1, count);
      assert AddFlatChunk(RereadFirst(list, n - 1), Reread(list[n - 1])) == RereadFirst(list, n);
    }
  }

  /** Reading what was written gives back every chunk: same id, offset and data, and the type that
      its encoding stands for. */
  lemma RoundTrip(list: seq<FlatChunk>, leftover: seq<Byte>)
    requires |leftover| == 4 && Dense(list) && |list| < U32 && forall k :: 0 <= k < |list| ==> Fits(list[k])
    ensures ReadArchive(FileOf(list), leftover) == Some(RereadFirst(list, |list|))
  {
    VersionsRead(VERSION, list, leftover);
  }

  lemma HeaderFields(a: seq<Byte>, b: seq<Byte>, c: seq<Byte>, d: seq<Byte>)
    requires |a| == 8 && |b| == 4 && |c| == 4
    ensures var all := a + b + c + d; |all| >= 16 && all[..8] == a && all[8..12] == b && all[12..16] == c
  {
  }

  /** A file as a writer of version `version` would leave it. */
  ghost function FileOfVersion(version: nat, list: seq<FlatChunk>): seq<Byte>
    requires Dense(list)
  {
    SIGNATURE + Word(version) + Word(|list|) + Concat(Parts(list))
  }

  /** Files of this version and of all earlier ones are read, and those of later ones are not. */
  lemma VersionsRead(version: nat, list: seq<FlatChunk>, leftover: seq<Byte>)
    requires |leftover| == 4 && Dense(list) && |list| < U32 && (forall k :: 0 <= k < |list| ==> Fits(list[k]))
    requires version < U32
    ensures ReadArchive(FileOfVersion(version, list), leftover) ==
            if version <= 24 then Some(RereadFirst(list, |list|)) else None
  {
    var file := FileOfVersion(version, list);
    WordValue(version);
    WordValue(|list|);
    HeaderFields(SIGNATURE, Word(version), Word(|list|), Concat(Parts(list)));
    if version <= 24 {
      ReadsParts(file, SIGNATURE + Word(version) + Word(|list|), list);
      ReadFirst(Parser(file), list, |list|, |list|);
    }
  }

  lemma ReadsParts(file: seq<Byte>, head: seq<Byte>, list: seq<FlatChunk>)
    requires Dense(list) && (forall k :: 0 <= k < |list| ==> Fits(list[k]))
    requires |head| == 16 && file == head + Concat(Parts(list))
    ensures forall i: nat :: i < |list| ==>
              Parser(file)(PositionOf(list, i)) == Some((Reread(list[i]), PositionOf(list, i + 1)))
  {
    forall i: nat | i < |list|
      ensures Parser(file)(PositionOf(list, i)) == Some((Reread(list[i]), PositionOf(list, i + 1)))
    {
      ReadPart(file, head, Parts(list), i, list[i]);
      ParserReads(file, PositionOf(list, i), Reread(list[i]), PositionOf(list, i + 1));
    }
  }

  /** A file that does not start with "egalito" and the byte 0xc4 is not read. */
  lemma OtherSignature(file: seq<Byte>, leftover: seq<Byte>)
    requires |leftover| == 4
    requires |file| < 8 || !(file[0] as char == 'e' && file[1] as char == 'g' && file[2] as char == 'a' &&
               file[3] as char == 'l' && file[4] as char == 'i' && file[5] as char == 't' && file[6] as char == 'o' &&
               file[7] == 0xc4)
    ensures ReadArchive(file, leftover) == None
  {
    assert |file| >= 8 ==> forall i :: 0 <= i < 8 ==> file[..8][i] == file[i];
  }

  lemma HeaderReads(list: seq<FlatChunk>)
    requires Dense(list) && |list| < U32
    ensures |FileOf(list)| >= 16 && GoodHeader(FileOf(list)) && Value(FileOf(list)[12..16]) == |list|
  {
    var file := FileOf(list);
    WordValue(VERSION);
    WordValue(|list|);
    HeaderFields(SIGNATURE, Word(VERSION), Word(|list|), Concat(Parts(list)));
  }

  // ---- Truncated files ----

  /** A chunk that the rest of the file still holds in full reads as before; one that is cut does not read. */
  lemma ReadTruncated(file: seq<Byte>, n: nat, pos: nat)
    requires n <= |file| && ReadChunk(file, pos).Some?
    ensures ReadChunk(file, pos).value.1 <= n ==> ReadChunk(file[..n], pos) == ReadChunk(file, pos)
    ensures n < ReadChunk(file, pos).value.1 ==> ReadChunk(file[..n], pos) == None
  {
    var short := file[..n];
    if pos + 13 <= n {
      assert short[pos + 9..pos + 13] == file[pos + 9..pos + 13];
      assert short[pos + 1..pos + 5] == file[pos + 1..pos + 5];
      assert short[pos + 5..pos + 9] == file[pos + 5..pos + 9];
      if ReadChunk(file, pos).value.1 <= n {
        var size := Value(file[pos + 9..pos + 13]);
        assert short[pos + 13..pos + 13 + size] == file[pos + 13..pos + 13 + size];
      }
    }
  }

  /** The chunk in which the file is cut. */
  lemma {:induction false} CutChunk(list: seq<FlatChunk>, n: nat, upTo: nat) returns (k: nat)
    requires Dense(list) && upTo <= |list| && 16 <= n < PositionOf(list, upTo)
    ensures k < upTo && PositionOf(list, k) <= n < PositionOf(list, k + 1)
    decreases upTo
  {
    assert Parts(list)[..0] == [];
    if PositionOf(list, upTo - 1) <= n {
      k := upTo - 1;
    } else {
      k := CutChunk(list, n, upTo - 1);
    }
  }

  lemma {:induction false} ConcatGrows(parts: seq<seq<Byte>>, i: nat, j: nat)
    requires i <= j <= |parts|
    ensures |Concat(parts[..i])| <= |Concat(parts[..j])|
    decreases j - i
  {
    if i < j {
      ConcatGrows(parts, i, j - 1);
      ConcatNext([], parts, j - 1);
    }
  }

  lemma CutChunkFails(list: seq<FlatChunk>, n: nat)
    requires Dense(list) && (forall k :: 0 <= k < |list| ==> Fits(list[k])) && 16 <= n < |FileOf(list)|
    ensures ReadChunks(Parser(FileOf(list)[..n]), 16, |list|, []) == None
  {
    var parse := Parser(FileOf(list)[..n]);
    assert Parts(list)[..|list|] == Parts(list);
    var k := CutChunk(list, n, |list|);
    forall i: nat | i < k ensures parse(PositionOf(list, i)) == Some((Reread(list[i]), PositionOf(list, i + 1))) {
      ConcatGrows(Parts(list), i + 1, k);
      ReadCut(list, n, i);
    }
    ReadFirst(parse, list, k, |list|);
    ReadCut(list, n, k);
  }

  lemma ReadCut(list: seq<FlatChunk>, n: nat, i: nat)
    requires Dense(list) && i < |list| && Fits(list[i]) && n <= |FileOf(list)|
    ensures Parser(FileOf(list)[..n])(PositionOf(list, i)) ==
            if PositionOf(list, i + 1) <= n then Some((Reread(list[i]), PositionOf(list, i + 1))) else None
  {
    var pos, next := PositionOf(list, i), PositionOf(list, i + 1);
    ReadAt(list, i);
    ParserReads(FileOf(list), pos, Reread(list[i]), next);
    ReadTruncated(FileOf(list), n, pos);
  }

  predicate AllZero(b: seq<Byte>) {
    forall i :: 0 <= i < |b| ==> b[i] == 0
  }

  /** The count of a file cut inside the count: nought if all bytes of it are, the ones that are
      there and the ones that were left over. */
  lemma CutCount(list: seq<FlatChunk>, n: nat, leftover: seq<Byte>)
    requires Dense(list) && |list| < U32 && 12 <= n < 16 && |leftover| == 4 && n <= |FileOf(list)|
    ensures CountIn(FileOf(list)[..n], leftover) == 0 <==> AllZero(Word(|list|)[..n - 12] + leftover[n - 12..])
  {
    var short, kept := FileOf(list)[..n], Word(|list|)[..n - 12];
    assert short[12..] == kept;
    var bytes: seq<Byte> := kept + leftover[n - 12..];
    assert |bytes| == 4 && CountIn(short, leftover) == Value(bytes);
    assert Value(bytes) == 0 <==> bytes[0] == 0 && bytes[1] == 0 && bytes[2] == 0 && bytes[3] == 0;
  }

  /** Every proper prefix of an archive file is rejected, with one exception: cut inside the chunk
      count, it passes as an empty archive when the count bytes that are there are all zero and the
      uninitialised ones happen to be. */
  lemma TruncatedIsRejected(list: seq<FlatChunk>, n: nat, leftover: seq<Byte>)
    requires Dense(list) && |list| < U32 && (forall k :: 0 <= k < |list| ==> Fits(list[k]))
    requires n < |FileOf(list)| && |leftover| == 4
    ensures ReadArchive(FileOf(list)[..n], leftover) == None <==>
            !(12 <= n < 16 && AllZero(Word(|list|)[..n - 12] + leftover[n - 12..]))
  {
    var file := FileOf(list);
    var short := file[..n];
    HeaderReads(list);
    if n >= 12 {
      assert short[..8] == file[..8] && short[8..12] == file[8..12];
    }
    if n >= 16 {
      assert short[12..16] == file[12..16];
      CutChunkFails(list, n);
    } else if n >= 12 {
      CutCount(list, n, leftover);
      assert Parser(short)(n) == None;
    }
  }

  // ---- Writing and reading back ----

  /** `out` is `list` with other offsets. */
  ghost predicate SameButOffsets(list: seq<FlatChunk>, out: seq<FlatChunk>) {
    |out| == |list| && forall i :: 0 <= i < |list| ==> out[i] == list[i].(offset := out[i].offset)
  }

  lemma {:induction false} SameSum(list: seq<FlatChunk>, out: seq<FlatChunk>)
    requires SameButOffsets(list, out)
    ensures OffsetSum(out) == OffsetSum(list)
    decreases |list|
  {
    if list != [] {
      SameSum(list[..|list| - 1], out[..|out| - 1]);
    }
  }

  /** The offset recorded for chunk `i` is, in 32 bits, its position in the file plus `i`. */
  lemma RecordedOffset(list: seq<FlatChunk>, out: seq<FlatChunk>, i: nat)
    requires Dense(list) && SameButOffsets(list, out) && i < |list| && out[i].offset == OffsetAt(list, i)
    ensures Dense(out) && out[i].offset == (PositionOf(out, i) + i) % U32
  {
    assert Dense(out);
    SameSum(list[..i], out[..i]);
    OffsetIsPositionPlusIndex(out, i);
  }

  /** What comes back of `list`: ids and data as they were, the types that their encoding stands for,
      and as offset of chunk `i` its position in the file plus `i`, in 32 bits. */
  ghost predicate ComesBack(list: seq<FlatChunk>, file: seq<FlatChunk>, archive: seq<Option<FlatChunk>>)
    requires Dense(list) && Dense(file)
  {
    && |file| == |list| && |archive| == |list|
    && forall i :: 0 <= i < |list| ==>
         archive[i] == Some(list[i].(kind := Survives(list[i].kind), offset := (PositionOf(file, i) + i) % U32))
  }

  /** `assignOffsets`, `writeData` and `read`. */
  method WriteAndRead(list: seq<FlatChunk>, leftover: seq<Byte>)
    returns (file: seq<Byte>, written: seq<FlatChunk>, archive: Option<seq<Option<FlatChunk>>>)
    requires |leftover| == 4 && Dense(list) && |list| < U32 && forall k :: 0 <= k < |list| ==> |list[k].data| < U32
    ensures Dense(written) && file == FileOf(written)
    ensures archive.Some? && ComesBack(list, written, archive.value)
  {
    written := AssignOffsets(list);
    assert SameButOffsets(list, written) && Dense(written);
    assert forall k :: 0 <= k < |written| ==> Fits(written[k]);
    file := WriteData(written);
    archive := Read(file, leftover);
    RoundTrip(written, leftover);
    forall i | 0 <= i < |list| ensures written[i].offset == (PositionOf(written, i) + i) % U32 {
      RecordedOffset(list, written, i);
    }
  }
}
