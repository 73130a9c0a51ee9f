/** Cached code that is copied elsewhere and patched, src/chunk/cache.cpp. */
module ChunkCache {
  import opened Options
  import opened Archive

  /** An instruction: its address, its bytes, and where in them its 32-bit displacement to data is,
      if it has one. */
  datatype Instruction = Instruction(address: nat, bytes: seq<Byte>, disp: Option<nat>)

  predicate Encodable(i: Instruction) {
    i.disp.Some? ==> i.disp.value + 4 <= |i.bytes|
  }

  /** The code of a chunk, instruction after instruction. */
  function Code(instrs: seq<Instruction>): seq<Byte> {
    if instrs == [] then [] else Code(instrs[..|instrs| - 1]) + instrs[|instrs| - 1].bytes
  }

  /** The instructions of all blocks. */
  function Flatten(blocks: seq<seq<Instruction>>): seq<Instruction> {
    if blocks == [] then [] else Flatten(blocks[..|blocks| - 1]) + blocks[|blocks| - 1]
  }

  /** The place recorded for one instruction, if any. */
  function Place(address: nat, i: Instruction): seq<int> {
    if i.disp.Some? then [i.address + i.disp.value - address] else []
  }

  /** The places that `make` records: by address, relative to that of the chunk. */
  function Recorded(address: nat, instrs: seq<Instruction>): seq<int> {
    if instrs == [] then []
    else
      Recorded(address, instrs[..|instrs| - 1]) + Place(address, instrs[|instrs| - 1])
  }

  /** `data` and `fixups` are those of `instrs`. (Stated of every sequence equal to `instrs`, so that it
      is unfolded only where it is used.) */
  ghost predicate Made(address: nat, instrs: seq<Instruction>, data: seq<Byte>, fixups: seq<int>) {
    forall l: seq<Instruction> :: l == instrs ==> data == Code(l) && fixups == Recorded(address, l)
  }

  lemma MadeNext(address: nat, instrs: seq<Instruction>, i: Instruction, data: seq<Byte>, fixups: seq<int>)
    requires Made(address, instrs, data, fixups)
    ensures Made(address, instrs + [i], data + i.bytes, fixups + Place(address, i))
  {
    assert data == Code(instrs);
    assert (instrs + [i])[..|instrs|] == instrs;
  }

  /** `make`. */
  method Make(address: nat, blocks: seq<seq<Instruction>>) returns (data: seq<Byte>, fixups: seq<int>)
    ensures data == Code(Flatten(blocks)) && fixups == Recorded(address, Flatten(blocks))
  {
    data, fixups := [], [];
    ghost var done: seq<Instruction> := [];
    for b := 0 to |blocks|
      invariant done == Flatten(blocks[..b]) && Made(address, done, data, fixups)
    {
      assert blocks[..b + 1][..b] == blocks[..b];
      data, fixups := MakeBlock(address, done, blocks[b], data, fixups);
      done := done + blocks[b];
    }
    assert blocks[..|blocks|] == blocks;
    assert data == Code(done);
  }

  /** The inner loop, over the instructions of a block. */
  method MakeBlock(address: nat, ghost before: seq<Instruction>, block: seq<Instruction>, data0: seq<Byte>,
                   fixups0: seq<int>)
    returns (data: seq<Byte>, fixups: seq<int>)
    requires Made(address, before, data0, fixups0)
    ensures Made(address, before + block, data, fixups)
  {
    data, fixups := data0, fixups0;
    ghost var done := before;
    assert before + block[..0] == before;
    for i := 0 to |block|
      invariant done == before + block[..i] && Made(address, done, data, fixups)
    {
      MadeNext(address, done, block[i], data, fixups);
      data := data + block[i].bytes;
      if block[i].disp.Some? {
        fixups := fixups + [block[i].address + block[i].disp.value - address];
      } else {
        assert fixups + [] == fixups;
      }
      done := done + [block[i]];
      assert block[..i + 1] == block[..i] + [block[i]];
    }
    assert block[..|block|] == block;
  }

  // ---- Where displacements are ----

  /** The places of the displacements in the code. */
  function Places(instrs: seq<Instruction>): (places: seq<nat>)
  {
    if instrs == [] then []
    else
      var init, last := instrs[..|instrs| - 1], instrs[|instrs| - 1];
      Places(init) + (if last.disp.Some? then [|Code(init)| + last.disp.value] else [])
  }

  /** Instructions with a displacement are at the address that their place in the code gives them. */
  ghost predicate InPlace(address: nat, instrs: seq<Instruction>) {
    forall k: nat :: k < |instrs| ==> InPlaceAt(address, instrs, k)
  }

  ghost predicate InPlaceAt(address: nat, instrs: seq<Instruction>, k: nat)
    requires k < |instrs|
  {
    instrs[k].disp.Some? ==> instrs[k].address == address + |Code(instrs[..k])|
  }

  /** The recorded places are those of the displacements exactly when these instructions are in place. */
  lemma {:induction false} RecordedExactly(address: nat, instrs: seq<Instruction>)
    ensures |Recorded(address, instrs)| == |Places(instrs)|
    ensures Recorded(address, instrs) == Places(instrs) <==> InPlace(address, instrs)
    decreases |instrs|
  {
    if instrs != [] {
      var n := |instrs| - 1;
      var init := instrs[..n];
      RecordedExactly(address, init);
      InPlaceLast(address, instrs);
      var r, p := Recorded(address, init), Places(init);
      if instrs[n].disp.Some? {
        LastDecides(r, instrs[n].address + instrs[n].disp.value - address, p, |Code(init)| + instrs[n].disp.value);
      } else {
        assert Recorded(address, instrs) == r + [] == r && Places(instrs) == p + [] == p;
      }
    }
  }

  lemma InPlaceLast(address: nat, instrs: seq<Instruction>)
    requires instrs != []
    ensures InPlace(address, instrs) <==>
            InPlace(address, instrs[..|instrs| - 1]) && InPlaceAt(address, instrs, |instrs| - 1)
  {
    var n := |instrs| - 1;
    forall k: nat | k < n ensures InPlaceAt(address, instrs, k) <==> InPlaceAt(address, instrs[..n], k) {
      assert instrs[..n][..k] == instrs[..k];
    }
  }

  lemma LastDecides(r: seq<int>, x: int, p: seq<nat>, y: nat)
    requires |r| == |p|
    ensures r + [x] == p + [y] <==> r == p && x == y
  {
    assert (r + [x])[..|r|] == r && (p + [y])[..|p|] == p;
    assert (r + [x])[|r|] == x && (p + [y])[|p|] == y;
  }

  /** The words do not overlap and come in order, all within the code. */
  ghost predicate Apart(fixups: seq<nat>, size: nat) {
    && (forall i :: 0 <= i < |fixups| ==> fixups[i] + 4 <= size)
    && forall i, j :: 0 <= i < j < |fixups| ==> fixups[i] + 4 <= fixups[j]
  }

  lemma {:induction false} PlacesApart(instrs: seq<Instruction>)
    requires forall k :: 0 <= k < |instrs| ==> Encodable(instrs[k])
    ensures Apart(Places(instrs), |Code(instrs)|)
    decreases |instrs|
  {
    if instrs != [] {
      PlacesApart(instrs[..|instrs| - 1]);
    }
  }

  // ---- Where the code of an instruction is ----

  /** The number of bytes of instructions, added up from the front. */
  function Bytes(instrs: seq<Instruction>): nat {
    if instrs == [] then 0 else |instrs[0].bytes| + Bytes(instrs[1..])
  }

  function BytesOfAll(blocks: seq<seq<Instruction>>): nat {
    if blocks == [] then 0 else Bytes(blocks[0]) + BytesOfAll(blocks[1..])
  }

  lemma {:induction false} CodeSize(instrs: seq<Instruction>)
    ensures |Code(instrs)| == Bytes(instrs)
    decreases |instrs|
  {
    if instrs != [] {
      CodeSize(instrs[..|instrs| - 1]);
      BytesConcat(instrs[..|instrs| - 1], [instrs[|instrs| - 1]]);
      assert instrs == instrs[..|instrs| - 1] + [instrs[|instrs| - 1]];
      assert [instrs[|instrs| - 1]][1..] == [];
    }
  }

  lemma {:induction false} BytesConcat(a: seq<Instruction>, b: seq<Instruction>)
    ensures Bytes(a + b) == Bytes(a) + Bytes(b)
    decreases |a|
  {
    if a == [] {
      assert a + b == b;
    } else {
      assert (a + b)[1..] == a[1..] + b;
      BytesConcat(a[1..], b);
    }
  }

  lemma Regroup3<T>(x: seq<T>, y: seq<T>, z: seq<T>)
    ensures x + y + z == x + (y + z)
  {
  }

  lemma FlattenLast(blocks: seq<seq<Instruction>>, block: seq<Instruction>)
    ensures Flatten(blocks + [block]) == Flatten(blocks) + block
  {
    assert (blocks + [block])[..|blocks|] == blocks;
  }

  lemma {:induction false} FlattenConcat(a: seq<seq<Instruction>>, b: seq<seq<Instruction>>)
    ensures Flatten(a + b) == Flatten(a) + Flatten(b)
    decreases |b|
  {
    if b == [] {
      assert a + b == a;
    } else {
      var init, last := b[..|b| - 1], b[|b| - 1];
      assert a + b == (a + init) + [last] && b == init + [last];
      FlattenLast(a + init, last);
      FlattenLast(init, last);
      FlattenConcat(a, init);
      Regroup3(Flatten(a), Flatten(init), last);
    }
  }

  lemma FlattenOne(block: seq<Instruction>)
    ensures Flatten([block]) == block
  {
    FlattenLast([], block);
    assert [] + [block] == [block];
  }

  lemma {:induction false} FlattenSize(blocks: seq<seq<Instruction>>)
    ensures Bytes(Flatten(blocks)) == BytesOfAll(blocks)
    decreases |blocks|
  {
    if blocks != [] {
      assert blocks == [blocks[0]] + blocks[1..];
      FlattenConcat([blocks[0]], blocks[1..]);
      FlattenOne(blocks[0]);
      BytesConcat(blocks[0], Flatten(blocks[1..]));
      FlattenSize(blocks[1..]);
    }
  }

  lemma CodeLast(instrs: seq<Instruction>, i: Instruction)
    ensures Code(instrs + [i]) == Code(instrs) + i.bytes
  {
    assert (instrs + [i])[..|instrs|] == instrs;
  }

  lemma {:induction false} CodeConcat(a: seq<Instruction>, b: seq<Instruction>)
    ensures Code(a + b) == Code(a) + Code(b)
    decreases |b|
  {
    if b == [] {
      assert a + b == a;
    } else {
      var init, last := b[..|b| - 1], b[|b| - 1];
      assert a + b == (a + init) + [last] && b == init + [last];
      CodeLast(a + init, last);
      CodeLast(init, last);
      CodeConcat(a, init);
      Regroup3(Code(a), Code(init), last.bytes);
    }
  }

  /** The bytes of instruction `i` of block `b` come after those of all earlier blocks and of the
      earlier instructions of its block. */
  lemma CodeAt(blocks: seq<seq<Instruction>>, b: nat, i: nat)
    requires b < |blocks| && i < |blocks[b]|
    ensures var start, code := BytesOfAll(blocks[..b]) + Bytes(blocks[b][..i]), Code(Flatten(blocks));
            && start + |blocks[b][i].bytes| <= |code|
            && code[start..start + |blocks[b][i].bytes|] == blocks[b][i].bytes
    ensures |Code(Flatten(blocks))| == BytesOfAll(blocks)
  {
    var before, block, after := Flatten(blocks[..b]), blocks[b], Flatten(blocks[b + 1..]);
    SplitAt(blocks, b);
    FlattenThree(blocks[..b], block, blocks[b + 1..]);
    InstructionAt(before, block, after, i);
    FlattenSize(blocks[..b]);
    FlattenSize(blocks);
    CodeSize(Flatten(blocks));
  }

  lemma SplitAt<T>(s: seq<T>, i: nat)
    requires i < |s|
    ensures s == s[..i] + [s[i]] + s[i + 1..]
  {
  }

  lemma FlattenThree(before: seq<seq<Instruction>>, block: seq<Instruction>, after: seq<seq<Instruction>>)
    ensures Flatten(before + [block] + after) == Flatten(before) + block + Flatten(after)
  {
    FlattenConcat(before + [block], after);
    FlattenLast(before, block);
  }

  lemma InstructionAt(before: seq<Instruction>, block: seq<Instruction>, after: seq<Instruction>, i: nat)
    requires i < |block|
    ensures var start, code := Bytes(before) + Bytes(block[..i]), Code(before + block + after);
            && start + |block[i].bytes| <= |code|
            && code[start..start + |block[i].bytes|] == block[i].bytes
  {
    var init, rest := before + block[..i], block[i + 1..] + after;
    assert before + block + after == init + [block[i]] + rest;
    CodeConcat(init + [block[i]], rest);
    CodeLast(init, block[i]);
    CodeSize(init);
    BytesConcat(before, block[..i]);
  }

  // ---- Copying ----

  /** The new value of the word at `f`, in 32 bits. */
  function Moved(data: seq<Byte>, f: nat, delta: int): nat
    requires f + 4 <= |data|
  {
    (Value(data[f..f + 4]) + delta) % U32
  }

  ghost predicate InWord(p: nat, f: nat) {
    f <= p < f + 4
  }

  ghost predicate OutsideWords(p: nat, places: seq<nat>) {
    forall i :: 0 <= i < |places| ==> !InWord(p, places[i])
  }

  /** `out` is `data` with these words at these places, and nothing else changed. */
  ghost predicate Overlaid(data: seq<Byte>, places: seq<nat>, words: seq<seq<Byte>>, out: seq<Byte>)
    requires Apart(places, |data|)
  {
    && |out| == |data| && |words| == |places|
    && (forall i :: 0 <= i < |places| ==> out[places[i]..places[i] + 4] == words[i])
    && (forall p: nat :: p < |data| && OutsideWords(p, places) ==> out[p] == data[p])
  }

  ghost predicate InRange(fixups: seq<nat>, size: nat) {
    forall i :: 0 <= i < |fixups| ==> fixups[i] + 4 <= size
  }

  /** The words that belong there after the move. */
  ghost function NewWords(data: seq<Byte>, fixups: seq<nat>, delta: int): (words: seq<seq<Byte>>)
    requires InRange(fixups, |data|)
    ensures |words| == |fixups| && AllWords(words)
    ensures forall i :: 0 <= i < |fixups| ==> words[i] == Word(Moved(data, fixups[i], delta))
  {
    seq(|fixups|, i requires 0 <= i < |fixups| => Word(Moved(data, fixups[i], delta)))
  }

  function Patched(out: seq<Byte>, f: nat, w: seq<Byte>): seq<Byte>
    requires f + 4 <= |out| && |w| == 4
  {
    out[..f] + w + out[f + 4..]
  }

  lemma PatchOverlays(data: seq<Byte>, places: seq<nat>, words: seq<seq<Byte>>, out: seq<Byte>, k: nat, w: seq<Byte>)
    requires Apart(places, |data|) && k < |places| && |w| == 4
    requires Overlaid(data, places[..k], words, out)
    ensures Overlaid(data, places[..k + 1], words + [w], Patched(out, places[k], w))
  {
    var f, first := places[k], places[..k + 1];
    var out', all := Patched(out, f, w), words + [w];
    forall i | 0 <= i < |first| ensures out'[first[i]..first[i] + 4] == all[i] {
      if i < k {
        assert first[i] == places[..k][i] && first[i] + 4 <= f;
        assert out'[first[i]..first[i] + 4] == out[first[i]..first[i] + 4];
      }
    }
    forall p: nat | p < |data| && OutsideWords(p, first) ensures out'[p] == data[p] {
      assert !InWord(p, first[k]);
      assert forall i :: 0 <= i < k ==> places[..k][i] == first[i];
    }
  }

  /** The words at the first `n` places replaced one after the other. */
  ghost function Fixed(data: seq<Byte>, places: seq<nat>, words: seq<seq<Byte>>, n: nat): (out: seq<Byte>)
    requires InRange(places, |data|) && |words| == |places| && AllWords(words) && n <= |places|
    ensures |out| == |data|
  {
    if n == 0 then data else Patched(Fixed(data, places, words, n - 1), places[n - 1], words[n - 1])
  }

  ghost predicate AllWords(words: seq<seq<Byte>>) {
    forall i :: 0 <= i < |words| ==> |words[i]| == 4
  }

  /** Where the places do not overlap, the words are there in the end, and nothing else changes.
      `first` are the first `n` places, and `done` their words. */
  lemma {:induction false} FixedOverlays(data: seq<Byte>, places: seq<nat>, words: seq<seq<Byte>>, n: nat,
                                         first: seq<nat>, done: seq<seq<Byte>>)
    requires Apart(places, |data|) && |words| == |places| && AllWords(words) && n <= |places|
    requires first == places[..n] && done == words[..n]
    ensures Overlaid(data, first, done, Fixed(data, places, words, n))
    decreases n
  {
    if n > 0 {
      FixedOverlays(data, places, words, n - 1, places[..n - 1], words[..n - 1]);
      PatchOverlays(data, places, words[..n - 1], Fixed(data, places, words, n - 1), n - 1, words[n - 1]);
      assert done == words[..n - 1] + [words[n - 1]];
    }
  }

  /** `copyAndFix` into memory at `base`: the words at the fixups are replaced one after the other by
      the words of `data`, moved. What is behind the copy stays. */
  method CopyAndFix(data: seq<Byte>, fixups: seq<nat>, address: nat, output: array<Byte>, base: nat)
    requires |data| <= output.Length && InRange(fixups, |data|)
    modifies output
    ensures output[..|data|] == Fixed(data, fixups, NewWords(data, fixups, address - base), |fixups|)
    ensures output[|data|..] == old(output[|data|..])
    ensures Apart(fixups, |data|) ==>
              Overlaid(data, fixups, NewWords(data, fixups, address - base), output[..|data|])
  {
    CopyData(data, output);
    ghost var words := NewWords(data, fixups, address - base);
    for i := 0 to |fixups|
      invariant output[..|data|] == Fixed(data, fixups, words, i)
      invariant output[|data|..] == old(output[|data|..])
    {
      FixOne(data, fixups[i], address, output, base);
    }
    if Apart(fixups, |data|) {
      FixedOverlays(data, fixups, words, |fixups|, fixups, words);
    }
  }

  /** The body of its loop. */
  method FixOne(data: seq<Byte>, f: nat, address: nat, output: array<Byte>, base: nat)
    requires |data| <= output.Length && f + 4 <= |data|
    modifies output
    ensures output[..|data|] == Patched(old(output[..|data|]), f, Word(Moved(data, f, address - base)))
    ensures output[|data|..] == old(output[|data|..])
  {
    WriteWord(output, |data|, f, Word(Moved(data, f, address - base)));
  }

  /** The `memcpy`. */
  method CopyData(data: seq<Byte>, output: array<Byte>)
    requires |data| <= output.Length
    modifies output
    ensures output[..|data|] == data && output[|data|..] == old(output[|data|..])
  {
    for i := 0 to |data|
      invariant forall k :: 0 <= k < i ==> output[k] == data[k]
      invariant forall k :: |data| <= k < output.Length ==> output[k] == old(output[k])
    {
      output[i] := data[i];
    }
  }

  method WriteWord(output: array<Byte>, size: nat, f: nat, w: seq<Byte>)
    requires f + 4 <= size <= output.Length && |w| == 4
    modifies output
    ensures output[..size] == Patched(old(output[..size]), f, w) && output[size..] == old(output[size..])
  {
    output[f], output[f + 1], output[f + 2], output[f + 3] := w[0], w[1], w[2], w[3];
  }

  // ---- Targets ----

  /** A 32-bit word as a displacement. */
  function Signed(v: nat): int {
    if v < 0x8000_0000 then v else v - U32
  }

  lemma SignedMoved(v: nat, delta: int)
    requires v < U32
    ensures Signed((v + delta) % U32) == Signed(v) + delta <==> -0x8000_0000 <= Signed(v) + delta < 0x8000_0000
  {
    var w := (v + delta) % U32;
    assert -0x8000_0000 <= Signed(w) < 0x8000_0000;
    if -0x8000_0000 <= Signed(v) + delta < 0x8000_0000 {
      var q := (v + delta) / U32;
      assert v + delta == q * U32 + w;
    }
  }

  /** A displacement refers to the same target from the copy as from the original exactly when the
      distance that it then has fits in 32 bits. `after` is where the instruction ends in the code. */
  lemma TargetKept(data: seq<Byte>, fixups: seq<nat>, address: nat, base: nat, out: seq<Byte>, i: nat, after: nat)
    requires Apart(fixups, |data|) && i < |fixups| &&
               Overlaid(data, fixups, NewWords(data, fixups, address - base), out)
    ensures var was, now := Value(data[fixups[i]..fixups[i] + 4]), Value(out[fixups[i]..fixups[i] + 4]);
            base + after + Signed(now) == address + after + Signed(was) <==>
            -0x8000_0000 <= Signed(was) + address - base < 0x8000_0000
  {
    var was := Value(data[fixups[i]..fixups[i] + 4]);
    WordValue(Moved(data, fixups[i], address - base));
    ValueFits(data[fixups[i]..fixups[i] + 4]);
    SignedMoved(was, address - base);
  }

  lemma ValueFits(b: seq<Byte>)
    requires |b| == 4
    ensures Value(b) < U32
  {
  }

  /** A copy 4 GB further on: the displacement 0 then refers to 4 GB after its target. */
  lemma FarCopyMisses(data: seq<Byte>, address: nat, out: seq<Byte>, after: nat)
    requires data == [0, 0, 0, 0] && Overlaid(data, [0], NewWords(data, [0], address - (address + U32)), out)
    ensures address + U32 + after + Signed(Value(out[0..4])) != address + after + Signed(Value(data[0..4]))
  {
    TargetKept(data, [0], address, address + U32, out, 0, after);
  }

  // ---- From the chunk to the copy ----

  /** Where the displacement of instruction `k` is. */
  function PlaceAt(instrs: seq<Instruction>, k: nat): nat
    requires k < |instrs| && instrs[k].disp.Some?
  {
    |Code(instrs[..k])| + instrs[k].disp.value
  }

  lemma {:induction false} PlaceIsListed(instrs: seq<Instruction>, k: nat) returns (i: nat)
    requires k < |instrs| && instrs[k].disp.Some?
    ensures i < |Places(instrs)| && Places(instrs)[i] == PlaceAt(instrs, k)
    decreases |instrs|
  {
    var init := instrs[..|instrs| - 1];
    if k < |init| {
      i := PlaceIsListed(init, k);
      assert init[..k] == instrs[..k];
    } else {
      i := |Places(init)|;
    }
  }

  lemma {:induction false} ListedIsPlace(instrs: seq<Instruction>, i: nat) returns (k: nat)
    requires i < |Places(instrs)|
    ensures k < |instrs| && instrs[k].disp.Some? && Places(instrs)[i] == PlaceAt(instrs, k)
    decreases |instrs|
  {
    var init := instrs[..|instrs| - 1];
    if i < |Places(init)| {
      k := ListedIsPlace(init, i);
      assert init[..k] == instrs[..k];
    } else {
      k := |init|;
    }
  }

  /** The address that a displacement at `f` refers to, in code that is at `address`, of an
      instruction that ends at `after`. */
  ghost function Target(code: seq<Byte>, address: nat, f: nat, after: nat): int
    requires f + 4 <= |code|
  {
    address + after + Signed(Value(code[f..f + 4]))
  }

  /** In `out` at `base` it refers to what it refers to in `code` at `address` exactly when the
      distance then fits in 32 bits. */
  ghost predicate KeepsTarget(code: seq<Byte>, address: nat, out: seq<Byte>, base: nat, f: nat, after: nat)
    requires f + 4 <= |code| == |out|
  {
    var was := Target(code, address, f, after);
    Target(out, base, f, after) == was <==> -0x8000_0000 <= was - (base + after) < 0x8000_0000
  }

  lemma TargetAtPlace(data: seq<Byte>, fixups: seq<nat>, address: nat, base: nat, out: seq<Byte>, i: nat, after: nat)
    requires Apart(fixups, |data|) && i < |fixups|
    requires Overlaid(data, fixups, NewWords(data, fixups, address - base), out)
    ensures fixups[i] + 4 <= |data| == |out| && KeepsTarget(data, address, out, base, fixups[i], after)
  {
    TargetKept(data, fixups, address, base, out, i, after);
  }

  lemma TargetAtInstruction(instrs: seq<Instruction>, address: nat, data: seq<Byte>, places: seq<nat>, out: seq<Byte>,
                            base: nat, k: nat)
    requires places == Places(instrs) && Apart(places, |data|) && k < |instrs| && instrs[k].disp.Some?
    requires Overlaid(data, places, NewWords(data, places, address - base), out)
    ensures PlaceAt(instrs, k) + 4 <= |data| == |out|
    ensures KeepsTarget(data, address, out, base, PlaceAt(instrs, k), |Code(instrs[..k + 1])|)
  {
    var i := PlaceIsListed(instrs, k);
    TargetAtPlace(data, places, address, base, out, i, |Code(instrs[..k + 1])|);
  }

  /** `make` and `copyAndFix`: the copied code differs from that of the chunk in the displacements only,
      and every instruction refers to the same address exactly when the new distance fits. */
  method CopyChunk(address: nat, blocks: seq<seq<Instruction>>, output: array<Byte>, base: nat)
    requires forall i :: 0 <= i < |Flatten(blocks)| ==> Encodable(Flatten(blocks)[i])
    requires InPlace(address, Flatten(blocks)) && |Code(Flatten(blocks))| <= output.Length
    modifies output
    ensures var instrs := Flatten(blocks); var size := |Code(instrs)|;
            && output[size..] == old(output[size..]) && Apart(Places(instrs), size)
            && (forall p: nat :: p < size && OutsideWords(p, Places(instrs)) ==> output[p] == Code(instrs)[p])
            && (forall k: nat :: k < |instrs| && instrs[k].disp.Some? ==>
                  && PlaceAt(instrs, k) + 4 <= size
                  && KeepsTarget(Code(instrs), address, output[..size], base, PlaceAt(instrs, k),
                                 |Code(instrs[..k + 1])|))
  {
    var data, fixups := Make(address, blocks);
    ghost var instrs := Flatten(blocks);
    PlacesApart(instrs);
    RecordedExactly(address, instrs);
    CopyAndFix(data, fixups, address, output, base);
    forall k: nat | k < |instrs| && instrs[k].disp.Some?
      ensures PlaceAt(instrs, k) + 4 <= |data|
      ensures KeepsTarget(data, address, output[..|data|], base, PlaceAt(instrs, k), |Code(instrs[..k + 1])|)
    {
      TargetAtInstruction(instrs, address, data, fixups, output[..|data|], base, k);
    }
  }
}
