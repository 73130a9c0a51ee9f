/** Why `killMap` of `ReachingDef` records exactly the conflicts: every declaration keeps the invariant. */
module KillProof {
  import opened Graphs
  import opened Footprints
  import opened KillMap

  /** What one more access of `j` adds. */
  lemma OneMore(fps: seq<Footprint>, j: nat, d: nat, i: nat, r: nat)
    requires j < |fps| && fps[j].Accesses? && d < |fps[j].list|
    ensures Wrote(fps, j, d + 1, i, r) <==> Wrote(fps, j, d, i, r) || (i == j && fps[j].list[d] == Write(r))
    ensures HasRead(fps, j, d + 1, i, r) <==> HasRead(fps, j, d, i, r) || (i == j && fps[j].list[d] == Read(r))
  {
    var list := fps[j].list;
    assert list[..d + 1] == list[..d] + [list[d]];
  }

  /** Growing `kill[j]` keeps what is behind a writer. */
  lemma BehindKept(m: Maps, m': Maps, i: nat, r: nat)
    requires Backward(m.kill) && Backward(m'.kill) && |m.kill| == |m'.kill|
    requires forall k :: 0 <= k < |m.kill| ==> m.kill[k] <= m'.kill[k]
    requires r in m.lastWrite && r in m'.lastWrite && m'.lastWrite[r] == m.lastWrite[r] && BehindWriter(m, i, r)
    ensures BehindWriter(m', i, r)
  {
    if m.lastWrite[r] != i {
      ClosureMonotone(m.kill, m'.kill, m.lastWrite[r], i);
    }
  }

  // ---- setRegRead ----

  lemma ReadShape(fps: seq<Footprint>, m: Maps, j: nat, d: nat, r: nat)
    requires Inv(fps, m, j, d)
    ensures Shape(fps, ReadStep(m, r, j), j)
    ensures forall k :: 0 <= k < |m.kill| ==> m.kill[k] <= ReadStep(m, r, j).kill[k]
  {
    if r in m.lastWrite {
      assert Wrote(fps, j, d, m.lastWrite[r], r);
    }
  }

  lemma ReadHonest(fps: seq<Footprint>, m: Maps, j: nat, d: nat, r: nat)
    requires Inv(fps, m, j, d) && fps[j].Accesses? && d < |fps[j].list| && fps[j].list[d] == Read(r)
    ensures Honest(fps, ReadStep(m, r, j), j, d + 1)
  {
    var m' := ReadStep(m, r, j);
    forall q | q in m'.lastWrite ensures Wrote(fps, j, d + 1, m'.lastWrite[q], q) {
      OneMore(fps, j, d, m.lastWrite[q], q);
    }
    forall q, i | i in m'.ReadersOf(q) ensures HasRead(fps, j, d + 1, i, q) {
      OneMore(fps, j, d, i, q);
    }
    forall a, b | 0 <= a < |m'.kill| && b in m'.kill[a] && a < |fps| && b < |fps| ensures Conflict(fps[b], fps[a]) {
      if b !in m.kill[a] {
        assert a == j && b == m.lastWrite[r] && Wrote(fps, j, d, b, r);
        assert Read(r) in fps[j].list;
        assert fps[b].Barrier? || Clash(fps[b], fps[a], r);
      }
    }
  }

  lemma ReadTracked(fps: seq<Footprint>, m: Maps, j: nat, d: nat, r: nat)
    requires Inv(fps, m, j, d) && fps[j].Accesses? && d < |fps[j].list| && fps[j].list[d] == Read(r)
    requires Shape(fps, ReadStep(m, r, j), j)
    ensures Tracked(fps, ReadStep(m, r, j), j, d + 1)
  {
    var m' := ReadStep(m, r, j);
    forall i: nat, q: nat | Wrote(fps, j, d + 1, i, q) && q < LOCATIONS ensures BehindWriter(m', i, q) {
      OneMore(fps, j, d, i, q);
      BehindKept(m, m', i, q);
    }
    forall i: nat, q: nat | HasRead(fps, j, d + 1, i, q) && q < LOCATIONS
      ensures i in m'.ReadersOf(q) || BehindWriter(m', i, q)
    {
      OneMore(fps, j, d, i, q);
      if i !in m'.ReadersOf(q) {
        BehindKept(m, m', i, q);
      }
    }
  }

  lemma ReadOrdered(fps: seq<Footprint>, m: Maps, j: nat, d: nat, r: nat)
    requires Inv(fps, m, j, d) && fps[j].Accesses? && d < |fps[j].list| && fps[j].list[d] == Read(r)
    requires Shape(fps, ReadStep(m, r, j), j)
    ensures Ordered(fps, ReadStep(m, r, j), j, d + 1)
  {
    var m' := ReadStep(m, r, j);
    var e := d + 1;
    forall i: nat, q: nat | i < j && q < LOCATIONS && Wrote(fps, j, e, i, q)
                            && (HasRead(fps, j, e, j, q) || Wrote(fps, j, e, j, q))
      ensures InClosure(m'.kill, j, i)
    {
      OneMore(fps, j, d, i, q);
      OneMore(fps, j, d, j, q);
      if HasRead(fps, j, d, j, q) || Wrote(fps, j, d, j, q) {
        ClosureMonotone(m.kill, m'.kill, j, i);
      } else {
        assert BehindWriter(m, i, q) && m.lastWrite[q] != j;
        BehindKept(m, m', i, q);
      }
    }
    forall i: nat, q: nat | i < j && q < LOCATIONS && HasRead(fps, j, e, i, q) && Wrote(fps, j, e, j, q)
      ensures InClosure(m'.kill, j, i)
    {
      OneMore(fps, j, d, i, q);
      OneMore(fps, j, d, j, q);
      ClosureMonotone(m.kill, m'.kill, j, i);
    }
  }

  lemma EarlierKept(fps: seq<Footprint>, m: Maps, m': Maps, j: nat)
    requires Shape(fps, m, j) && Shape(fps, m', j) && forall k :: 0 <= k < |m.kill| ==> m.kill[k] <= m'.kill[k]
    requires forall i, k :: 0 <= i < k < j && Conflict(fps[i], fps[k]) ==> InClosure(m.kill, k, i)
    ensures forall i, k :: 0 <= i < k < j && Conflict(fps[i], fps[k]) ==> InClosure(m'.kill, k, i)
  {
    forall i, k | 0 <= i < k < j && Conflict(fps[i], fps[k]) ensures InClosure(m'.kill, k, i) {
      ClosureMonotone(m.kill, m'.kill, k, i);
    }
  }

  lemma ReadKeeps(fps: seq<Footprint>, m: Maps, j: nat, d: nat, r: nat)
    requires Inv(fps, m, j, d) && fps[j].Accesses? && d < |fps[j].list| && fps[j].list[d] == Read(r)
    ensures Inv(fps, ReadStep(m, r, j), j, d + 1)
  {
    ReadShape(fps, m, j, d, r);
    ReadHonest(fps, m, j, d, r);
    ReadTracked(fps, m, j, d, r);
    ReadOrdered(fps, m, j, d, r);
    EarlierKept(fps, m, ReadStep(m, r, j), j);
  }

  // ---- setRegWrite ----

  /** `j` has written `r` before exactly when it is the last writer of `r`. */
  lemma SelfWrite(fps: seq<Footprint>, m: Maps, j: nat, d: nat, r: nat)
    requires Inv(fps, m, j, d) && r < LOCATIONS
    ensures r in m.lastWrite && m.lastWrite[r] == j <==> Wrote(fps, j, d, j, r)
  {
    if Wrote(fps, j, d, j, r) {
      assert BehindWriter(m, j, r);
      var w := m.lastWrite[r];
      assert Wrote(fps, j, d, w, r);
      if w != j {
        ClosureBackward(m.kill, w, j);
      }
    }
  }

  lemma WriteShape(fps: seq<Footprint>, m: Maps, j: nat, d: nat, r: nat)
    requires Inv(fps, m, j, d) && r < LOCATIONS && !Wrote(fps, j, d, j, r)
    ensures Shape(fps, WriteStep(m, r, j), j)
    ensures forall k :: 0 <= k < |m.kill| ==> m.kill[k] <= WriteStep(m, r, j).kill[k]
  {
    SelfWrite(fps, m, j, d, r);
    if r in m.lastWrite {
      assert Wrote(fps, j, d, m.lastWrite[r], r);
    }
    forall i | i in m.ReadersOf(r) ensures i <= j {
      assert HasRead(fps, j, d, i, r);
    }
  }

  lemma WriteHonest(fps: seq<Footprint>, m: Maps, j: nat, d: nat, r: nat)
    requires Inv(fps, m, j, d) && fps[j].Accesses? && d < |fps[j].list| && fps[j].list[d] == Write(r)
    requires r < LOCATIONS && !Wrote(fps, j, d, j, r)
    ensures Honest(fps, WriteStep(m, r, j), j, d + 1)
  {
    var m' := WriteStep(m, r, j);
    forall q | q in m'.lastWrite ensures Wrote(fps, j, d + 1, m'.lastWrite[q], q) {
      OneMore(fps, j, d, m'.lastWrite[q], q);
    }
    forall q, i | i in m'.ReadersOf(q) ensures HasRead(fps, j, d + 1, i, q) {
      OneMore(fps, j, d, i, q);
    }
    forall a, b | 0 <= a < |m'.kill| && b in m'.kill[a] && a < |fps| && b < |fps| ensures Conflict(fps[b], fps[a]) {
      if b !in m.kill[a] {
        assert a == j && (Wrote(fps, j, d, b, r) || HasRead(fps, j, d, b, r)) && b != j;
        assert Write(r) in fps[j].list;
        assert fps[b].Barrier? || Clash(fps[b], fps[a], r);
      }
    }
  }

  /** After the write, everything that touched `r` before is behind `j`. */
  lemma WriteBehind(fps: seq<Footprint>, m: Maps, j: nat, d: nat, r: nat, i: nat)
    requires Inv(fps, m, j, d) && r < LOCATIONS && !Wrote(fps, j, d, j, r)
    requires Shape(fps, WriteStep(m, r, j), j)
    requires i < j && (Wrote(fps, j, d, i, r) || HasRead(fps, j, d, i, r))
    ensures InClosure(WriteStep(m, r, j).kill, j, i)
  {
    var m' := WriteStep(m, r, j);
    if i !in m.ReadersOf(r) {
      assert BehindWriter(m, i, r);
      var w := m.lastWrite[r];
      assert w in m'.kill[j];
      if w != i {
        ClosureMonotone(m.kill, m'.kill, w, i);
      }
    }
  }

  lemma WriteTracked(fps: seq<Footprint>, m: Maps, j: nat, d: nat, r: nat)
    requires Inv(fps, m, j, d) && fps[j].Accesses? && d < |fps[j].list| && fps[j].list[d] == Write(r)
    requires r < LOCATIONS && !Wrote(fps, j, d, j, r) && Shape(fps, WriteStep(m, r, j), j)
    ensures Tracked(fps, WriteStep(m, r, j), j, d + 1)
  {
    var m' := WriteStep(m, r, j);
    forall i: nat, q: nat | Wrote(fps, j, d + 1, i, q) && q < LOCATIONS ensures BehindWriter(m', i, q) {
      OneMore(fps, j, d, i, q);
      if q != r {
        BehindKept(m, m', i, q);
      } else if i != j {
        WriteBehind(fps, m, j, d, r, i);
      }
    }
    forall i: nat, q: nat | HasRead(fps, j, d + 1, i, q) && q < LOCATIONS
      ensures i in m'.ReadersOf(q) || BehindWriter(m', i, q)
    {
      OneMore(fps, j, d, i, q);
      if q != r {
        if i !in m'.ReadersOf(q) {
          BehindKept(m, m', i, q);
        }
      } else if i != j {
        WriteBehind(fps, m, j, d, r, i);
      }
    }
  }

  lemma WriteOrdered(fps: seq<Footprint>, m: Maps, j: nat, d: nat, r: nat)
    requires Inv(fps, m, j, d) && fps[j].Accesses? && d < |fps[j].list| && fps[j].list[d] == Write(r)
    requires r < LOCATIONS && !Wrote(fps, j, d, j, r) && Shape(fps, WriteStep(m, r, j), j)
    ensures Ordered(fps, WriteStep(m, r, j), j, d + 1)
  {
    var m' := WriteStep(m, r, j);
    var e := d + 1;
    forall i: nat, q: nat | i < j && q < LOCATIONS && (Wrote(fps, j, e, i, q) || HasRead(fps, j, e, i, q))
      ensures Wrote(fps, j, e, j, q) ==> InClosure(m'.kill, j, i)
      ensures Wrote(fps, j, e, i, q) && HasRead(fps, j, e, j, q) ==> InClosure(m'.kill, j, i)
    {
      OneMore(fps, j, d, i, q);
      OneMore(fps, j, d, j, q);
      if q == r {
        WriteBehind(fps, m, j, d, r, i);
      } else if Wrote(fps, j, d, j, q) || (Wrote(fps, j, d, i, q) && HasRead(fps, j, d, j, q)) {
        ClosureMonotone(m.kill, m'.kill, j, i);
      }
    }
  }

  lemma WriteKeeps(fps: seq<Footprint>, m: Maps, j: nat, d: nat, r: nat)
    requires Inv(fps, m, j, d) && fps[j].Accesses? && d < |fps[j].list| && fps[j].list[d] == Write(r)
    requires r < LOCATIONS && !Wrote(fps, j, d, j, r)
    ensures Inv(fps, WriteStep(m, r, j), j, d + 1)
  {
    WriteShape(fps, m, j, d, r);
    WriteHonest(fps, m, j, d, r);
    WriteTracked(fps, m, j, d, r);
    WriteOrdered(fps, m, j, d, r);
    EarlierKept(fps, m, WriteStep(m, r, j), j);
  }

  // ---- setBarrier, and moving on to the next instruction ----

  lemma EmptyInv(fps: seq<Footprint>)
    requires fps != []
    ensures Inv(fps, Empty(|fps|), 0, 0)
  {
    var m := Empty(|fps|);
    assert forall i: nat, r: nat :: !Wrote(fps, 0, 0, i, r) && !HasRead(fps, 0, 0, i, r);
  }

  /** With all accesses of `j` made, `j` is behind everything it conflicts with. */
  lemma AllAccessesMade(fps: seq<Footprint>, m: Maps, j: nat)
    requires j < |fps| && fps[j].Accesses? && Inv(fps, m, j, |fps[j].list|) && InRange(fps[j])
    ensures Finished(fps, m, j)
  {
    var d, list := |fps[j].list|, fps[j].list;
    assert list[..d] == list;
    forall i: nat | i < j && Conflict(fps[i], fps[j]) ensures InClosure(m.kill, j, i) {
      if fps[i].Barrier? {
        var r := list[0].loc;
        assert list[0] in list;
        assert Wrote(fps, j, d, i, r);
        assert HasRead(fps, j, d, j, r) || Wrote(fps, j, d, j, r);
      } else {
        var r: nat :| Clash(fps[i], fps[j], r);
        assert r < LOCATIONS;
        if Writes(fps[i], r) {
          assert Wrote(fps, j, d, i, r);
          assert HasRead(fps, j, d, j, r) || Wrote(fps, j, d, j, r);
        } else {
          assert HasRead(fps, j, d, i, r) && Wrote(fps, j, d, j, r);
        }
      }
    }
  }

  /** What the accesses of a finished instruction look like from the next one. */
  lemma NextAccesses(fps: seq<Footprint>, j: nat, d: nat, i: nat, r: nat)
    requires j < |fps| && fps[j].Accesses? && d == |fps[j].list|
    ensures Wrote(fps, j + 1, 0, i, r) == Wrote(fps, j, d, i, r)
    ensures HasRead(fps, j + 1, 0, i, r) == HasRead(fps, j, d, i, r)
  {
    assert fps[j].list[..d] == fps[j].list;
    assert i == j + 1 && i < |fps| && fps[i].Accesses? ==> fps[i].list[..0] == [];
  }

  lemma NextKeeps(fps: seq<Footprint>, m: Maps, j: nat)
    requires j + 1 < |fps| && fps[j].Accesses? && Inv(fps, m, j, |fps[j].list|) && InRange(fps[j])
    ensures Inv(fps, m, j + 1, 0)
  {
    var d := |fps[j].list|;
    AllAccessesMade(fps, m, j);
    forall i: nat, r: nat
      ensures Wrote(fps, j + 1, 0, i, r) == Wrote(fps, j, d, i, r)
      ensures HasRead(fps, j + 1, 0, i, r) == HasRead(fps, j, d, i, r)
    {
      NextAccesses(fps, j, d, i, r);
    }
  }

  lemma BarrierShape(fps: seq<Footprint>, m: Maps, j: nat)
    requires Inv(fps, m, j, 0)
    ensures Shape(fps, BarrierStep(m, j), j)
    ensures forall k :: 0 <= k < |m.kill| ==> m.kill[k] <= BarrierStep(m, j).kill[k]
    ensures Finished(fps, BarrierStep(m, j), j)
  {
  }

  lemma BarrierHonest(fps: seq<Footprint>, m: Maps, j: nat)
    requires Inv(fps, m, j, 0) && fps[j].Barrier?
    ensures Honest(fps, BarrierStep(m, j), j + 1, 0)
  {
    var m' := BarrierStep(m, j);
    forall r | r in m'.lastWrite ensures Wrote(fps, j + 1, 0, m'.lastWrite[r], r) {
      assert r !in Ids(LOCATIONS) ==> Wrote(fps, j, 0, m.lastWrite[r], r);
    }
    forall r, i | i in m'.ReadersOf(r) ensures HasRead(fps, j + 1, 0, i, r) {
      assert HasRead(fps, j, 0, i, r);
    }
  }

  lemma BarrierTracked(fps: seq<Footprint>, m: Maps, j: nat)
    requires Inv(fps, m, j, 0) && fps[j].Barrier? && Shape(fps, BarrierStep(m, j), j)
    ensures Tracked(fps, BarrierStep(m, j), j + 1, 0)
  {
    var m' := BarrierStep(m, j);
    forall i: nat, r: nat | i <= j && r < LOCATIONS ensures BehindWriter(m', i, r) {
      assert r in m'.lastWrite && m'.lastWrite[r] == j;
    }
  }

  lemma BarrierKeeps(fps: seq<Footprint>, m: Maps, j: nat)
    requires j + 1 < |fps| && Inv(fps, m, j, 0) && fps[j].Barrier?
    ensures Inv(fps, BarrierStep(m, j), j + 1, 0)
  {
    BarrierShape(fps, m, j);
    BarrierHonest(fps, m, j);
    BarrierTracked(fps, m, j);
    EarlierKept(fps, m, BarrierStep(m, j), j);
    var n := j + 1;
    assert forall r: nat :: !Wrote(fps, n, 0, n, r) && !HasRead(fps, n, 0, n, r);
  }

  // ---- The result ----

  lemma LastCompletes(fps: seq<Footprint>, m: Maps, j: nat)
    requires j + 1 == |fps| && InRange(fps[j])
    requires fps[j].Accesses? ==> Inv(fps, m, j, |fps[j].list|)
    requires fps[j].Barrier? ==> Inv(fps, m, j, 0)
    ensures Complete(fps, if fps[j].Barrier? then BarrierStep(m, j).kill else m.kill)
  {
    if fps[j].Barrier? {
      BarrierShape(fps, m, j);
      BarrierHonest(fps, m, j);
      EarlierKept(fps, m, BarrierStep(m, j), j);
    } else {
      AllAccessesMade(fps, m, j);
    }
  }

  /** Nothing but conflicts is in the closure: the closure is that of the conflicts alone. */
  lemma {:induction false} ClosureIsConflictChain(fps: seq<Footprint>, kill: seq<set<nat>>, a: nat, b: nat)
    requires Complete(fps, kill) && a < |fps|
    ensures InClosure(kill, a, b) <==> ConflictChain(fps, a, b)
    decreases a
  {
    if InClosure(kill, a, b) {
      var k :| k in kill[a] && (k == b || InClosure(kill, k, b));
      if k != b {
        ClosureIsConflictChain(fps, kill, k, b);
      }
    }
    if ConflictChain(fps, a, b) {
      var k :| 0 <= k < a && Conflict(fps[k], fps[a]) && (k == b || ConflictChain(fps, k, b));
      if k != b {
        ClosureIsConflictChain(fps, kill, k, b);
        ClosureTransitive(kill, a, k, b);
      }
    }
  }
}
