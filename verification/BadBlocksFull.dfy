/** What setting a range leaves behind when the table runs out of room. */
module BadBlocksFull {
  import opened Arith
  import opened BadBlocksModel
  import opened BadBlocksSet
  import opened BadBlocksTheorems

  // ---------- what a caller can compute before the call ----------

  /** The entry after the range is extended downwards to take part of it. */
  predicate TakesNext(es: seq<Entry>, k: nat, t: int) {
    k < |es| && es[k].start <= t
  }

  /** The first entry that the insertion loop leaves behind its pieces. */
  function NextIndex(es: seq<Entry>, s: int, t: int): nat {
    var k := Before(es, s + 1);
    if TakesNext(es, k, t) then k + 1 else k
  }

  /** Where the insertion loop begins. */
  function FillStart(es: seq<Entry>, s: int, t: int): int {
    var k := Before(es, s + 1);
    RestStart(es, k, s, t) + if TakesNext(es, k, t) then MAX_LEN else 0
  }

  /** Where it would end: an extended entry may reach past the range. */
  function FillEnd(es: seq<Entry>, s: int, t: int): int {
    var k := Before(es, s + 1);
    if TakesNext(es, k, t) then Max(es[k].End(), t) else t
  }

  /** Where it stops because each piece takes one of the free places. */
  function Stop(es: seq<Entry>, cap: nat, s: int, t: int): int {
    FillStart(es, s, t) + MAX_LEN * (cap - |es|)
  }

  /** An extended entry gave up its tail and there was no room to put all of it back. */
  predicate TailPushedOut(es: seq<Entry>, cap: nat, s: int, t: int) {
    var k := Before(es, s + 1);
    var s1 := RestStart(es, k, s, t);
    s1 < t && TakesNext(es, k, t) && s1 + MAX_LEN * (1 + cap - |es|) < es[k].End()
  }

  /** At most one piece went in, and it ends before the next entry starts. */
  predicate StaysSorted(es: seq<Entry>, cap: nat, s: int, t: int) {
    var j := NextIndex(es, s, t);
    cap - |es| <= 1 && (j < |es| ==> Stop(es, cap, s, t) <= es[j].start)
  }

  // ---------- the insertion loop ----------

  /** The loop puts one full piece into each free place. */
  lemma {:induction false} FillStops(w: Work, cap: nat, ack: bool)
    requires 0 <= w.rem && |w.Table()| <= cap && Fill(w, cap, ack).1 == 1
    ensures var r := Fill(w, cap, ack).0;
            var m := cap - |w.Table()|;
            && r.left == w.left && r.s == w.s + MAX_LEN * m && r.To() == w.To() && 0 < r.rem
            && (forall x :: Bad(r.right, x) <==> w.s <= x < r.s || Bad(w.right, x))
    decreases w.rem
  {
    if |w.Table()| < cap {
      var e := Entry(w.s, Min(w.rem, MAX_LEN), ack);
      var v := Work(w.left, [e] + w.right, e.End(), w.rem - e.len);
      assert Fill(w, cap, ack) == Fill(v, cap, ack);
      assert MAX_LEN < w.rem;
      FillStops(v, cap, ack);
      forall x ensures Bad(v.right, x) <==> e.Has(x) || Bad(w.right, x) {
        BadAppend([e], w.right, x);
        BadOne(e, x);
      }
    }
  }

  lemma StagedLeft(w: Work, x: int)
    requires Staged(w) && Bad(w.left, x)
    ensures x < w.s
  {
    var i :| 0 <= i < |w.left| && w.left[i].Has(x);
    assert i < |w.left| - 1 ==> w.left[i].End() <= Last(w.left).start;
    assert Last(w.left).Fits();
  }

  /** Of the sectors wanted, exactly those between the stop and the end that no later entry has are
   * missing. */
  lemma FillHolds(w: Work, cap: nat, ack: bool, x: int)
    requires Staged(w) && |w.Table()| <= cap && Fill(w, cap, ack).1 == 1
    ensures var r := Fill(w, cap, ack).0;
            Bad(r.Table(), x) <==> Goal(w, x) && (x < r.s || w.To() <= x || Bad(w.right, x))
  {
    FillStops(w, cap, ack);
    var r := Fill(w, cap, ack).0;
    BadAppend(r.left, r.right, x);
    BadAppend(w.left, w.right, x);
    if Bad(w.left, x) {
      StagedLeft(w, x);
    }
    hide Fill, Staged, Bad;
  }

  /** The table stays well formed exactly if at most one piece went in and it fits before the next
   * entry. */
  lemma FillSorted(w: Work, cap: nat, ack: bool)
    requires Staged(w) && |w.Table()| <= cap && Fill(w, cap, ack).1 == 1
    ensures var m := cap - |w.Table()|;
            Valid(Fill(w, cap, ack).0.Table()) <==>
            m <= 1 && (w.right == [] || (if m == 0 then w.left == [] || Last(w.left).End() <= w.right[0].start
                                         else w.s + MAX_LEN <= w.right[0].start))
  {
    if |w.Table()| == cap {
      ValidJoin(w.left, w.right);
    } else {
      var e := Entry(w.s, Min(w.rem, MAX_LEN), ack);
      var v := Work(w.left, [e] + w.right, e.End(), w.rem - e.len);
      assert Fill(w, cap, ack) == Fill(v, cap, ack);
      assert MAX_LEN < w.rem;
      if |w.Table()| + 1 == cap {
        OnePieceSorted(w, e);
      } else {
        TwoPiecesUnsorted(w, cap, ack);
      }
    }
  }

  lemma OnePieceSorted(w: Work, e: Entry)
    requires Staged(w) && e.start == w.s && e.len == MAX_LEN < w.rem
    ensures Valid(w.left + ([e] + w.right)) <==> w.right == [] || e.End() <= w.right[0].start
  {
    assert Valid([e]);
    ValidJoin([e], w.right);
    if w.right == [] || e.End() <= w.right[0].start {
      ValidJoin(w.left, [e] + w.right);
    } else {
      NotSortedAt(w.left + ([e] + w.right), |w.left|);
    }
  }

  lemma TwoPiecesUnsorted(w: Work, cap: nat, ack: bool)
    requires MAX_LEN < w.rem && |w.Table()| + 1 < cap && Fill(w, cap, ack).1 == 1
    ensures !Valid(Fill(w, cap, ack).0.Table())
  {
    var e1 := Entry(w.s, MAX_LEN, ack);
    var v1 := Work(w.left, [e1] + w.right, w.s + MAX_LEN, w.rem - MAX_LEN);
    var e2 := Entry(v1.s, Min(v1.rem, MAX_LEN), ack);
    var v2 := Work(w.left, [e2] + v1.right, v1.s + e2.len, v1.rem - e2.len);
    assert Fill(w, cap, ack) == Fill(v1, cap, ack) == Fill(v2, cap, ack);
    FillSuffix(v2, cap, ack);
    var r := Fill(v2, cap, ack).0;
    hide Fill;
    assert v2.right[0] == e2 && v2.right[1] == e1;
    PiecesUnsorted(r.left, r.right, v2.right, e1, e2);
  }

  // ---------- in terms of the old table ----------

  lemma LeftLength(w: Work, ack: bool)
    ensures |MergeLeft(w, ack).Table()| == |w.Table()|
  {
  }

  lemma RightLength(w: Work, ack: bool)
    ensures |MergeRight(w, ack).Table()| == |w.Table()|
  {
  }

  lemma MergedLength(es: seq<Entry>, s: int, t: int, ack: bool)
    requires Valid(es) && 0 <= s <= t <= MAX_SECTOR
    ensures |Merged(es, s, t, ack).Table()| == |es|
  {
    StartIsStaged(es, s, t);
    var w := SetStart(es, s, t);
    hide SetStart, Valid, MergeLeft, MergeRight;
    LeftLength(w, ack);
    RightLength(MergeLeft(w, ack), ack);
  }

  lemma FailingFill(w: Work, cap: nat, ack: bool)
    requires 0 <= w.rem && Fill(Combine(w), cap, ack).1 == 1
    ensures 0 < w.rem && Combine(w) == w
  {
    assert w.rem == 0 ==> Combine(w).rem == 0;
  }

  lemma ShapeOfFill(w: Work, es: seq<Entry>, s: int, t: int)
    requires Shape(w, es, Before(es, s + 1), s, t) && 0 < w.rem
    requires var k := Before(es, s + 1);
             RestStart(es, k, s, t) != Reach(es, k, s, t) ==> RestStart(es, k, s, t) < t == Reach(es, k, s, t)
    ensures var j := NextIndex(es, s, t);
            && j <= |es| && w.right == es[j..] && w.s == FillStart(es, s, t) && w.To() == FillEnd(es, s, t)
            && RestStart(es, Before(es, s + 1), s, t) < t
            && (TakesNext(es, Before(es, s + 1), t) ==> w.left != [] && Last(w.left).End() == w.s)
  {
    hide Before, RestStart, Reach, Base, Touches;
  }

  /** The state in which the insertion loop starts when the call is going to fail. */
  lemma FailingState(es: seq<Entry>, cap: nat, s: int, t: int, ack: bool)
    requires Valid(es) && 0 <= s <= t <= MAX_SECTOR && |es| <= cap && SetRange(es, cap, s, t, ack).1 == 1
    ensures var w := Merged(es, s, t, ack);
            var j := NextIndex(es, s, t);
            && Staged(w) && |w.Table()| == |es| && 0 < w.rem && SetRange(es, cap, s, t, ack) == Fill(w, cap, ack)
            && j <= |es| && w.right == es[j..] && w.s == FillStart(es, s, t) && w.To() == FillEnd(es, s, t)
            && (forall x :: Goal(w, x) <==> Bad(es, x) || s <= x < t)
            && RestStart(es, Before(es, s + 1), s, t) < t
            && (TakesNext(es, Before(es, s + 1), t) ==> w.left != [] && Last(w.left).End() == w.s)
  {
    MergedIsStaged(es, s, t, ack);
    MergedLength(es, s, t, ack);
    MergedShape(es, s, t, ack);
    BeforeSplits(es, s + 1);
    RestEndsAtRange(es, Before(es, s + 1), s, t);
    var w := Merged(es, s, t, ack);
    hide Merged, Fill, Combine, Bad, Goal, Valid, Shape, Before, NextIndex, FillStart, FillEnd, RestStart, Reach;
    StagedRem(w);
    FailingFill(w, cap, ack);
    ShapeOfFill(w, es, s, t);
  }

  /** A part that the touched entry cannot take lies in the range. */
  lemma RestEndsAtRange(es: seq<Entry>, k: nat, s: int, t: int)
    requires Valid(es) && s <= t && k <= |es|
    ensures RestStart(es, k, s, t) != Reach(es, k, s, t) ==> RestStart(es, k, s, t) < t == Reach(es, k, s, t)
  {
    assert k > 0 ==> es[k - 1].Fits();
  }

  /** After a failing call: the old sectors and the new ones, but for those from the stop to the end that
   * no later entry has. */
  lemma FullTableHolds(es: seq<Entry>, cap: nat, s: int, t: int, ack: bool, x: int)
    requires Valid(es) && 0 <= s <= t <= MAX_SECTOR && |es| <= cap && SetRange(es, cap, s, t, ack).1 == 1
    ensures NextIndex(es, s, t) <= |es|
    ensures Bad(SetRange(es, cap, s, t, ack).0.Table(), x) <==>
            && (Bad(es, x) || s <= x < t)
            && (x < Stop(es, cap, s, t) || FillEnd(es, s, t) <= x || Bad(es[NextIndex(es, s, t)..], x))
  {
    FailingState(es, cap, s, t, ack);
    var w := Merged(es, s, t, ack);
    FillStops(w, cap, ack);
    FillHolds(w, cap, ack, x);
    hide Merged, SetRange, Fill, Staged, Bad, NextIndex, FillStart, FillEnd;
    assert Goal(w, x) <==> Bad(es, x) || s <= x < t;
  }

  /** Old entries that start before the next one end before the insertion loop begins, but for an
   * extended one. */
  lemma OldSectorKept(es: seq<Entry>, cap: nat, s: int, t: int, x: int)
    requires Valid(es) && 0 <= s <= t <= MAX_SECTOR && |es| <= cap && Bad(es, x)
    requires RestStart(es, Before(es, s + 1), s, t) < t && !TailPushedOut(es, cap, s, t)
    ensures NextIndex(es, s, t) <= |es| && (x < Stop(es, cap, s, t) || Bad(es[NextIndex(es, s, t)..], x))
  {
    BeforeSplits(es, s + 1);
    var k, j := Before(es, s + 1), NextIndex(es, s, t);
    var i :| 0 <= i < |es| && es[i].Has(x);
    if i < k {
      assert RestStart(es, k, s, t) < Reach(es, k, s, t);
      EarlierEntries(es, k, s, t, i);
    } else if j <= i {
      assert es[j..][i - j].Has(x);
    }
    hide Before, RestStart, Bad;
  }

  lemma TailIsLost(es: seq<Entry>, cap: nat, s: int, t: int) returns (x: int)
    requires Valid(es) && |es| <= cap && TailPushedOut(es, cap, s, t)
    ensures NextIndex(es, s, t) <= |es|
    ensures Bad(es, x) && Stop(es, cap, s, t) <= x < FillEnd(es, s, t) && !Bad(es[NextIndex(es, s, t)..], x)
  {
    var k := Before(es, s + 1);
    assert es[k].Fits();
    x := es[k].End() - 1;
    assert es[k].Has(x);
    forall i | k < i < |es| ensures !es[i].Has(x) {
      assert es[k].End() <= es[i].start;
    }
    var rest := es[k + 1..];
    assert forall i | 0 <= i < |rest| :: rest[i] == es[k + 1 + i];
  }

  /** A failing call records nothing but old and new sectors. It keeps all old ones if and only if no tail
   * was pushed out. */
  lemma FullTableLoses(es: seq<Entry>, cap: nat, s: int, t: int, ack: bool)
    requires Valid(es) && 0 <= s <= t <= MAX_SECTOR && |es| <= cap && SetRange(es, cap, s, t, ack).1 == 1
    ensures var table := SetRange(es, cap, s, t, ack).0.Table();
            && (forall x :: Bad(table, x) ==> Bad(es, x) || s <= x < t)
            && ((forall x :: Bad(es, x) ==> Bad(table, x)) <==> !TailPushedOut(es, cap, s, t))
  {
    FailingState(es, cap, s, t, ack);
    forall x
      ensures Bad(SetRange(es, cap, s, t, ack).0.Table(), x) <==>
              && (Bad(es, x) || s <= x < t)
              && (x < Stop(es, cap, s, t) || FillEnd(es, s, t) <= x || Bad(es[NextIndex(es, s, t)..], x))
    {
      FullTableHolds(es, cap, s, t, ack, x);
    }
    hide SetRange, Merged, Bad, Stop, FillEnd, NextIndex, TailPushedOut, Staged;
    if TailPushedOut(es, cap, s, t) {
      var x := TailIsLost(es, cap, s, t);
    } else {
      forall x | Bad(es, x) ensures Bad(SetRange(es, cap, s, t, ack).0.Table(), x) {
        OldSectorKept(es, cap, s, t, x);
      }
    }
  }

  /** The table of a failing call is well formed if and only if at most one piece went in and that piece
   * ends before the next entry. */
  lemma FullTableSorted(es: seq<Entry>, cap: nat, s: int, t: int, ack: bool)
    requires Valid(es) && 0 <= s <= t <= MAX_SECTOR && |es| <= cap && SetRange(es, cap, s, t, ack).1 == 1
    ensures Valid(SetRange(es, cap, s, t, ack).0.Table()) <==> StaysSorted(es, cap, s, t)
  {
    FailingState(es, cap, s, t, ack);
    var w := Merged(es, s, t, ack);
    FillSorted(w, cap, ack);
    var j := NextIndex(es, s, t);
    if j < |es| {
      assert w.right[0] == es[j];
    }
    hide Merged, SetRange, Fill, Valid;
  }

  /** Setting [590, 600) in a full table next to [600, 1112) drops the last ten old sectors. */
  lemma FullTableDropsTail()
    ensures var es := [Entry(600, 512, true)];
            && Valid(es) && SetExact(es, 590, 600) && TailPushedOut(es, 1, 590, 600)
            && SetRange(es, 1, 590, 600, true) == (Work([Entry(590, 512, true)], [], 1102, 10), 1)
  {
    var es := [Entry(600, 512, true)];
    assert es[1..] == [];
    assert Before(es, 591) == 0;
    assert es[..0] == [] && es[0..] == es;
    var w := Merged(es, 590, 600, true);
    assert w == Work([Entry(590, 512, true)], [], 1102, 10);
  }
}
