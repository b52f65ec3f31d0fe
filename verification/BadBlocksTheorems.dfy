/** The results about setting a range, in terms a caller can check before the call. */
module BadBlocksTheorems {
  import opened Arith
  import opened BadBlocksModel
  import opened BadBlocksSet

  /** Entry `k` does not reach into [base, end), or can be joined with it without losing a sector. */
  ghost predicate Joinable(es: seq<Entry>, k: nat, base: int, end: int) {
    k < |es| && es[k].start < end ==>
      1 <= es[k].End() - base < MAX_LEN && AllBad(es, es[k].End(), end)
  }

  // In the following, the first `k` entries are those that start at or before `s`.

  /** The entry at or before `s` touches the range. */
  predicate Touches(es: seq<Entry>, k: nat, s: int) {
    0 < k <= |es| && s <= es[k - 1].End()
  }

  /** Where the piece that holds `s` begins. */
  function Base(es: seq<Entry>, k: nat, s: int): int {
    if Touches(es, k, s) then es[k - 1].start else s
  }

  /** How far the range reaches once it is merged with the entry it touches. */
  function Reach(es: seq<Entry>, k: nat, s: int, t: int): int {
    if Touches(es, k, s) then Max(es[k - 1].End(), t) else t
  }

  /** Where the part of the range begins that the touched entry cannot take. */
  function RestStart(es: seq<Entry>, k: nat, s: int, t: int): int {
    if Touches(es, k, s) then Min(Reach(es, k, s, t), es[k - 1].start + MAX_LEN) else s
  }

  /** The exact condition, on the old table and the range alone, under which setting [s, t) is right. */
  ghost predicate SetExact(es: seq<Entry>, s: int, t: int) {
    var k := Before(es, s + 1);
    var e, s1 := Reach(es, k, s, t), RestStart(es, k, s, t);
    if s1 == e then
      Joinable(es, k, Base(es, k, s), e)
    else if k < |es| && es[k].start <= t then
      var e1 := Max(es[k].End(), t);
      if e1 - s1 <= MAX_LEN then Joinable(es, k + 1, s1, e1)
      else e1 - s1 <= 2 * MAX_LEN && (k + 1 < |es| ==> e1 <= es[k + 1].start)
    else
      t - s1 <= MAX_LEN
  }

  /** The merged state, in terms of the old table. */
  ghost predicate Shape(w: Work, es: seq<Entry>, k: nat, s: int, t: int) {
    var e, s1 := Reach(es, k, s, t), RestStart(es, k, s, t);
    && k <= |es|
    && (if s1 == e then
          && w.right == es[k..] && w.s == e && w.rem == 0
          && (Touches(es, k, s) ==> w.left != [] && Last(w.left).start == Base(es, k, s))
          && (!Touches(es, k, s) ==> e == s)
        else if k < |es| && es[k].start <= t then
          && w.right == es[k + 1..] && w.left != [] && Last(w.left).start == s1
          && w.s == Min(Max(es[k].End(), t), s1 + MAX_LEN) && w.To() == Max(es[k].End(), t)
          && Last(w.left).End() == w.s
        else
          w.right == es[k..] && w.s == s1 && w.To() == t)
  }

  lemma LeftInTable(es: seq<Entry>, k: nat, s: int, t: int, ack: bool)
    requires Valid(es) && s <= t && k <= |es|
    ensures var w := MergeLeft(Work(es[..k], es[k..], s, t - s), ack);
            && w.right == es[k..]
            && w.s == RestStart(es, k, s, t) && w.To() == Reach(es, k, s, t)
            && (Touches(es, k, s) ==> w.left != [] && Last(w.left).start == Base(es, k, s))
            && (w.rem != 0 ==> w.To() == t)
  {
    var left := es[..k];
    ValidSlice(es, 0, k);
    assert es[0..k] == left;
    assert k > 0 ==> Last(left) == es[k - 1];
    LeftCases(Work(left, es[k..], s, t - s), ack);
    hide MergeLeft, Valid;
  }

  lemma RightInTable(es: seq<Entry>, k: nat, s: int, t: int, ack: bool)
    requires Valid(es) && s <= t && k <= |es|
    ensures Shape(MergeRight(MergeLeft(Work(es[..k], es[k..], s, t - s), ack), ack), es, k, s, t)
  {
    LeftInTable(es, k, s, t, ack);
    var w1 := MergeLeft(Work(es[..k], es[k..], s, t - s), ack);
    RightCases(w1, ack);
    hide MergeLeft, MergeRight, Valid, Base;
    if k < |es| {
      assert w1.right[0] == es[k] && w1.right[1..] == es[k + 1..];
    }
  }

  lemma MergedShape(es: seq<Entry>, s: int, t: int, ack: bool)
    requires Valid(es) && 0 <= s <= t <= MAX_SECTOR
    ensures Shape(Merged(es, s, t, ack), es, Before(es, s + 1), s, t)
  {
    StartIsStaged(es, s, t);
    RightInTable(es, Before(es, s + 1), s, t, ack);
    hide Shape, MergeLeft, MergeRight;
  }

  lemma ExactIsSafe(es: seq<Entry>, s: int, t: int, ack: bool)
    requires Valid(es) && 0 <= s <= t <= MAX_SECTOR
    ensures SetExact(es, s, t) <==> Safe(Merged(es, s, t, ack), es)
  {
    MergedShape(es, s, t, ack);
    BeforeSplits(es, s + 1);
    hide SetExact, Merged, Safe;
    ShapeIsExact(Merged(es, s, t, ack), es, s, t);
  }

  lemma ShapeIsExact(w: Work, es: seq<Entry>, s: int, t: int)
    requires Shape(w, es, Before(es, s + 1), s, t)
    requires Before(es, s + 1) < |es| ==> s < es[Before(es, s + 1)].start
    ensures SetExact(es, s, t) <==> Safe(w, es)
  {
    hide Bad, Before, Base, Reach, RestStart;
    var k := Before(es, s + 1);
    var e, s1 := Reach(es, k, s, t), RestStart(es, k, s, t);
    if s1 == e {
      if k < |es| {
        assert w.right[0] == es[k];
        SafeIsJoinable(w, es, k);
      }
    } else if k < |es| && es[k].start <= t {
      var e1 := Max(es[k].End(), t);
      assert w.rem == 0 <==> e1 - s1 <= MAX_LEN;
      if k + 1 < |es| {
        assert w.right[0] == es[k + 1];
        if w.rem == 0 {
          SafeIsJoinable(w, es, k + 1);
        }
      }
    }
  }

  lemma SafeIsJoinable(w: Work, es: seq<Entry>, k: nat)
    requires k < |es| && w.rem == 0 && w.right != [] && w.right[0] == es[k]
    ensures w.left != [] ==> (Safe(w, es) <==> Joinable(es, k, Last(w.left).start, w.s))
    ensures w.s <= es[k].start ==> Safe(w, es)
  {
  }

  /** What extending the previous entry leaves to do. */
  lemma LeftCases(w: Work, ack: bool)
    requires Valid(w.left) && 0 <= w.rem
    ensures var v := MergeLeft(w, ack);
            && v.right == w.right
            && (if w.left == [] || Last(w.left).End() < w.s then v == w
                else
                  && v.left != [] && Last(v.left).start == Last(w.left).start
                  && v.s == Min(Max(Last(w.left).End(), w.To()), Last(w.left).start + MAX_LEN)
                  && v.rem == Max(Last(w.left).End(), w.To()) - v.s
                  && (v.rem != 0 ==> v.To() == w.To()))
  {
  }

  /** What extending the next entry leaves to do. */
  lemma RightCases(w: Work, ack: bool)
    ensures var v := MergeRight(w, ack);
            if w.rem == 0 || w.right == [] || w.To() < w.right[0].start then v == w
            else
              var e := Max(w.right[0].End(), w.To());
              && v.right == w.right[1..]
              && v.left != [] && Last(v.left).start == w.s
              && v.s == Min(e, w.s + MAX_LEN) && v.To() == e && Last(v.left).End() == v.s
  {
  }

  /** With room in the table, setting [s, t) leaves a well-formed table holding exactly the union if
   * and only if `SetExact` holds of the old table and the range. */
  lemma SetIsUnionIff(es: seq<Entry>, cap: nat, s: int, t: int, ack: bool)
    requires Valid(es) && 0 <= s <= t <= MAX_SECTOR
    requires SetRange(es, cap, s, t, ack).1 == 0
    ensures SetExact(es, s, t) <==> IsUnion(SetRange(es, cap, s, t, ack).0.Table(), es, s, t)
  {
    hide SetExact, IsUnion, SetRange, Safe;
    ExactIsSafe(es, s, t, ack);
    SafeIffUnion(es, cap, s, t, ack);
  }

  // ---------- when the table stays well formed ----------

  /** Entry `k` does not reach into [base, end), or what joining it would leave fits an entry. */
  predicate JoinFits(es: seq<Entry>, k: nat, base: int, end: int) {
    k < |es| && es[k].start < end ==> 1 <= es[k].End() - base < MAX_LEN
  }

  /** The exact condition, on the old table and the range alone, under which a successful call leaves a
   * well-formed table. It is `SetExact` without the demand that no sector is lost. */
  predicate SetSorted(es: seq<Entry>, s: int, t: int) {
    var k := Before(es, s + 1);
    var e, s1 := Reach(es, k, s, t), RestStart(es, k, s, t);
    if s1 == e then
      JoinFits(es, k, Base(es, k, s), e)
    else if k < |es| && es[k].start <= t then
      var e1 := Max(es[k].End(), t);
      if e1 - s1 <= MAX_LEN then JoinFits(es, k + 1, s1, e1)
      else e1 - s1 <= 2 * MAX_LEN && (k + 1 < |es| ==> e1 <= es[k + 1].start)
    else
      t - s1 <= MAX_LEN
  }

  predicate StageFits(w: Work) {
    if w.rem == 0 then
      w.left != [] && w.right != [] && w.right[0].start < w.s ==> 1 <= w.right[0].End() - Last(w.left).start < MAX_LEN
    else
      w.rem <= MAX_LEN && (w.right != [] ==> w.To() <= w.right[0].start)
  }

  lemma CombineSorted(w: Work)
    requires Staged(w) && Flush(w) && w.rem == 0
    ensures Valid(Combine(w).Table()) <==> StageFits(w)
  {
    ValidJoin(w.left, w.right);
    if w.left != [] && w.right != [] && w.right[0].start <= w.s {
      var p, h := Last(w.left), w.right[0];
      var n := h.End() - p.start;
      assert p.Fits() && h.Fits();
      if n < 1 {
        CombineCollapses(w);
      } else if n < MAX_LEN {
        CombineValid(w, Entry(p.start, n, p.ack && h.ack));
      } else {
        CombineCases(w);
      }
    }
    hide Valid;
  }

  lemma FilledSorted(w: Work, cap: nat, ack: bool)
    requires Staged(w) && Flush(w) && Fill(Combine(w), cap, ack).1 == 0
    ensures Valid(Fill(Combine(w), cap, ack).0.Table()) <==> StageFits(w)
  {
    if w.rem == 0 {
      CombineSorted(w);
      assert Combine(w).rem == 0;
    } else if w.rem <= MAX_LEN {
      FillOnePiece(w, cap, ack);
    } else {
      FillManyPieces(w, cap, ack);
    }
    hide Valid;
  }

  lemma ShapeSorted(w: Work, es: seq<Entry>, s: int, t: int)
    requires Shape(w, es, Before(es, s + 1), s, t)
    requires Before(es, s + 1) < |es| ==> s < es[Before(es, s + 1)].start
    ensures SetSorted(es, s, t) <==> StageFits(w)
  {
    hide Before, Base, Reach, RestStart;
    var k := Before(es, s + 1);
    var e, s1 := Reach(es, k, s, t), RestStart(es, k, s, t);
    if s1 == e {
      if k < |es| {
        assert w.right[0] == es[k];
      }
    } else if k < |es| && es[k].start <= t {
      assert w.rem == 0 <==> Max(es[k].End(), t) - s1 <= MAX_LEN;
      if k + 1 < |es| {
        assert w.right[0] == es[k + 1];
      }
    }
  }

  /** With room in the table, it stays well formed if and only if `SetSorted` holds. */
  lemma SetSortedIff(es: seq<Entry>, cap: nat, s: int, t: int, ack: bool)
    requires Valid(es) && 0 <= s <= t <= MAX_SECTOR
    requires SetRange(es, cap, s, t, ack).1 == 0
    ensures Valid(SetRange(es, cap, s, t, ack).0.Table()) <==> SetSorted(es, s, t)
  {
    MergedIsStaged(es, s, t, ack);
    MergedShape(es, s, t, ack);
    BeforeSplits(es, s + 1);
    hide SetSorted, Merged, StageFits, Valid, Staged, Bad, Fill, Combine, Shape, Before;
    var w := Merged(es, s, t, ack);
    ShapeSorted(w, es, s, t);
    FilledSorted(w, cap, ack);
  }

  // ---------- the common case ----------

  lemma SmallIsExact(es: seq<Entry>, s: int, t: int)
    requires Valid(es) && 0 <= s <= t <= MAX_SECTOR && t - s <= MAX_LEN
    requires forall i | 0 <= i < |es| :: !(s < es[i].start < t)
    ensures SetExact(es, s, t)
  {
    BeforeSplits(es, s + 1);
    var k := Before(es, s + 1);
    hide Before, Bad;
    if k < |es| {
      assert t <= es[k].start && es[k].Fits();
    }
    if k + 1 < |es| {
      assert es[k].End() <= es[k + 1].start;
    }
    if k > 0 {
      assert es[k - 1].Fits() && (k < |es| ==> es[k - 1].End() <= es[k].start);
    }
  }

  /** The common case: a range of at most MAX_LEN sectors inside which no entry starts. */
  lemma SmallSetIsUnion(es: seq<Entry>, cap: nat, s: int, t: int, ack: bool)
    requires Valid(es) && 0 <= s <= t <= MAX_SECTOR && t - s <= MAX_LEN
    requires forall i | 0 <= i < |es| :: !(s < es[i].start < t)
    requires SetRange(es, cap, s, t, ack).1 == 0
    ensures IsUnion(SetRange(es, cap, s, t, ack).0.Table(), es, s, t)
  {
    SmallIsExact(es, s, t);
    SetIsUnionIff(es, cap, s, t, ack);
  }

  /** Entries that start inside the range can lose it: setting [5, 30) next to [12, 15) drops
   * sectors 15 to 29 and still reports success. */
  lemma NestedEntryLosesSectors()
    ensures var es := [Entry(0, 10, true), Entry(12, 3, true)];
            && Valid(es) && !SetExact(es, 5, 30)
            && SetRange(es, 512, 5, 30, true) == (Work([Entry(0, 15, true)], [], 30, 0), 0)
  {
    var es := [Entry(0, 10, true), Entry(12, 3, true)];
    assert es[1..] == [es[1]] && es[1..][1..] == [];
    assert Before(es, 6) == 1;
    assert es[..1] == [Entry(0, 10, true)];
    var w1 := MergeLeft(SetStart(es, 5, 30), true);
    assert w1 == Work([Entry(0, 30, true)], [Entry(12, 3, true)], 30, 0);
    var w2 := Combine(w1);
    assert w2 == Work([Entry(0, 15, true)], [], 30, 0);
    assert !Bad(es, 15);
  }

  /** A range longer than MAX_LEN that needs two new entries stores them in descending order. */
  lemma LongRangeIsUnsorted()
    ensures SetRange([], 512, 0, 600, true) ==
            (Work([], [Entry(512, 88, true), Entry(0, 512, true)], 600, 0), 0)
    ensures !SetExact([], 0, 600)
  {
    var w := Work([], [], 0, 600);
    assert Merged([], 0, 600, true) == w;
    var v := Work([], [Entry(0, 512, true)], 512, 88);
    assert [Entry(0, 512, true)] + [] == [Entry(0, 512, true)];
    assert [Entry(512, 88, true)] + [Entry(0, 512, true)] == [Entry(512, 88, true), Entry(0, 512, true)];
    assert Fill(w, 512, true) == Fill(v, 512, true);
    assert Fill(v, 512, true) == Fill(Work([], [Entry(512, 88, true), Entry(0, 512, true)], 600, 0), 512, true);
  }

  /** Old entries up to `k` end before the rest of the range. */
  lemma EarlierEntries(es: seq<Entry>, k: nat, s: int, t: int, i: nat)
    requires Valid(es) && s <= t && i < k <= |es|
    requires RestStart(es, k, s, t) < Reach(es, k, s, t)
    ensures es[i].End() <= RestStart(es, k, s, t)
  {
    assert es[k - 1].Fits() && (i < k - 1 ==> es[i].End() <= es[k - 1].start);
  }
}
