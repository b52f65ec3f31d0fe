/** Which sectors setting a range makes acknowledged. */
module BadBlocksAck {
  import opened Arith
  import opened BadBlocksModel
  import opened BadBlocksSet
  import opened BadBlocksTheorems
  import opened BadBlocksFull

  ghost predicate Acked(es: seq<Entry>, x: int) {
    Marked(es, x, true)
  }

  lemma AckedJoin(a: seq<Entry>, b: seq<Entry>, x: int)
    ensures Acked(a + b, x) <==> Acked(a, x) || Acked(b, x)
  {
    if Acked(a, x) {
      var i :| 0 <= i < |a| && a[i].Has(x) && a[i].ack;
      assert (a + b)[i].Has(x) && (a + b)[i].ack;
    }
    if Acked(b, x) {
      var i :| 0 <= i < |b| && b[i].Has(x) && b[i].ack;
      assert (a + b)[|a| + i].Has(x) && (a + b)[|a| + i].ack;
    }
  }

  lemma AckedOne(e: Entry, x: int)
    ensures Acked([e], x) <==> e.Has(x) && e.ack
  {
    if e.Has(x) && e.ack {
      assert [e][0].Has(x) && [e][0].ack;
    }
  }

  lemma AckedAround(a: seq<Entry>, e: Entry, b: seq<Entry>, x: int)
    ensures Acked(a + [e] + b, x) <==> Acked(a, x) || (e.Has(x) && e.ack) || Acked(b, x)
  {
    AckedJoin(a + [e], b, x);
    AckedJoin(a, [e], x);
    AckedOne(e, x);
  }

  // ---------- each stage ----------

  lemma LeftAcks(w: Work, ack: bool, x: int)
    requires w.left != [] ==> Last(w.left).start <= w.s
    requires Acked(MergeLeft(w, ack).Table(), x)
    ensures Acked(w.Table(), x) || (ack && w.s <= x < w.To())
  {
    if w.left != [] && w.s <= Last(w.left).End() {
      var p, f := Last(w.left), Front(w.left);
      var e := Last(MergeLeft(w, ack).left);
      assert w.left == f + [p] && MergeLeft(w, ack).left == f + [e];
      AckedAround(f, p, w.right, x);
      AckedAround(f, e, w.right, x);
      hide Acked;
    }
  }

  lemma RightAcks(w: Work, ack: bool, x: int)
    requires Acked(MergeRight(w, ack).Table(), x)
    ensures Acked(w.Table(), x) || (ack && w.s <= x < w.To())
  {
    var v := MergeRight(w, ack);
    if v != w {
      var h, e := w.right[0], Last(v.left);
      assert v.left == w.left + [e] && w.Table() == w.left + [h] + w.right[1..];
      AckedAround(w.left, h, w.right[1..], x);
      AckedAround(w.left, e, w.right[1..], x);
      hide Acked;
    }
  }

  lemma CombineAcks(w: Work, x: int)
    requires Flush(w) && Acked(Combine(w).Table(), x)
    ensures Acked(w.Table(), x)
  {
    var v := Combine(w);
    if v != w {
      var f, p, h := Front(w.left), Last(w.left), w.right[0];
      var e := Last(v.left);
      assert v.left == f + [e] && w.left == f + [p] && w.right == [h] + w.right[1..];
      assert v.Table() == f + [e] + w.right[1..] && w.Table() == f + [p] + ([h] + w.right[1..]);
      AckedAround(f, e, w.right[1..], x);
      AckedAround(f, p, [h] + w.right[1..], x);
      AckedJoin([h], w.right[1..], x);
      AckedOne(h, x);
      hide Acked;
    }
  }

  /** The loop acknowledges exactly what it inserts, and that only for an acknowledged range. */
  lemma {:induction false} FillAcks(w: Work, cap: nat, ack: bool, x: int)
    requires 0 <= w.rem
    ensures var (r, rv) := Fill(w, cap, ack);
            && (Acked(r.Table(), x) <==> Acked(w.Table(), x) || (ack && w.s <= x < r.s))
            && w.s <= r.s <= w.To() && (rv == 0 ==> r.s == w.To())
    decreases w.rem
  {
    if 0 < w.rem && |w.Table()| < cap {
      var n := Min(w.rem, MAX_LEN);
      var e := Entry(w.s, n, ack);
      var v := Work(w.left, [e] + w.right, w.s + n, w.rem - n);
      FillAcks(v, cap, ack, x);
      AckedJoin(w.left, w.right, x);
      AckedJoin(w.left, [e] + w.right, x);
      AckedJoin([e], w.right, x);
      AckedOne(e, x);
      hide Acked;
    }
  }

  // ---------- all stages ----------

  lemma MergedAcks(es: seq<Entry>, s: int, t: int, ack: bool, x: int)
    requires Valid(es) && 0 <= s <= t <= MAX_SECTOR && Acked(Combine(Merged(es, s, t, ack)).Table(), x)
    ensures Acked(es, x) || (ack && s <= x < t)
  {
    StartIsStaged(es, s, t);
    LeftMerged(es, s, t, ack);
    MergedIsStaged(es, s, t, ack);
    var w0 := SetStart(es, s, t);
    var w1 := MergeLeft(w0, ack);
    LeftMoves(w0, ack);
    assert Flush(Merged(es, s, t, ack));
    hide MergeLeft, MergeRight, Combine, SetStart, Acked, Valid, Flush, Goal;
    CombineAcks(MergeRight(w1, ack), x);
    RightAcks(w1, ack, x);
    if Acked(w1.Table(), x) {
      LeftAcks(w0, ack, x);
    }
  }

  lemma LeftMoves(w: Work, ack: bool)
    requires Valid(w.left) && (w.left != [] ==> Last(w.left).start <= w.s)
    ensures w.s <= MergeLeft(w, ack).s || MergeLeft(w, ack).rem == 0
  {
  }

  /** Setting an unacknowledged range acknowledges nothing. In particular every sector that it makes bad is
   * unacknowledged. */
  lemma UnackedSetAcksNothing(es: seq<Entry>, cap: nat, s: int, t: int, x: int)
    requires Valid(es) && 0 <= s <= t <= MAX_SECTOR
    ensures var table := SetRange(es, cap, s, t, false).0.Table();
            && (Marked(table, x, true) ==> Marked(es, x, true))
            && (Bad(table, x) && !Bad(es, x) ==> Marked(table, x, false) && !Marked(table, x, true))
  {
    MergedIsStaged(es, s, t, false);
    var w := Combine(Merged(es, s, t, false));
    CombineRem(Merged(es, s, t, false));
    hide Combine, Merged, Valid, Goal, Fill;
    FillAcks(w, cap, false, x);
    if Acked(w.Table(), x) {
      MergedAcks(es, s, t, false, x);
    }
  }

  /** The same, for all sectors. */
  ghost predicate NoneAcked(table: seq<Entry>, es: seq<Entry>) {
    forall x :: Marked(table, x, true) ==> Marked(es, x, true)
  }

  lemma SetAcksNone(es: seq<Entry>, cap: nat, s: int, t: int)
    requires Valid(es) && 0 <= s <= t <= MAX_SECTOR
    ensures NoneAcked(SetRange(es, cap, s, t, false).0.Table(), es)
  {
    hide SetRange, Valid;
    forall x | Marked(SetRange(es, cap, s, t, false).0.Table(), x, true) ensures Marked(es, x, true) {
      UnackedSetAcksNothing(es, cap, s, t, x);
    }
  }

  lemma CombineRem(w: Work)
    requires Staged(w)
    ensures 0 <= Combine(w).rem == w.rem && (w.rem != 0 ==> Combine(w) == w)
  {
  }

  /** The sector belongs to the part of the next entry, beyond the range, that is cut off because the entry
   * extended down to the range would be too long. */
  predicate InCutTail(es: seq<Entry>, s: int, t: int, x: int) {
    var k := Before(es, s + 1);
    && k < |es| && es[k].start <= t <= x < es[k].End()
    && RestStart(es, k, s, t) < t && RestStart(es, k, s, t) + MAX_LEN <= x
  }

  /** Setting an acknowledged range acknowledges a sector outside the range exactly if the sector is in the
   * cut tail of the next entry, which is put back with the flag of the range. */
  lemma AckedOutsideIff(es: seq<Entry>, cap: nat, s: int, t: int, x: int)
    requires Valid(es) && 0 <= s <= t <= MAX_SECTOR && SetRange(es, cap, s, t, true).1 == 0
    requires !Marked(es, x, true) && !(s <= x < t)
    ensures Marked(SetRange(es, cap, s, t, true).0.Table(), x, true) <==> InCutTail(es, s, t, x)
  {
    var w := Merged(es, s, t, true);
    MergedIsStaged(es, s, t, true);
    CombineRem(w);
    BeforeSplits(es, s + 1);
    MergedShape(es, s, t, true);
    RestEndsAtRange(es, Before(es, s + 1), s, t);
    FillAcks(Combine(w), cap, true, x);
    if Acked(Combine(w).Table(), x) {
      MergedAcks(es, s, t, true, x);
    }
    NotBeforeRange(es, s, t);
    hide Combine, Merged, Valid, Goal, Fill, Shape, Acked, Before, NextIndex, RestStart, Reach;
    if 0 < w.rem {
      ShapeOfFill(w, es, s, t);
    } else {
      ShapeOfNone(w, es, s, t);
    }
  }

  lemma NotBeforeRange(es: seq<Entry>, s: int, t: int)
    requires Valid(es) && s <= t && Before(es, s + 1) <= |es|
    ensures s <= RestStart(es, Before(es, s + 1), s, t) || RestStart(es, Before(es, s + 1), s, t) == t
  {
    assert Before(es, s + 1) > 0 ==> es[Before(es, s + 1) - 1].Fits();
  }

  lemma ShapeOfNone(w: Work, es: seq<Entry>, s: int, t: int)
    requires Shape(w, es, Before(es, s + 1), s, t) && w.rem == 0
    requires var k := Before(es, s + 1);
             RestStart(es, k, s, t) != Reach(es, k, s, t) ==> RestStart(es, k, s, t) < t == Reach(es, k, s, t)
    ensures forall x :: !InCutTail(es, s, t, x)
  {
  }

  /** An unacknowledged entry of the greatest length, and an acknowledged range that begins before it and
   * ends in it: what the range pushes out of the entry becomes acknowledged. */
  lemma TailIsAcknowledged(a: int, s: int, t: int, cap: nat, x: int)
    requires 0 <= s < a <= t < s + MAX_LEN <= x < a + MAX_LEN <= MAX_SECTOR && 2 <= cap
    ensures var es := [Entry(a, MAX_LEN, false)];
            var (w, rv) := SetRange(es, cap, s, t, true);
            && Valid(es) && rv == 0 && !(s <= x < t)
            && Marked(es, x, false) && !Marked(es, x, true) && Marked(w.Table(), x, true)
  {
    var es := [Entry(a, MAX_LEN, false)];
    assert es[0].Has(x);
    BeforeSplits(es, s + 1);
    var n := a - s;
    var w := Merged(es, s, t, true);
    assert w == Work([Entry(s, MAX_LEN, false)], [], s + MAX_LEN, n);
    var v := Work(w.left, [Entry(s + MAX_LEN, n, true)] + [], s + MAX_LEN + n, 0);
    assert Fill(w, cap, true) == Fill(v, cap, true) == (v, 0);
    assert v.Table()[1].Has(x);
  }

  /** Setting the sectors of entry `j` once more, before anything is joined. */
  lemma CoverMerges(es: seq<Entry>, j: nat)
    requires Valid(es) && j < |es|
    ensures Merged(es, es[j].start, es[j].End(), true) ==
            Work(es[..j] + [es[j].(ack := true)], es[j + 1..], es[j].End(), 0)
  {
    var e := es[j];
    BeforeSplits(es, e.start + 1);
    assert es[j].start < e.start + 1 && e.Fits();
    assert j + 1 < |es| ==> es[j].End() <= es[j + 1].start && !(es[j + 1].start < e.start + 1);
    assert Before(es, e.start + 1) == j + 1;
    assert Front(es[..j + 1]) == es[..j] && Last(es[..j + 1]) == e && e.Fits();
    hide Before;
  }

  /** And after the entry may have been joined with the next one. */
  lemma CoverJoins(es: seq<Entry>, j: nat) returns (f: Entry, n: nat)
    requires Valid(es) && j < |es|
    requires j + 1 < |es| && es[j + 1].start == es[j].End() ==> es[j + 1].ack
    ensures var r := Combine(Work(es[..j] + [es[j].(ack := true)], es[j + 1..], es[j].End(), 0));
            j < n <= |es| && r.left == es[..j] + [f] && r.right == es[n..] && r.rem == 0
    ensures f.ack && f.start == es[j].start && es[j].End() <= f.End()
  {
    var e := es[j].(ack := true);
    var w := Work(es[..j] + [e], es[j + 1..], e.End(), 0);
    assert Front(w.left) == es[..j] && Last(w.left) == e;
    assert j + 1 < |es| ==> es[j].Fits() && es[j + 1].Fits() && es[j].End() <= es[j + 1].start;
    var joins := Combine(w) != w;
    n := if joins then j + 2 else j + 1;
    f := if joins then Entry(e.start, e.len + es[j + 1].len, true) else e;
  }

  lemma Elsewhere(es: seq<Entry>, j: nat, x: int, i: nat)
    requires Sorted(es) && j < |es| && i < |es| && i != j && es[j].Has(x)
    ensures !es[i].Has(x)
  {
  }

  /** A recorded entry is acknowledged by setting its sectors once more, unless it then joins an
   * unacknowledged neighbour. */
  lemma RangeAcknowledged(es: seq<Entry>, cap: nat, j: nat, x: int)
    requires Valid(es) && j < |es| && es[j].Has(x)
    requires j + 1 < |es| && es[j + 1].start == es[j].End() ==> es[j + 1].ack
    ensures var (w, rv) := SetRange(es, cap, es[j].start, es[j].End(), true);
            rv == 0 && Marked(w.Table(), x, true) && !Marked(w.Table(), x, false)
  {
    CoverMerges(es, j);
    var f, n := CoverJoins(es, j);
    hide Combine, Merged, AllFit, Sorted;
    var table := es[..j] + [f] + es[n..];
    assert SetRange(es, cap, es[j].start, es[j].End(), true).0.Table() == table;
    assert table[j].Has(x);
    forall i | 0 <= i < |table| && table[i].Has(x) ensures table[i].ack {
      if i != j {
        Elsewhere(es, j, x, if i < j then i else i - j - 1 + n);
      }
    }
  }
}
