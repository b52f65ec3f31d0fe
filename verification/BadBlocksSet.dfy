/** When setting a range is set union: the exact condition, and what happens otherwise. */
module BadBlocksSet {
  import opened Arith
  import opened BadBlocksModel

  // ---------- joining well-formed pieces ----------

  lemma ValidJoin(a: seq<Entry>, b: seq<Entry>)
    requires Valid(a) && Valid(b)
    ensures Valid(a + b) <==> a == [] || b == [] || Last(a).End() <= b[0].start
  {
    if a != [] && b != [] {
      var c := a + b;
      assert c[|a| - 1] == Last(a) && c[|a|] == b[0];
      if Last(a).End() <= b[0].start {
        forall i, j | 0 <= i < j < |c| ensures c[i].End() <= c[j].start {
          if i < |a| <= j {
            assert a[i].End() <= Last(a).End() || i == |a| - 1;
            assert c[j] == b[j - |a|];
          }
        }
      }
    } else {
      assert a + b == a || a + b == b;
    }
  }

  lemma ValidSlice(es: seq<Entry>, i: nat, j: nat)
    requires Valid(es) && i <= j <= |es|
    ensures Valid(es[i..j])
  {
    assert forall k | 0 <= k < j - i :: es[i..j][k] == es[i + k];
  }

  // ---------- what every stage keeps ----------

  /** The bad sectors once the rest of the range is in. */
  ghost predicate Goal(w: Work, x: int) {
    Bad(w.Table(), x) || w.s <= x < w.To()
  }

  ghost predicate SameGoal(v: Work, w: Work) {
    forall x :: Goal(v, x) <==> Goal(w, x)
  }

  /** Both parts are well formed, and the part on the left ends where the rest of the range begins
   * or before it. They may still overlap each other. */
  predicate Staged(w: Work) {
    && Valid(w.left) && Valid(w.right)
    && 0 <= w.s && 0 <= w.rem && w.To() <= MAX_SECTOR
    && (w.left != [] ==> Last(w.left).End() <= w.s)
  }

  lemma StartIsStaged(es: seq<Entry>, s: int, t: int)
    requires Valid(es) && 0 <= s <= t <= MAX_SECTOR
    ensures var w := SetStart(es, s, t);
            var k := Before(es, s + 1);
            && k <= |es| && w == Work(es[..k], es[k..], s, t - s)
            && w.Table() == es && Valid(w.left) && Valid(w.right)
            && (w.left != [] ==> Last(w.left).start <= s)
            && (w.right != [] ==> s < w.right[0].start)
            && (w.left != [] && w.right != [] ==> Last(w.left).End() <= w.right[0].start)
  {
    BeforeSplits(es, s + 1);
    var k := Before(es, s + 1);
    ValidSlice(es, 0, k);
    ValidSlice(es, k, |es|);
    assert es[k..|es|] == es[k..] && es[0..k] == es[..k];
  }

  /** Replacing the last entry on the left. */
  lemma BadReplaceLast(left: seq<Entry>, e: Entry, right: seq<Entry>, x: int)
    requires left != []
    ensures Bad(left + right, x) <==> Bad(Front(left), x) || Last(left).Has(x) || Bad(right, x)
    ensures Bad(Front(left) + [e] + right, x) <==> Bad(Front(left), x) || e.Has(x) || Bad(right, x)
  {
    assert left == Front(left) + [Last(left)];
    BadAppend(left, right, x);
    BadAppend(Front(left), [Last(left)], x);
    BadOne(Last(left), x);
    BadAppend(Front(left) + [e], right, x);
    BadAppend(Front(left), [e], x);
    BadOne(e, x);
  }

  lemma ValidReplaceLast(left: seq<Entry>, e: Entry)
    requires Valid(left) && left != [] && e.Fits() && e.start == Last(left).start
    ensures Valid(Front(left) + [e])
  {
    ValidSlice(left, 0, |left| - 1);
    assert left[0..|left| - 1] == Front(left);
    ValidJoin(Front(left), [e]);
    ValidJoin(Front(left), [Last(left)]);
    assert left == Front(left) + [Last(left)];
  }

  lemma MergeLeftKeeps(w: Work, ack: bool)
    requires Valid(w.left) && Valid(w.right) && 0 <= w.s && 0 <= w.rem && w.To() <= MAX_SECTOR
    requires w.left != [] ==> Last(w.left).start <= w.s
    ensures Staged(MergeLeft(w, ack)) && SameGoal(w, MergeLeft(w, ack))
  {
    var v := MergeLeft(w, ack);
    if w.left != [] && w.s <= Last(w.left).End() {
      ValidReplaceLast(w.left, Last(v.left));
      forall x ensures Goal(w, x) <==> Goal(v, x) {
        BadReplaceLast(w.left, Last(v.left), w.right, x);
        assert v.Table() == Front(w.left) + [Last(v.left)] + w.right;
      }
    }
  }

  /** Where the next entry starts before the rest of the range, the left part already reaches it. */
  predicate Reaches(w: Work) {
    w.right != [] && w.right[0].start < w.s ==>
      w.left != [] && Last(w.left).start <= w.right[0].start && Last(w.left).End() == w.s
  }

  lemma MergeRightKeeps(w: Work, ack: bool)
    requires Staged(w) && Reaches(w)
    ensures Staged(MergeRight(w, ack)) && SameGoal(w, MergeRight(w, ack))
  {
    var v := MergeRight(w, ack);
    if !(w.rem == 0 || w.right == [] || w.To() < w.right[0].start) {
      var h, e := w.right[0], Last(v.left);
      assert v.left == w.left + [e] && e.Fits();
      ValidJoin(w.left, [e]);
      ValidSlice(w.right, 1, |w.right|);
      assert w.right[1..|w.right|] == w.right[1..];
      assert w.right == [h] + w.right[1..];
      forall x ensures Goal(w, x) <==> Goal(v, x) {
        BadAppend(w.left, w.right, x);
        BadAppend([h], w.right[1..], x);
        BadOne(h, x);
        BadAppend(w.left + [e], w.right[1..], x);
        BadAppend(w.left, [e], x);
        BadOne(e, x);
        if h.Has(x) && x < w.s {
          assert w.left[|w.left| - 1].Has(x);
        }
      }
    }
  }

  /** The right part is a tail of the old table. */
  ghost predicate TailOf(w: Work, es: seq<Entry>) {
    exists k :: 0 <= k <= |es| && w.right == es[k..]
  }

  /** A next entry that starts before the last one on the left is covered by the one before that. */
  predicate Behind(w: Work) {
    w.left != [] && w.right != [] && w.right[0].start < Last(w.left).start ==>
      var f := Front(w.left);
      f != [] && Last(f).start <= w.right[0].start && Last(f).End() == Last(w.left).start
  }

  /** Nothing is left to place, so the left part ends exactly at `s` where it matters. */
  predicate Flush(w: Work) {
    w.rem == 0 && w.left != [] && w.right != [] && w.right[0].start <= w.s ==> Last(w.left).End() == w.s
  }

  /** The next entry starts after `s`; where it starts inside the range, the range ends at `t`. */
  predicate Inner(w: Work, s: int, t: int) {
    w.right != [] ==> s < w.right[0].start && (w.right[0].start < w.To() ==> w.To() <= t)
  }

  lemma LeftShape(w: Work, ack: bool)
    requires w.left != [] ==> Last(w.left).start <= w.s
    requires w.right != [] ==> w.s < w.right[0].start
    requires w.left != [] && w.right != [] ==> Last(w.left).End() <= w.right[0].start
    requires Valid(w.left)
    ensures var v := MergeLeft(w, ack);
            && v.right == w.right && Reaches(v) && Flush(v) && Inner(v, w.s, w.To())
            && (v.left != [] && v.right != [] ==> Last(v.left).start < v.right[0].start)
            && (v.rem != 0 ==> v.To() == w.To())
  {
  }

  /** What the stages have to start from. */
  lemma StartFacts(es: seq<Entry>, s: int, t: int)
    requires Valid(es) && 0 <= s <= t <= MAX_SECTOR
    ensures var w := SetStart(es, s, t);
            && w.s == s && w.rem == t - s && TailOf(w, es) && Valid(w.left) && Valid(w.right)
            && (w.left != [] ==> Last(w.left).start <= s) && (w.right != [] ==> s < w.right[0].start)
            && (w.left != [] && w.right != [] ==> Last(w.left).End() <= w.right[0].start)
            && (forall x :: Goal(w, x) <==> Bad(es, x) || s <= x < t)
  {
    StartIsStaged(es, s, t);
    hide SetStart, Valid, Bad, Before;
  }

  lemma LeftMerged(es: seq<Entry>, s: int, t: int, ack: bool)
    requires Valid(es) && 0 <= s <= t <= MAX_SECTOR
    ensures var w := MergeLeft(SetStart(es, s, t), ack);
            && Staged(w) && Reaches(w) && TailOf(w, es) && Flush(w) && Inner(w, s, t)
            && (w.left != [] && w.right != [] ==> Last(w.left).start < w.right[0].start)
            && (w.rem != 0 ==> w.To() == t)
            && (forall x :: Goal(w, x) <==> Bad(es, x) || s <= x < t)
  {
    StartFacts(es, s, t);
    hide SetStart, MergeLeft, Bad, Goal, Staged, Reaches, Flush, Inner, Valid;
    var w0 := SetStart(es, s, t);
    LeftShape(w0, ack);
    MergeLeftKeeps(w0, ack);
    assert SameGoal(w0, MergeLeft(w0, ack));
  }

  lemma RightTail(w: Work, es: seq<Entry>, ack: bool)
    requires TailOf(w, es)
    ensures TailOf(MergeRight(w, ack), es)
  {
    var v := MergeRight(w, ack);
    if v.right != w.right {
      var k :| 0 <= k <= |es| && w.right == es[k..];
      assert v.right == es[k + 1..];
    }
  }

  lemma RightShape(w: Work, ack: bool, s: int, t: int)
    requires Reaches(w) && Flush(w) && Inner(w, s, t)
    requires |w.right| > 1 ==> w.right[0].start < w.right[0].End() <= w.right[1].start
    requires w.left != [] && w.right != [] ==> Last(w.left).start < w.right[0].start
    ensures Flush(MergeRight(w, ack)) && Behind(MergeRight(w, ack)) && Inner(MergeRight(w, ack), s, t)
  {
    if !(w.rem == 0 || w.right == [] || w.To() < w.right[0].start) {
      var v := MergeRight(w, ack);
      assert Front(v.left) == w.left;
      assert Last(v.left).start == w.s && Last(v.left).End() == v.s;
      assert v.To() == Max(w.right[0].End(), w.To());
      hide MergeRight;
      if |w.right| > 1 {
        assert v.right[0] == w.right[1];
      }
    }
  }

  lemma RightMerged(w: Work, es: seq<Entry>, ack: bool, s: int, t: int)
    requires Staged(w) && Reaches(w) && TailOf(w, es) && Flush(w) && Inner(w, s, t)
    requires w.left != [] && w.right != [] ==> Last(w.left).start < w.right[0].start
    ensures var v := MergeRight(w, ack);
            Staged(v) && TailOf(v, es) && Flush(v) && Behind(v) && Inner(v, s, t) && SameGoal(w, v)
  {
    RightShape(w, ack, s, t);
    RightTail(w, es, ack);
    MergeRightKeeps(w, ack);
  }

  /** Both merges together keep the goal. */
  lemma MergedIsStaged(es: seq<Entry>, s: int, t: int, ack: bool)
    requires Valid(es) && 0 <= s <= t <= MAX_SECTOR
    ensures var w := Merged(es, s, t, ack);
            && Staged(w) && TailOf(w, es) && Flush(w) && Behind(w) && Inner(w, s, t)
            && (forall x :: Goal(w, x) <==> Bad(es, x) || s <= x < t)
  {
    LeftMerged(es, s, t, ack);
    var w := MergeLeft(SetStart(es, s, t), ack);
    hide MergeLeft, MergeRight, SetStart, Goal, Staged, Reaches, TailOf, Valid;
    RightMerged(w, es, ack, s, t);
    assert SameGoal(w, MergeRight(w, ack));
  }

  // ---------- the last two stages, and when they are right ----------

  ghost predicate AllBad(es: seq<Entry>, a: int, b: int) {
    forall x | a <= x < b :: Bad(es, x)
  }

  /** What the merged state must look like for the rest of the algorithm to be right: the next entry
   * is out of the way; or the whole range is placed and the next entry can be joined without losing
   * a sector. */
  ghost predicate Safe(w: Work, es: seq<Entry>) {
    if w.rem == 0 then
      w.left != [] && w.right != [] && w.right[0].start < w.s ==>
        && 1 <= w.right[0].End() - Last(w.left).start < MAX_LEN
        && AllBad(es, w.right[0].End(), w.s)
    else
      w.rem <= MAX_LEN && (w.right != [] ==> w.To() <= w.right[0].start)
  }

  /** The table holds exactly the union, in good order. */
  ghost predicate IsUnion(table: seq<Entry>, es: seq<Entry>, s: int, t: int) {
    Valid(table) && forall x :: Bad(table, x) <==> Bad(es, x) || s <= x < t
  }

  lemma {:induction false} FillSuffix(w: Work, cap: nat, ack: bool)
    requires 0 <= w.rem
    ensures var r := Fill(w, cap, ack).0;
            && r.left == w.left
            && |w.right| <= |r.right| && r.right[|r.right| - |w.right|..] == w.right
    ensures Fill(w, cap, ack).1 in {0, 1}
    ensures Fill(w, cap, ack).1 == 0 ==> Fill(w, cap, ack).0.rem == 0
    decreases w.rem
  {
    if 0 < w.rem && |w.Table()| < cap {
      var n := Min(w.rem, MAX_LEN);
      var v := Work(w.left, [Entry(w.s, n, ack)] + w.right, w.s + n, w.rem - n);
      FillSuffix(v, cap, ack);
      var r := Fill(v, cap, ack).0;
      assert r.right[|r.right| - |v.right|..][1..] == r.right[|r.right| - |w.right|..];
    }
  }

  lemma {:induction false} FillKeepsGoal(w: Work, cap: nat, ack: bool)
    requires 0 <= w.rem
    ensures SameGoal(w, Fill(w, cap, ack).0)
    decreases w.rem
  {
    if 0 < w.rem && |w.Table()| < cap {
      var n := Min(w.rem, MAX_LEN);
      var e := Entry(w.s, n, ack);
      var v := Work(w.left, [e] + w.right, w.s + n, w.rem - n);
      FillKeepsGoal(v, cap, ack);
      forall x ensures Goal(w, x) <==> Goal(v, x) {
        BadAppend(w.left, w.right, x);
        BadAppend(w.left, [e] + w.right, x);
        BadAppend([e], w.right, x);
        BadOne(e, x);
      }
    }
  }

  lemma NotSortedAt(table: seq<Entry>, i: nat)
    requires i + 1 < |table| && table[i + 1].start < table[i].End()
    ensures !Valid(table)
  {
  }

  /** Two pieces next to each other, the later one first. */
  lemma PiecesUnsorted(left: seq<Entry>, right: seq<Entry>, tail: seq<Entry>, e1: Entry, e2: Entry)
    requires |tail| <= |right| && right[|right| - |tail|..] == tail
    requires |tail| > 1 && tail[0] == e2 && tail[1] == e1 && e1.start < e2.End()
    ensures !Valid(left + right)
  {
    var k := |right| - |tail|;
    assert right[k] == tail[0] && right[k + 1] == tail[1];
    NotSortedAt(left + right, |left| + k);
  }

  /** Room for one piece that fits, in front of entries that start later. */
  lemma FillOnePiece(w: Work, cap: nat, ack: bool)
    requires Staged(w) && 0 < w.rem <= MAX_LEN && Fill(w, cap, ack).1 == 0
    ensures Valid(Fill(w, cap, ack).0.Table()) <==> w.right == [] || w.To() <= w.right[0].start
  {
    var e := Entry(w.s, w.rem, ack);
    var r := Fill(w, cap, ack).0;
    assert r == Fill(Work(w.left, [e] + w.right, w.To(), 0), cap, ack).0;
    assert r.Table() == w.left + ([e] + w.right);
    ValidJoin([e], w.right);
    if w.right == [] || w.To() <= w.right[0].start {
      ValidJoin(w.left, [e] + w.right);
    } else {
      NotSortedAt(r.Table(), |w.left|);
    }
  }

  /** More than one piece comes out in descending order. */
  lemma FillManyPieces(w: Work, cap: nat, ack: bool)
    requires Staged(w) && MAX_LEN < w.rem && Fill(w, cap, ack).1 == 0
    ensures !Valid(Fill(w, cap, ack).0.Table())
  {
    var e1 := Entry(w.s, MAX_LEN, ack);
    var v1 := Work(w.left, [e1] + w.right, w.s + MAX_LEN, w.rem - MAX_LEN);
    var e2 := Entry(v1.s, Min(v1.rem, MAX_LEN), ack);
    var v2 := Work(w.left, [e2] + v1.right, v1.s + e2.len, v1.rem - e2.len);
    assert Fill(w, cap, ack) == Fill(v1, cap, ack) == Fill(v2, cap, ack);
    FillSuffix(v2, cap, ack);
    var r := Fill(v2, cap, ack).0;
    hide Fill;
    assert v2.right[0] == e2 && v2.right[1] == e1;
    PiecesUnsorted(r.left, r.right, v2.right, e1, e2);
  }

  /** Past the end of an old entry only later old entries can be bad. */
  lemma SuffixBad(es: seq<Entry>, k: nat, x: int)
    requires Valid(es) && k < |es| && es[k].End() <= x
    ensures Bad(es, x) <==> Bad(es[k..][1..], x)
  {
    var rest := es[k..][1..];
    assert forall i | 0 <= i < |rest| :: rest[i] == es[k + 1 + i];
    if Bad(es, x) {
      var i :| 0 <= i < |es| && es[i].Has(x);
      assert rest[i - k - 1].Has(x);
    }
    if Bad(rest, x) {
      var i :| 0 <= i < |rest| && rest[i].Has(x);
      assert es[k + 1 + i].Has(x);
    }
  }

  /** Joining the extended entry with the next one. */
  lemma CombineJoins(w: Work, es: seq<Entry>, k: nat, s: int, t: int)
    requires Staged(w) && w.rem == 0 && w.left != [] && w.right != [] && Behind(w)
    requires w.right[0].start <= w.s == Last(w.left).End()
    requires 1 <= w.right[0].End() - Last(w.left).start < MAX_LEN
    requires forall x :: Goal(w, x) <==> Bad(es, x) || s <= x < t
    requires Valid(es) && k < |es| && w.right == es[k..]
    requires w.right[0].End() < w.s ==> s <= w.right[0].End() && w.s <= t
    ensures IsUnion(Combine(w).Table(), es, s, t) <==> AllBad(es, w.right[0].End(), w.s)
  {
    var p, h := Last(w.left), w.right[0];
    var e := Entry(p.start, h.End() - p.start, p.ack && h.ack);
    var table := Combine(w).Table();
    assert table == Front(w.left) + [e] + w.right[1..];
    CombineValid(w, e);
    hide Combine;
    forall x
      ensures x < h.End() || w.s <= x ==> (Bad(table, x) <==> Goal(w, x))
      ensures h.End() <= x < w.s ==> (Bad(table, x) <==> Bad(es, x))
    {
      CombineMeaning(w, e, x);
      if h.End() <= x < w.s {
        FrontEndsBefore(w.left, x);
        SuffixBad(es, k, x);
      } else if h.Has(x) && x < p.start {
        var f := Front(w.left);
        assert f[|f| - 1].Has(x);
      }
    }
  }

  /** Too short a join leaves an entry without sectors. */
  lemma CombineCollapses(w: Work)
    requires Staged(w) && w.rem == 0 && w.left != [] && w.right != []
    requires w.right[0].start <= w.s == Last(w.left).End() && w.right[0].End() - Last(w.left).start < 1
    ensures !Valid(Combine(w).Table())
  {
    var table := Combine(w).Table();
    assert table[|w.left| - 1].len < 1;
  }

  lemma CombineValid(w: Work, e: Entry)
    requires Staged(w) && w.left != [] && w.right != []
    requires e.start == Last(w.left).start && e.End() == w.right[0].End() && 1 <= e.len <= MAX_LEN
    ensures Valid(Front(w.left) + [e] + w.right[1..])
  {
    var h, rest := w.right[0], w.right[1..];
    ValidReplaceLast(w.left, e);
    ValidSlice(w.right, 1, |w.right|);
    assert w.right[1..|w.right|] == rest && w.right == [h] + rest;
    ValidJoin([h], rest);
    ValidJoin(Front(w.left) + [e], rest);
  }

  lemma CombineMeaning(w: Work, e: Entry, x: int)
    requires w.left != [] && w.right != [] && w.rem == 0
    ensures var rest := w.right[1..];
            && (Bad(Front(w.left) + [e] + rest, x) <==> Bad(Front(w.left), x) || e.Has(x) || Bad(rest, x))
            && (Goal(w, x) <==> Bad(Front(w.left), x) || Last(w.left).Has(x) || w.right[0].Has(x) || Bad(rest, x))
  {
    BadReplaceLast(w.left, e, w.right[1..], x);
    BadReplaceLast(w.left, e, w.right, x);
    assert w.right == [w.right[0]] + w.right[1..];
    BadAppend([w.right[0]], w.right[1..], x);
    BadOne(w.right[0], x);
  }

  lemma FrontEndsBefore(left: seq<Entry>, x: int)
    requires Valid(left) && left != [] && Last(left).start <= x
    ensures !Bad(Front(left), x)
  {
  }

  // ---------- the main theorem ----------

  /** Nothing left to place and nothing joined: all depends on the two parts being apart. */
  lemma SafeIffApart(w: Work, es: seq<Entry>, s: int, t: int)
    requires Staged(w) && w.rem == 0
    requires forall x :: Goal(w, x) <==> Bad(es, x) || s <= x < t
    ensures IsUnion(w.Table(), es, s, t) <==>
            w.left == [] || w.right == [] || Last(w.left).End() <= w.right[0].start
  {
    ValidJoin(w.left, w.right);
    assert forall x :: Goal(w, x) <==> Bad(w.Table(), x);
  }

  lemma SafeIffPlaced(w: Work, es: seq<Entry>, s: int, t: int)
    requires Valid(es) && Staged(w) && TailOf(w, es) && Flush(w) && Behind(w) && Inner(w, s, t) && w.rem == 0
    requires forall x :: Goal(w, x) <==> Bad(es, x) || s <= x < t
    ensures Safe(w, es) <==> IsUnion(Combine(w).Table(), es, s, t)
  {
    if w.left == [] || w.right == [] || w.s < w.right[0].start {
      assert Combine(w) == w;
      SafeIffApart(w, es, s, t);
    } else {
      SafeIffMeeting(w, es, s, t);
    }
  }

  /** What `Combine` does to two parts that meet. */
  lemma CombineCases(w: Work)
    requires w.rem == 0 && w.left != [] && w.right != [] && Last(w.left).End() == w.s
    requires w.right[0].start <= w.s
    ensures MAX_LEN <= w.right[0].End() - Last(w.left).start ==> Combine(w) == w
  {
  }

  lemma SafeIsGap(w: Work, es: seq<Entry>)
    requires w.rem == 0 && w.left != [] && w.right != [] && w.right[0].start <= w.s && 1 <= w.right[0].len
    ensures var n := w.right[0].End() - Last(w.left).start;
            && (w.right[0].start < w.s ==>
                  (Safe(w, es) <==> 1 <= n < MAX_LEN && AllBad(es, w.right[0].End(), w.s)))
            && (w.right[0].start == w.s ==> Safe(w, es) && AllBad(es, w.right[0].End(), w.s))
  {
  }

  lemma SafeIffMeeting(w: Work, es: seq<Entry>, s: int, t: int)
    requires Valid(es) && Staged(w) && TailOf(w, es) && Flush(w) && Behind(w) && Inner(w, s, t) && w.rem == 0
    requires w.left != [] && w.right != [] && w.right[0].start <= w.s
    requires forall x :: Goal(w, x) <==> Bad(es, x) || s <= x < t
    ensures Safe(w, es) <==> IsUnion(Combine(w).Table(), es, s, t)
  {
    var p, h := Last(w.left), w.right[0];
    assert h.Fits() && p.Fits();
    var k :| 0 <= k <= |es| && w.right == es[k..];
    hide Valid, Staged, TailOf, Behind, Combine, Goal, Bad, IsUnion, Safe, AllBad;
    CombineCases(w);
    SafeIsGap(w, es);
    var n := h.End() - p.start;
    if n >= MAX_LEN {
      SafeIffApart(w, es, s, t);
    } else if n < 1 {
      CombineCollapses(w);
      NotUnion(Combine(w).Table(), es, s, t);
    } else {
      CombineJoins(w, es, k, s, t);
    }
  }

  lemma NotUnion(table: seq<Entry>, es: seq<Entry>, s: int, t: int)
    requires !Valid(table)
    ensures !IsUnion(table, es, s, t)
  {
  }

  lemma SafeIffFilled(w: Work, es: seq<Entry>, s: int, t: int, cap: nat, ack: bool)
    requires Staged(w) && 0 < w.rem && Fill(w, cap, ack).1 == 0
    requires forall x :: Goal(w, x) <==> Bad(es, x) || s <= x < t
    ensures Safe(w, es) <==> IsUnion(Fill(w, cap, ack).0.Table(), es, s, t)
  {
    FillSuffix(w, cap, ack);
    FillKeepsGoal(w, cap, ack);
    if w.rem <= MAX_LEN {
      FillOnePiece(w, cap, ack);
      hide Fill, Valid, Bad;
      var r := Fill(w, cap, ack).0;
      assert SameGoal(w, r);
      assert forall x :: Goal(r, x) <==> Bad(r.Table(), x);
    } else {
      FillManyPieces(w, cap, ack);
    }
  }

  /** When the table has room, setting [s, t) yields a well-formed table with exactly the union of
   * the bad sectors if and only if the merged state is safe. */
  lemma SafeIffUnion(es: seq<Entry>, cap: nat, s: int, t: int, ack: bool)
    requires Valid(es) && 0 <= s <= t <= MAX_SECTOR
    requires SetRange(es, cap, s, t, ack).1 == 0
    ensures Safe(Merged(es, s, t, ack), es) <==> IsUnion(SetRange(es, cap, s, t, ack).0.Table(), es, s, t)
  {
    MergedIsStaged(es, s, t, ack);
    var w := Merged(es, s, t, ack);
    hide Merged, Staged, TailOf, Flush, Behind, Inner, Goal, Safe, IsUnion, Bad, Valid;
    if w.rem == 0 {
      SafeIffPlaced(w, es, s, t);
    } else {
      assert 0 < w.rem by { StagedRem(w); }
      assert Combine(w) == w;
      SafeIffFilled(w, es, s, t, cap, ack);
    }
  }

  lemma StagedRem(w: Work)
    requires Staged(w)
    ensures 0 <= w.rem
  {
  }
}
