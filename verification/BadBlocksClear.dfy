/** Clearing a range is set difference, and keeps every survivor's acknowledgement. */
module BadBlocksClear {
  import opened Arith
  import Seqs
  import opened BadBlocksModel

  lemma MarkedAppend(a: seq<Entry>, b: seq<Entry>, x: int, ack: bool)
    ensures Marked(a + b, x, ack) <==> Marked(a, x, ack) || Marked(b, x, ack)
  {
    if Marked(a, x, ack) {
      var i :| 0 <= i < |a| && a[i].Has(x) && a[i].ack == ack;
      assert (a + b)[i].Has(x);
    }
    if Marked(b, x, ack) {
      var i :| 0 <= i < |b| && b[i].Has(x) && b[i].ack == ack;
      assert (a + b)[|a| + i].Has(x);
    }
  }

  lemma MarkedOne(e: Entry, x: int, ack: bool)
    ensures Marked([e], x, ack) <==> e.Has(x) && e.ack == ack
  {
    if e.Has(x) {
      assert [e][0].Has(x);
    }
  }

  lemma CutMarked(e: Entry, s: int, t: int, x: int, ack: bool)
    requires s <= t
    ensures Marked(Cut(e, s, t), x, ack) <==> e.Has(x) && e.ack == ack && !(s <= x < t)
  {
    var l, r := Entry(e.start, s - e.start, e.ack), Entry(t, e.End() - t, e.ack);
    MarkedAppend(One(e.start < s, l), One(t < e.End(), r), x, ack);
    MarkedOne(l, x, ack);
    MarkedOne(r, x, ack);
    MarkedOne(e, x, ack);
  }

  /** The table after clearing [s, t) marks exactly the old sectors outside it, with their flags. */
  lemma {:induction false} ClearIsDifference(es: seq<Entry>, s: int, t: int, x: int, ack: bool)
    requires s <= t
    ensures Marked(CutAll(es, s, t), x, ack) <==> Marked(es, x, ack) && !(s <= x < t)
  {
    if es != [] {
      CutMarked(es[0], s, t, x, ack);
      ClearIsDifference(es[1..], s, t, x, ack);
      MarkedAppend(Cut(es[0], s, t), CutAll(es[1..], s, t), x, ack);
      assert es == [es[0]] + es[1..];
      MarkedAppend([es[0]], es[1..], x, ack);
      MarkedOne(es[0], x, ack);
    }
  }

  predicate AllFrom(es: seq<Entry>, bound: int) {
    forall i | 0 <= i < |es| :: bound <= es[i].start
  }

  lemma {:induction false} CutAllFrom(es: seq<Entry>, s: int, t: int, bound: int)
    requires AllFrom(es, bound)
    ensures AllFrom(CutAll(es, s, t), bound)
  {
    if es != [] {
      assert AllFrom(es[1..], bound);
      CutAllFrom(es[1..], s, t, bound);
    }
  }

  lemma ValidTail(es: seq<Entry>)
    requires Valid(es) && es != []
    ensures Valid(es[1..]) && AllFrom(es[1..], es[0].End())
  {
    assert forall i | 0 <= i < |es[1..]| :: es[1..][i] == es[i + 1];
  }

  /** A proper range never spoils the table. */
  lemma {:induction false} ClearKeepsValid(es: seq<Entry>, s: int, t: int)
    requires Valid(es) && s <= t
    ensures Valid(CutAll(es, s, t))
  {
    if es != [] {
      ValidTail(es);
      ClearKeepsValid(es[1..], s, t);
      CutAllFrom(es[1..], s, t, es[0].End());
      var a, b := Cut(es[0], s, t), CutAll(es[1..], s, t);
      assert Valid(a);
      assert forall i | 0 <= i < |a| :: a[i].End() <= es[0].End();
    }
  }

  // ---------- the shape the algorithm produces ----------

  lemma {:induction false} CutAllAppend(a: seq<Entry>, b: seq<Entry>, s: int, t: int)
    ensures CutAll(a + b, s, t) == CutAll(a, s, t) + CutAll(b, s, t)
  {
    if a == [] {
      assert a + b == b;
    } else {
      CutAllAppend(a[1..], b, s, t);
      Seqs.Uncons(a, b);
      Seqs.Assoc(Cut(a[0], s, t), CutAll(a[1..], s, t), CutAll(b, s, t));
      hide Cut;
    }
  }

  lemma {:induction false} CutAllKeeps(es: seq<Entry>, s: int, t: int)
    requires forall i | 0 <= i < |es| :: !es[i].Overlaps(Min(s, t), t)
    ensures CutAll(es, s, t) == es
  {
    if es != [] {
      assert forall i | 0 <= i < |es[1..]| :: es[1..][i] == es[i + 1];
      CutAllKeeps(es[1..], s, t);
    }
  }

  /** `e` lies wholly inside [s, t). */
  predicate Inside(e: Entry, s: int, t: int) {
    s <= e.start < t && Min(s, t) < e.End() <= t
  }

  lemma {:induction false} CutAllDrops(es: seq<Entry>, s: int, t: int)
    requires forall i | 0 <= i < |es| :: Inside(es[i], s, t)
    ensures CutAll(es, s, t) == []
  {
    if es != [] {
      assert forall i | 0 <= i < |es[1..]| :: es[1..][i] == es[i + 1];
      CutAllDrops(es[1..], s, t);
    }
  }

  // ---------- the one-block inversion that rounding can cause ----------

  /** Some entry starts before `t` and reaches past it. */
  ghost predicate Straddled(es: seq<Entry>, t: int) {
    exists i :: 0 <= i < |es| && es[i].start < t < es[i].End()
  }

  /** A range shorter than one tracked block rounds to s == t + 1. Clearing it changes nothing,
   * unless an entry straddles t: then that entry is split into two overlapping ones, and the table
   * is no longer well formed. */
  lemma InvertedClear(es: seq<Entry>, t: int)
    requires Valid(es) && 0 <= t
    ensures !Straddled(es, t) ==> CutAll(es, t + 1, t) == es
    ensures Valid(CutAll(es, t + 1, t)) <==> !Straddled(es, t)
    ensures forall x :: Bad(CutAll(es, t + 1, t), x) <==> Bad(es, x)
  {
    if Straddled(es, t) {
      var i :| 0 <= i < |es| && es[i].start < t < es[i].End();
      StraddledSplit(es, t, i);
    } else {
      CutAllKeeps(es, t + 1, t);
    }
  }

  lemma StraddledSplit(es: seq<Entry>, t: int, i: nat)
    requires Valid(es) && i < |es| && es[i].start < t < es[i].End()
    ensures !Valid(CutAll(es, t + 1, t))
    ensures forall x :: Bad(CutAll(es, t + 1, t), x) <==> Bad(es, x)
  {
    var e := es[i];
    var l, r := Entry(e.start, t + 1 - e.start, e.ack), Entry(t, e.End() - t, e.ack);
    CutOne(es, t + 1, t, i);
    var cut := CutAll(es, t + 1, t);
    assert cut == es[..i] + ([l] + ([r] + es[i + 1..]));
    assert es == es[..i] + ([e] + es[i + 1..]);
    hide CutAll, Cut;
    assert cut[i] == l && cut[i + 1] == r && l.End() > r.start;
    forall x ensures Bad(cut, x) <==> Bad(es, x) {
      BadAppend(es[..i], [e] + es[i + 1..], x);
      BadAppend([e], es[i + 1..], x);
      BadAppend(es[..i], [l] + ([r] + es[i + 1..]), x);
      BadAppend([l], [r] + es[i + 1..], x);
      BadAppend([r], es[i + 1..], x);
      BadOne(l, x);
      BadOne(r, x);
      BadOne(e, x);
    }
  }

  /** Only entry `i` meets the range. */
  lemma CutOne(es: seq<Entry>, s: int, t: int, i: nat)
    requires i < |es|
    requires forall j | 0 <= j < |es| && j != i :: !es[j].Overlaps(Min(s, t), t)
    ensures CutAll(es, s, t) == es[..i] + (Cut(es[i], s, t) + es[i + 1..])
  {
    assert es == es[..i] + ([es[i]] + es[i + 1..]);
    CutAllAppend(es[..i], [es[i]] + es[i + 1..], s, t);
    CutAllAppend([es[i]], es[i + 1..], s, t);
    CutAllKeeps(es[..i], s, t);
    CutAllKeeps(es[i + 1..], s, t);
    assert CutAll([es[i]], s, t) == Cut(es[i], s, t) + CutAll([], s, t) == Cut(es[i], s, t);
  }
}
