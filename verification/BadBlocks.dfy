/** The bad-block table as the kernel keeps it: a fixed array searched by bisection and changed in
 * place by shifting. Every method is proved against the interval model. */
module BadBlocksTable {
  import opened Arith
  import opened BadBlocksModel
  import opened BadBlocksClear
  import opened BadBlocksSet
  import opened BadBlocksTheorems
  import opened BadBlocksFull
  import opened BadBlocksAck

  // ---------- rounding to tracked blocks ----------

  function Pow2(n: nat): nat {
    if n == 0 then 1 else 2 * Pow2(n - 1)
  }

  lemma Pow2Positive(n: nat)
    ensures 1 <= Pow2(n)
  {
  }

  function BlockSize(shift: int): int {
    if shift > 0 then Pow2(shift) else 1
  }

  function Down(x: int, shift: int): int {
    if shift > 0 then Pow2Positive(shift); x / Pow2(shift) else x
  }

  function Up(x: int, shift: int): int {
    if shift > 0 then Pow2Positive(shift); (x + Pow2(shift) - 1) / Pow2(shift) else x
  }

  /** Rounding outwards: exactly the blocks that share a sector with [s, s + n). */
  lemma OutwardBlocks(s: int, n: int, shift: int, b: int)
    requires 0 < n
    ensures Down(s, shift) <= b < Up(s + n, shift) <==>
            s < (b + 1) * BlockSize(shift) && b * BlockSize(shift) < s + n
  {
    if shift > 0 {
      Pow2Positive(shift);
      FloorBelow(s, Pow2(shift), b + 1);
      CeilAtMost(s + n, Pow2(shift), b);
    }
  }

  /** Rounding inwards: exactly the blocks that lie wholly in [s, s + n). */
  lemma InwardBlocks(s: int, n: int, shift: int, b: int)
    ensures Up(s, shift) <= b < Down(s + n, shift) <==>
            s <= b * BlockSize(shift) && (b + 1) * BlockSize(shift) <= s + n
  {
    if shift > 0 {
      Pow2Positive(shift);
      CeilAtMost(s, Pow2(shift), b);
      FloorBelow(s + n, Pow2(shift), b + 1);
    }
  }

  /** Inward rounding inverts the range by at most one block. */
  lemma InwardInversion(s: int, n: int, shift: int)
    requires 0 <= n
    ensures Up(s, shift) <= Down(s + n, shift) + 1
  {
    if shift > 0 {
      Pow2Positive(shift);
      var c := Down(s + n, shift) + 1;
      FloorBelow(s + n, Pow2(shift), c);
      CeilAtMost(s, Pow2(shift), c);
    }
  }

  /** It does so exactly for a range strictly inside one block. */
  lemma InversionIff(s: int, n: int, shift: int)
    requires 0 <= n
    ensures var b := Down(s + n, shift);
            Up(s, shift) == b + 1 <==> b * BlockSize(shift) < s && s + n < (b + 1) * BlockSize(shift)
  {
    InwardInversion(s, n, shift);
    if shift > 0 {
      Pow2Positive(shift);
      var b := Down(s + n, shift);
      FloorBelow(s + n, Pow2(shift), b + 1);
      CeilAtMost(s, Pow2(shift), b);
    }
  }

  /** Clearing sectors 9 to 11 with blocks of eight sectors spoils a table that holds blocks 0 and 1. */
  lemma ClearSplitsEntry()
    ensures Up(9, 3) == 2 && Down(9 + 3, 3) == 1
    ensures var es := [Entry(0, 2, true)];
            && Valid(es) && Straddled(es, 1)
            && CutAll(es, 2, 1) == [Entry(0, 2, true), Entry(1, 1, true)] && !Valid(CutAll(es, 2, 1))
  {
    assert Pow2(3) == 8 by {
      assert Pow2(1) == 2 && Pow2(2) == 4;
    }
    var es := [Entry(0, 2, true)];
    assert es[1..] == [] && es[0].Fits();
    var cut := Cut(es[0], 2, 1);
    assert cut == [Entry(0, 2, true), Entry(1, 1, true)];
    assert CutAll(es, 2, 1) == cut + [];
    NotSortedAt(cut, 0);
  }

  lemma OutwardProper(s: int, n: int, shift: int)
    requires 0 <= n
    ensures Down(s, shift) <= Up(s + n, shift)
  {
    if shift > 0 {
      Pow2Positive(shift);
      var c := Up(s + n, shift);
      CeilAtMost(s + n, Pow2(shift), c);
      FloorBelow(s, Pow2(shift), c + 1);
      assert (c + 1) * Pow2(shift) == c * Pow2(shift) + Pow2(shift);
    }
  }

  // ---------- the linear scan that checking must agree with ----------

  datatype Report = Report(rv: int, firstBad: int, badSectors: int)

  /** Scan the entries from `k` on. */
  function Scan(es: seq<Entry>, k: nat, s: int, t: int): Report
    requires k <= |es|
    decreases |es| - k
  {
    if k == |es| then Report(0, 0, 0)
    else
      var later := Scan(es, k + 1, s, t);
      if es[k].Overlaps(s, t) then
        Report(if later.rv != -1 && es[k].ack then 1 else -1, es[k].start, es[k].len)
      else later
  }

  /** 0: no entry meets the range; 1: some do and all of them are acknowledged; -1: one is not. The
   * reported entry is the lowest that meets the range. */
  lemma {:induction false} ScanReports(es: seq<Entry>, k: nat, s: int, t: int)
    requires k <= |es|
    ensures var r := Scan(es, k, s, t);
            && (r.rv == 0 <==> forall i | k <= i < |es| :: !es[i].Overlaps(s, t))
            && (r.rv == -1 <==> exists i :: k <= i < |es| && es[i].Overlaps(s, t) && !es[i].ack)
            && r.rv in {0, 1, -1}
            && (r.rv != 0 ==> exists i :: k <= i < |es| && es[i].Overlaps(s, t)
                                          && es[i].start == r.firstBad && es[i].len == r.badSectors
                                          && forall j | k <= j < i :: !es[j].Overlaps(s, t))
    decreases |es| - k
  {
    if k < |es| {
      ScanReports(es, k + 1, s, t);
    }
  }

  /** In terms of sectors: 0 means that the range holds no bad sector. */
  lemma ScanSectors(es: seq<Entry>, s: int, t: int)
    requires Valid(es) && s < t
    ensures Scan(es, 0, s, t).rv == 0 <==> forall x | s <= x < t :: !Bad(es, x)
  {
    ScanReports(es, 0, s, t);
    if exists i :: 0 <= i < |es| && es[i].Overlaps(s, t) {
      var i :| 0 <= i < |es| && es[i].Overlaps(s, t);
      var x := Max(s, es[i].start);
      assert es[i].Fits() && es[i].Has(x);
      assert Bad(es, x);
    }
  }

  lemma {:induction false} ScanSkips(es: seq<Entry>, k: nat, m: nat, s: int, t: int)
    requires k <= m <= |es| && forall i | k <= i < m :: !es[i].Overlaps(s, t)
    ensures Scan(es, k, s, t) == Scan(es, m, s, t)
    decreases m - k
  {
    if k < m {
      ScanSkips(es, k + 1, m, s, t);
    }
  }

  /** What the flags and the invariant need to know about a finished call. */
  lemma SetOutcome(es: seq<Entry>, cap: nat, s: int, t: int, ack: bool)
    requires Valid(es) && 0 <= s <= t <= MAX_SECTOR && |es| <= cap
    ensures var r := SetRange(es, cap, s, t, ack);
            && (ack && AllAcked(es) ==> AllAcked(r.0.Table())) && (!ack ==> NoneAcked(r.0.Table(), es))
            && (r.1 == 0 && SetExact(es, s, t) ==> IsUnion(r.0.Table(), es, s, t))
            && (Valid(r.0.Table()) <==> if r.1 == 0 then SetSorted(es, s, t) else StaysSorted(es, cap, s, t))
  {
    SetReturns(es, cap, s, t, ack);
    hide SetRange, SetExact, SetSorted, StaysSorted, NoneAcked;
    if !ack {
      SetAcksNone(es, cap, s, t);
    }
    if ack && AllAcked(es) {
      SetKeepsAcked(es, cap, s, t);
    }
    if SetRange(es, cap, s, t, ack).1 == 0 {
      SetIsUnionIff(es, cap, s, t, ack);
      SetSortedIff(es, cap, s, t, ack);
    } else {
      FullTableSorted(es, cap, s, t, ack);
    }
  }

  lemma SetReturns(es: seq<Entry>, cap: nat, s: int, t: int, ack: bool)
    requires Valid(es) && 0 <= s <= t <= MAX_SECTOR
    ensures SetRange(es, cap, s, t, ack).1 in {0, 1}
  {
    MergedIsStaged(es, s, t, ack);
    FillSuffix(Combine(Merged(es, s, t, ack)), cap, ack);
  }

  lemma ClearOutcome(es: seq<Entry>, s: int, t: int)
    requires Valid(es) && s <= t + 1
    ensures AllAcked(es) ==> AllAcked(CutAll(es, s, t))
    ensures Valid(CutAll(es, s, t)) <==> s <= t || !Straddled(es, t)
  {
    CutKeepsAcked(es, s, t);
    if s <= t {
      ClearKeepsValid(es, s, t);
    } else if 0 <= t {
      InvertedClear(es, t);
    } else {
      assert forall i | 0 <= i < |es| :: es[i].Fits();
      CutAllKeeps(es, s, t);
    }
  }

  lemma DownNat(x: int, shift: int)
    requires 0 <= x
    ensures 0 <= Down(x, shift)
  {
    if shift > 0 {
      Pow2Positive(shift);
      FloorBelow(x, Pow2(shift), 0);
    }
  }

  lemma SearchIsBefore(es: seq<Entry>, hi: nat, s: int)
    requires Valid(es) && hi <= |es|
    requires 0 < hi ==> es[hi - 1].start <= s
    requires hi < |es| ==> s < es[hi].start
    ensures hi == Before(es, s + 1)
  {
    BeforeSplits(es, s + 1);
  }

  // ---------- acknowledged ranges stay acknowledged ----------

  lemma AckedAppend(a: seq<Entry>, b: seq<Entry>)
    ensures AllAcked(a + b) <==> AllAcked(a) && AllAcked(b)
  {
    if AllAcked(a + b) {
      assert forall i | 0 <= i < |a| :: (a + b)[i] == a[i];
      assert forall i | 0 <= i < |b| :: (a + b)[|a| + i] == b[i];
    }
  }

  lemma {:induction false} FillAcked(w: Work, cap: nat)
    requires AllAcked(w.left) && AllAcked(w.right)
    ensures AllAcked(Fill(w, cap, true).0.Table())
    decreases w.rem
  {
    AckedAppend(w.left, w.right);
    if 0 < w.rem && |w.Table()| < cap {
      var n := Min(w.rem, MAX_LEN);
      var e := Entry(w.s, n, true);
      AckedAppend([e], w.right);
      FillAcked(Work(w.left, [e] + w.right, w.s + n, w.rem - n), cap);
    }
  }

  lemma StageAcked(w: Work)
    requires AllAcked(w.left) && AllAcked(w.right)
    ensures AllAcked(MergeLeft(w, true).left) && AllAcked(MergeLeft(w, true).right)
    ensures AllAcked(MergeRight(w, true).left) && AllAcked(MergeRight(w, true).right)
    ensures AllAcked(Combine(w).left) && AllAcked(Combine(w).right)
  {
  }

  /** Setting an acknowledged range in an acknowledged table leaves no unacknowledged entry. */
  lemma SetKeepsAcked(es: seq<Entry>, cap: nat, s: int, t: int)
    requires AllAcked(es)
    ensures AllAcked(SetRange(es, cap, s, t, true).0.Table())
  {
    var w := SetStart(es, s, t);
    assert AllAcked(w.left) && AllAcked(w.right);
    hide MergeLeft, MergeRight, Combine, Fill, AllAcked, SetStart;
    StageAcked(w);
    StageAcked(MergeLeft(w, true));
    StageAcked(Merged(es, s, t, true));
    FillAcked(Combine(Merged(es, s, t, true)), cap);
  }

  /** The table seen from index `hi`, with [s, s + rem) to be added there. */
  function Split(es: seq<Entry>, hi: nat, s: int, rem: int): Work
    requires hi <= |es|
  {
    Work(es[..hi], es[hi..], s, rem)
  }

  lemma MergedRem(es: seq<Entry>, s: int, t: int, ack: bool)
    requires Valid(es) && 0 <= s <= t <= MAX_SECTOR
    ensures 0 <= Merged(es, s, t, ack).rem
  {
    MergedIsStaged(es, s, t, ack);
    StagedRem(Merged(es, s, t, ack));
  }

  lemma SameRanges(a: seq<Entry>, b: seq<Entry>)
    requires |a| == |b| && forall j | 0 <= j < |a| :: a[j].start == b[j].start && a[j].len == b[j].len
    ensures forall x :: Bad(a, x) <==> Bad(b, x)
  {
    forall x ensures Bad(a, x) <==> Bad(b, x) {
      if Bad(a, x) {
        var i :| 0 <= i < |a| && a[i].Has(x);
        assert b[i].Has(x);
      }
      if Bad(b, x) {
        var i :| 0 <= i < |b| && b[i].Has(x);
        assert a[i].Has(x);
      }
    }
  }

  lemma {:induction false} CutKeepsAcked(es: seq<Entry>, s: int, t: int)
    ensures AllAcked(es) ==> AllAcked(CutAll(es, s, t))
  {
    if es != [] && AllAcked(es) {
      assert forall i | 0 <= i < |es[1..]| :: es[1..][i] == es[i + 1];
      CutKeepsAcked(es[1..], s, t);
    }
  }

  /** The table once entry `k` is cut to its part from `t` on, and to its part before `s` if any. */
  function TailKept(es: seq<Entry>, k: nat, s: int, t: int): seq<Entry>
    requires k < |es|
  {
    es[..k] + One(es[k].start < s, Entry(es[k].start, s - es[k].start, es[k].ack))
    + [Entry(t, es[k].End() - t, es[k].ack)] + es[k + 1..]
  }

  /** The entries up to `lo` are in order and, if the last of them meets [s, t), end inside it. */
  predicate Droppable(es: seq<Entry>, lo: int, s: int, t: int) {
    && -1 <= lo < |es|
    && (0 <= lo && s < es[lo].End() && es[lo].start < t ==> Valid(es[..lo + 1]) && es[lo].End() <= t)
  }

  /** The table with [s, t) cleared from the entries up to `lo`. */
  function Dropped(es: seq<Entry>, lo: int, s: int, t: int): seq<Entry>
    requires -1 <= lo < |es|
  {
    if lo < 0 || es[lo].End() <= s || t <= es[lo].start then es
    else CutAll(es[..lo + 1], s, t) + es[lo + 1..]
  }

  // ---------- the cases of clearing ----------

  /** Clearing must split an entry in two. */
  ghost predicate SplitNeeded(es: seq<Entry>, s: int, t: int) {
    exists i :: 0 <= i < |es| && es[i].start < s && es[i].start < t < es[i].End()
  }

  /** `k` is where bisection ends: everything later starts at or after `t`, everything before starts
   * before it, and so does entry `k` itself unless it is the first. */
  ghost predicate Bisected(es: seq<Entry>, k: nat, t: int) {
    && k < |es|
    && (forall i | k < i < |es| :: t <= es[i].start)
    && (0 < k ==> es[k].start < t)
  }

  lemma SplitAt(es: seq<Entry>, k: nat, s: int, t: int)
    requires Valid(es) && Bisected(es, k, t)
    ensures SplitNeeded(es, s, t) <==> es[k].start < s && es[k].start < t < es[k].End()
  {
    forall i | 0 <= i < |es| && i != k ensures !(es[i].start < t < es[i].End()) {
      if i < k {
        assert es[i].End() <= es[k].start;
      }
    }
  }

  lemma SplitForm(es: seq<Entry>, k: nat, s: int, t: int)
    requires Valid(es) && Bisected(es, k, t) && s <= t + 1
    requires es[k].start < s && es[k].start < t < es[k].End()
    ensures var v := TailKept(es, k, s, t);
            |v| > k && Droppable(v, k, s, t) && CutAll(es, s, t) == Dropped(v, k, s, t)
  {
    forall j | 0 <= j < |es| && j != k ensures !es[j].Overlaps(Min(s, t), t) {
      assert j < k ==> es[j].End() <= es[k].start;
    }
    CutOne(es, s, t, k);
    var v := TailKept(es, k, s, t);
    assert v[k].End() == s;
    assert v == es[..k] + (Cut(es[k], s, t) + es[k + 1..]);
  }

  lemma TailForm(es: seq<Entry>, k: nat, s: int, t: int)
    requires Valid(es) && Bisected(es, k, t)
    requires s <= es[k].start < t < es[k].End()
    ensures var v := TailKept(es, k, s, t);
            |v| > k - 1 && Droppable(v, k - 1, s, t) && CutAll(es, s, t) == Dropped(v, k - 1, s, t)
  {
    assert k < |es|;
    hide CutAll, Valid, Bisected, Dropped, Droppable, TailKept;
    TailPrefix(es, k, s, t);
    TailCut(es, k, s, t);
    TailKeptForm(es, k, s, t);
    var a, b := es[..k], [Entry(t, es[k].End() - t, es[k].ack)] + es[k + 1..];
    assert k > 0 ==> Last(a) == es[k - 1];
    DroppedPrefix(a, b, s, t);
  }

  lemma TailKeptForm(es: seq<Entry>, k: nat, s: int, t: int)
    requires k < |es| && s <= es[k].start
    ensures TailKept(es, k, s, t) == es[..k] + ([Entry(t, es[k].End() - t, es[k].ack)] + es[k + 1..])
  {
  }

  /** Dropping from a prefix that ends inside the range. */
  lemma DroppedPrefix(a: seq<Entry>, b: seq<Entry>, s: int, t: int)
    requires b != [] && Valid(a)
    requires a != [] ==> Last(a).start < t && Last(a).End() <= t
    requires a == [] || Last(a).End() <= s ==> CutAll(a, s, t) == a
    ensures Droppable(a + b, |a| - 1, s, t) && Dropped(a + b, |a| - 1, s, t) == CutAll(a, s, t) + b
  {
    hide CutAll, Valid;
    if a != [] {
      assert (a + b)[|a| - 1] == Last(a);
      assert (a + b)[..|a|] == a && (a + b)[|a|..] == b;
    }
  }

  lemma CutMiddle(a: seq<Entry>, e: Entry, b: seq<Entry>, s: int, t: int)
    ensures CutAll(a + ([e] + b), s, t) == CutAll(a, s, t) + (Cut(e, s, t) + CutAll(b, s, t))
  {
    CutSingle(e, s, t);
    hide CutAll, Cut;
    CutAllAppend(a, [e] + b, s, t);
    CutAllAppend([e], b, s, t);
  }

  lemma TailCut(es: seq<Entry>, k: nat, s: int, t: int)
    requires Bisected(es, k, t) && s <= es[k].start < t < es[k].End()
    ensures CutAll(es, s, t) == CutAll(es[..k], s, t) + ([Entry(t, es[k].End() - t, es[k].ack)] + es[k + 1..])
  {
    hide CutAll;
    var e, b := es[k], es[k + 1..];
    CutMiddle(es[..k], e, b, s, t);
    assert es == es[..k] + ([e] + b);
    CutAllKeeps(b, s, t);
    assert Cut(e, s, t) == [Entry(t, e.End() - t, e.ack)];
  }

  /** The entries before one that starts inside the range. */
  lemma TailPrefix(es: seq<Entry>, k: nat, s: int, t: int)
    requires Valid(es) && k < |es| && s <= es[k].start < t
    ensures Valid(es[..k])
    ensures 0 < k ==> es[k - 1].start < t && es[k - 1].End() <= t
    ensures k == 0 || es[k - 1].End() <= s ==> CutAll(es[..k], s, t) == es[..k]
  {
    ValidPrefix(es, k);
    if k == 0 || es[k - 1].End() <= s {
      forall j | 0 <= j < k ensures !es[..k][j].Overlaps(Min(s, t), t) {
        assert j < k - 1 ==> es[j].End() <= es[k - 1].start;
        assert es[k - 1].Fits();
      }
      CutAllKeeps(es[..k], s, t);
    }
    if 0 < k {
      assert es[k - 1].Fits() && es[k - 1].End() <= es[k].start;
    }
  }

  lemma PlainForm(es: seq<Entry>, k: nat, s: int, t: int)
    requires Valid(es) && Bisected(es, k, t)
    requires es[k].End() <= t || t <= es[k].start
    ensures Droppable(es, k, s, t) && CutAll(es, s, t) == Dropped(es, k, s, t)
  {
    var head, tail := es[..k + 1], es[k + 1..];
    assert es == head + tail && Last(head) == es[k];
    CutAllAppend(head, tail, s, t);
    CutAllKeeps(tail, s, t);
    ValidPrefix(es, k + 1);
    hide CutAll;
    if es[k].End() <= s || t <= es[k].start {
      forall j | 0 <= j < |es| ensures !es[j].Overlaps(Min(s, t), t) {
        assert j < k ==> es[j].End() <= es[k].start && es[k].Fits();
      }
      CutAllKeeps(es, s, t);
    }
  }

  lemma Unjoined(es: seq<Entry>, hi: nat, s: int, rem: int)
    requires hi <= |es| && (rem != 0 || hi == 0 || hi == |es|)
    ensures Combine(Split(es, hi, s, rem)) == Split(es, hi, s, rem)
  {
  }

  lemma Joined(es: seq<Entry>, hi: nat, s: int)
    requires 0 < hi < |es|
    ensures var p, h := es[hi - 1], es[hi];
            var n := p.len + h.len - (s - h.start);
            var u := es[hi - 1 := Entry(p.start, n, p.ack && h.ack)];
            Combine(Split(es, hi, s, 0)) ==
            if s >= h.start && n < MAX_LEN then Split(u[..hi] + u[hi + 1..], hi, s, 0) else Split(es, hi, s, 0)
  {
    var p, h := es[hi - 1], es[hi];
    assert Last(es[..hi]) == p && Front(es[..hi]) == es[..hi - 1] && es[hi..][0] == h;
    var e := Entry(p.start, p.len + h.len - (s - h.start), p.ack && h.ack);
    Replaced(es, hi, e);
  }

  lemma Replaced(es: seq<Entry>, hi: nat, e: Entry)
    requires 0 < hi < |es|
    ensures var u := es[hi - 1 := e];
            var t := u[..hi] + u[hi + 1..];
            t[..hi] == es[..hi - 1] + [e] && t[hi..] == es[hi..][1..]
  {
  }

  lemma Inserted(es: seq<Entry>, hi: nat, e: Entry)
    requires hi <= |es|
    ensures var t := es[..hi] + [e] + es[hi..]; t[..hi] == es[..hi] && t[hi..] == [e] + es[hi..]
  {
  }

  lemma ValidPrefix(es: seq<Entry>, n: nat)
    requires Valid(es) && n <= |es|
    ensures Valid(es[..n])
  {
  }

  lemma CutSingle(e: Entry, s: int, t: int)
    ensures CutAll([e], s, t) == Cut(e, s, t)
  {
    assert [e][1..] == [];
  }

  /** What clearing leaves of a table of which `tail` lies inside the range and `head` does not. */
  lemma DropForm(head: seq<Entry>, tail: seq<Entry>, s: int, t: int)
    requires Valid(head) && s <= t && forall j | 0 <= j < |tail| :: Inside(tail[j], s, t)
    requires head != [] ==> Last(head).start < s && Last(head).End() <= t
    ensures CutAll(head + tail, s, t) == Trimmed(head, s)
  {
    DropInside(head, tail, s, t);
    if head != [] {
      TrimLast(head, s, t);
    }
  }

  /** The last entry cut down to end at `s`. */
  function Trimmed(es: seq<Entry>, s: int): seq<Entry> {
    if es == [] || Last(es).End() <= s then es
    else Front(es) + [Entry(Last(es).start, s - Last(es).start, Last(es).ack)]
  }

  /** Entries inside the range disappear. */
  lemma DropInside(head: seq<Entry>, tail: seq<Entry>, s: int, t: int)
    requires forall j | 0 <= j < |tail| :: Inside(tail[j], s, t)
    ensures CutAll(head + tail, s, t) == CutAll(head, s, t)
  {
    CutAllAppend(head, tail, s, t);
    CutAllDrops(tail, s, t);
  }

  /** Of a table that ends before the range does, only the last entry is cut. */
  lemma TrimLast(es: seq<Entry>, s: int, t: int)
    requires Valid(es) && es != [] && s <= t
    requires Last(es).start < s && Last(es).End() <= t
    ensures CutAll(es, s, t) == Trimmed(es, s)
  {
    hide CutAll, Cut, Valid, Front, Last;
    FrontClear(es, s, t);
    FrontAndLast(es);
    TrimEnd(Front(es), Last(es), s, t);
  }

  lemma FrontAndLast(es: seq<Entry>)
    requires es != []
    ensures es == Front(es) + [Last(es)]
  {
  }

  lemma TrimEnd(f: seq<Entry>, e: Entry, s: int, t: int)
    requires s <= t && e.start < s && e.End() <= t && forall j | 0 <= j < |f| :: !f[j].Overlaps(Min(s, t), t)
    ensures CutAll(f + [e], s, t) == f + [if e.End() <= s then e else Entry(e.start, s - e.start, e.ack)]
  {
    CutAllAppend(f, [e], s, t);
    CutAllKeeps(f, s, t);
    CutSingle(e, s, t);
    CutEnd(e, s, t);
    hide CutAll, Cut;
  }

  lemma FrontClear(es: seq<Entry>, s: int, t: int)
    requires Valid(es) && es != [] && Last(es).start < s <= t
    ensures forall j | 0 <= j < |Front(es)| :: !Front(es)[j].Overlaps(Min(s, t), t)
  {
    forall j | 0 <= j < |es| - 1 ensures es[j].End() <= Last(es).start {
    }
  }

  lemma CutEnd(e: Entry, s: int, t: int)
    requires s <= t && e.start < s && e.End() <= t
    ensures Cut(e, s, t) == [if e.End() <= s then e else Entry(e.start, s - e.start, e.ack)]
  {
  }

  // ---------- the table ----------

  const NO_SPACE: int := -28   // -ENOSPC

  class BadBlocks {
    const page: array<Entry>
    var count: nat
    var shift: int
    var changed: bool
    var unackedExist: bool

    ghost predicate Shaped()
      reads this
    {
      count <= page.Length
    }

    ghost function Table(): seq<Entry>
      requires Shaped()
      reads this, page
    {
      page[..count]
    }

    /** Well formed, and the flag is raised whenever some entry is not acknowledged. */
    ghost predicate Ok()
      reads this, page
    {
      Shaped() && Valid(Table()) && (!unackedExist ==> AllAcked(Table()))
    }

    /** An empty table, tracking single sectors or switched off. */
    constructor (capacity: nat, enable: bool)
      ensures Ok() && fresh(page) && page.Length == capacity && Table() == [] && shift == (if enable then 0 else -1)
    {
      page := new Entry[capacity](_ => Entry(0, 1, false));
      count := 0;
      shift := if enable then 0 else -1;
      changed, unackedExist := false, false;
    }

    // ---------- shifting ----------

    /** Shift the entries from `i` on up by one and write `e` into the gap. */
    method InsertAt(i: nat, e: Entry)
      requires Shaped() && i <= count < page.Length
      modifies this`count, page
      ensures Shaped() && Table() == old(Table()[..i] + [e] + Table()[i..])
    {
      forall j | i <= j < count {
        page[j + 1] := page[j];
      }
      count := count + 1;
      page[i] := e;
    }

    /** Drop the entries from `i` up to `j` by shifting the later ones down. */
    method RemoveRange(i: nat, j: nat)
      requires Shaped() && i <= j <= count
      modifies this`count, page
      ensures Shaped() && Table() == old(Table()[..i] + Table()[j..])
    {
      forall k | j <= k < count {
        page[k - (j - i)] := page[k];
      }
      count := count - (j - i);
    }

    /** The two index variables every operation starts from: bisect for the last entry that starts
     * before `bound`. */
    method Search(bound: int) returns (lo: int, hi: int)
      requires Shaped() && Valid(Table())
      ensures count == 0 ==> lo == hi == 0
      ensures count > 0 ==> 0 <= lo < count && hi == lo + 1
      ensures count > 0 ==> Bisected(Table(), lo, bound)
    {
      lo, hi := 0, count;
      while hi - lo > 1
        invariant 0 <= lo <= hi <= count && (count > 0 ==> lo < hi)
        invariant 0 < lo ==> page[lo].start < bound
        invariant hi < count ==> bound <= page[hi].start
      {
        var mid := (lo + hi) / 2;
        if page[mid].start < bound {
          lo := mid;
        } else {
          hi := mid;
        }
      }
      assert forall i | 0 <= i < count :: Table()[i] == page[i];
      forall i | lo < i < count ensures bound <= Table()[i].start {
        assert Table()[i].Fits() && Table()[hi].Fits();
        if hi < i { assert Table()[hi].End() <= Table()[i].start; }
      }
    }

    // ---------- checking ----------

    method Check(sector: int, sectors: int) returns (r: Report)
      requires Shaped() && Valid(Table())
      requires 0 <= sectors
      ensures r == Scan(Table(), 0, Down(sector, shift), Up(sector + sectors, shift))
    {
      var s, t := Down(sector, shift), Up(sector + sectors, shift);
      r := Report(0, 0, 0);
      var lo, hi := Search(t);
      ghost var es := Table();
      if hi > lo {
        ScanSkips(es, lo + 1, |es|, s, t);
        while lo >= 0 && page[lo].End() > s
          invariant -1 <= lo < |es| && es == Table()
          invariant r == Scan(es, lo + 1, s, t)
        {
          assert es[lo] == page[lo];
          if page[lo].start < t {
            r := Report(if r.rv != -1 && page[lo].ack then 1 else -1, page[lo].start, page[lo].len);
          }
          lo := lo - 1;
        }
        if lo >= 0 {
          assert es[lo] == page[lo] && es[lo].Fits();
          assert forall i | 0 <= i < lo :: es[i].End() <= es[lo].start;
          ScanSkips(es, 0, lo + 1, s, t);
        }
      }
    }

    // ---------- clearing ----------

    /** Walk down from `lo` over the entries that lie inside [s, t). */
    method WalkDown(lo: nat, s: int, t: int) returns (i: int)
      requires Shaped() && lo < count && Valid(Table()[..lo + 1])
      requires s < Table()[lo].End() <= t
      ensures -1 <= i <= lo
      ensures var head, tail := Table()[..i + 1], Table()[i + 1..lo + 1];
              && Valid(head) && (forall j | 0 <= j < |tail| :: Inside(tail[j], s, t))
              && (head != [] ==> Last(head).start < s && Last(head).End() <= t)
    {
      ghost var es := Table()[..lo + 1];
      i := lo;
      while i >= 0 && page[i].End() > s && page[i].start < t && page[i].start >= s
        invariant -1 <= i <= lo
        invariant forall j | i < j <= lo :: Inside(es[j], s, t)
      {
        assert es[i] == page[i];
        assert i < lo ==> es[i].End() <= es[lo].start;
        i := i - 1;
      }
      assert Table()[..i + 1] == es[..i + 1] && Table()[i + 1..lo + 1] == es[i + 1..];
      if i >= 0 {
        assert es[i] == page[i] && es[lo].Fits() && es[i].Fits();
        assert i < lo ==> es[i].End() <= es[lo].start;
      }
    }

    /** Keep the head of the last entry that meets [s, t) from below, and drop those inside. Entries
     * from `lo + 1` on stay. */
    method DropBack(lo: int, s: int, t: int)
      requires Shaped() && Droppable(Table(), lo, s, t)
      modifies this`count, page
      ensures Shaped() && Table() == Dropped(old(Table()), lo, s, t)
    {
      hide CutAll, Valid;
      ghost var es := Table();
      if lo < 0 || page[lo].End() <= s || t <= page[lo].start {
        return;
      }
      var i := WalkDown(lo, s, t);
      ghost var head, tail := es[..i + 1], es[i + 1..lo + 1];
      DropForm(head, tail, s, t);
      assert es[..lo + 1] == head + tail;
      if i >= 0 && page[i].End() > s {
        page[i] := Entry(page[i].start, s - page[i].start, page[i].ack);
      }
      assert Table()[..i + 1] == Trimmed(head, s) && Table()[lo + 1..] == es[lo + 1..];
      RemoveRange(i + 1, lo + 1);
    }

    /** Entry `lo` reaches past `t`: keep its tail, and its head too if it starts before `s`. */
    method KeepTail(lo: nat, s: int, t: int)
      requires Shaped() && lo < count && (Table()[lo].start < s ==> count < page.Length)
      modifies this`count, page
      ensures Shaped() && Table() == TailKept(old(Table()), lo, s, t)
    {
      var e := page[lo];
      var at := lo;
      if e.start < s {
        InsertAt(lo, Entry(e.start, s - e.start, e.ack));
        at := lo + 1;
      }
      page[at] := Entry(t, e.End() - t, e.ack);
    }

    /** Clear blocks [s, t). */
    method ClearBlocks(s: int, t: int) returns (rv: int)
      requires Shaped() && Valid(Table()) && s <= t + 1
      modifies this`count, page
      ensures Shaped()
      ensures rv == if old(count == page.Length && SplitNeeded(Table(), s, t)) then NO_SPACE else 0
      ensures Table() == if rv == 0 then CutAll(old(Table()), s, t) else old(Table())
    {
      rv := 0;
      ghost var es := Table();
      var lo, hi := Search(t);
      if hi <= lo {
        assert es == [];
        return;
      }
      hide CutAll, Valid, Bisected, SplitNeeded, Dropped, Droppable, TailKept;
      SplitAt(es, lo, s, t);
      if page[lo].End() > t && page[lo].start < t {
        var split := page[lo].start < s;
        if split && count >= page.Length {
          rv := NO_SPACE;
          return;
        }
        KeepTail(lo, s, t);
        if split {
          SplitForm(es, lo, s, t);
        } else {
          TailForm(es, lo, s, t);
          lo := lo - 1;
        }
      } else {
        PlainForm(es, lo, s, t);
      }
      DropBack(lo, s, t);
    }

    // ---------- acknowledgement flags ----------

    /** Lower the flag once every entry is acknowledged. */
    method UpdateAcked()
      requires Shaped()
      modifies this`unackedExist
      ensures unackedExist == (old(unackedExist) && !AllAcked(Table()))
    {
      if !unackedExist {
        return;
      }
      for i := 0 to count
        invariant unackedExist && forall j | 0 <= j < i :: page[j].ack
      {
        if !page[i].ack {
          assert !Table()[i].ack;
          return;
        }
      }
      unackedExist := false;
    }

    /** Acknowledge every entry, unless the table changed since it was last written out. */
    method AckAll()
      requires Ok()
      modifies this`unackedExist, page
      ensures Ok()
      ensures if old(changed || !unackedExist)
              then unackedExist == old(unackedExist) && Table() == old(Table())
              else !unackedExist && AllAcked(Table())
      ensures count == old(count)
      ensures forall j | 0 <= j < count :: page[j].start == old(page[j].start) && page[j].len == old(page[j].len)
      ensures forall x :: Bad(Table(), x) <==> old(Bad(Table(), x))
    {
      if changed || !unackedExist {
        return;
      }
      ghost var es := Table();
      for i := 0 to count
        invariant forall j | 0 <= j < count :: page[j].start == es[j].start && page[j].len == es[j].len
        invariant forall j | 0 <= j < i :: page[j].ack
      {
        if !page[i].ack {
          page[i] := Entry(page[i].start, page[i].len, true);
        }
      }
      unackedExist := false;
      assert forall j | 0 <= j < count :: Table()[j].Fits() == es[j].Fits() && Table()[j].End() == es[j].End();
      SameRanges(Table(), es);
    }

    /** Remove a range of sectors from the table. */
    method Clear(sector: int, sectors: int) returns (rv: int)
      requires Ok() && 0 <= sectors
      modifies this, page
      ensures Shaped() && shift == old(shift)
      ensures var s, t := Up(sector, shift), Down(sector + sectors, shift);
              && rv == (if old(count == page.Length && SplitNeeded(Table(), s, t)) then NO_SPACE else 0)
              && Table() == (if rv == 0 then CutAll(old(Table()), s, t) else old(Table()))
              && (Ok() <==> rv != 0 || s <= t || !Straddled(old(Table()), t))
      ensures rv == 0 ==> changed && unackedExist == (old(unackedExist) && !AllAcked(Table()))
      ensures rv != 0 ==> changed == old(changed) && unackedExist == old(unackedExist)
    {
      var s, t := Up(sector, shift), Down(sector + sectors, shift);
      ghost var es := Table();
      InwardInversion(sector, sectors, shift);
      hide Up, Down, CutAll, Valid, Straddled, SplitNeeded, AllAcked;
      rv := ClearBlocks(s, t);
      if rv != 0 {
        return;
      }
      UpdateAcked();
      changed := true;
      ClearOutcome(es, s, t);
    }

    // ---------- setting ----------

    /** Extend the entry before `hi` if it touches the range. */
    method ExtendLeft(hi: nat, s: int, rem: int, ack: bool) returns (s': int, rem': int)
      requires Shaped() && hi <= count
      modifies page
      ensures Split(Table(), hi, s', rem') == MergeLeft(Split(old(Table()), hi, s, rem), ack)
    {
      s', rem' := s, rem;
      if hi == 0 || page[hi - 1].End() < s {
        return;
      }
      var p := page[hi - 1];
      ghost var es := Table();
      assert Last(es[..hi]) == p && Front(es[..hi]) == es[..hi - 1];
      var acked := if s == p.start && s + rem >= p.End() then ack else p.ack && ack;
      var e := if p.End() < s + rem then s + rem else p.End();
      if e - p.start <= MAX_LEN {
        page[hi - 1] := Entry(p.start, e - p.start, acked);
        s' := e;
      } else {
        if p.len != MAX_LEN {
          page[hi - 1] := Entry(p.start, MAX_LEN, acked);
        }
        s' := p.start + MAX_LEN;
      }
      rem' := e - s';
      assert Table()[hi..] == es[hi..];
      assert Table()[..hi] == es[..hi - 1] + [page[hi - 1]];
    }

    /** Extend entry `hi` downwards if the range reaches it. */
    method ExtendRight(hi: nat, s: int, rem: int, ack: bool) returns (hi': nat, s': int, rem': int)
      requires Shaped() && hi <= count
      modifies page
      ensures hi' <= count
      ensures Split(Table(), hi', s', rem') == MergeRight(Split(old(Table()), hi, s, rem), ack)
    {
      hi', s', rem' := hi, s, rem;
      if rem == 0 || hi == count || s + rem < page[hi].start {
        return;
      }
      var h := page[hi];
      var e := if h.End() <= s + rem then s + rem else h.End();
      var acked := if h.End() <= s + rem then ack else h.ack && ack;
      var n := if e - s <= MAX_LEN then e - s else MAX_LEN;
      page[hi] := Entry(s, n, acked);
      s' := s + n;
      rem' := e - s';
      hi' := hi + 1;
      assert Table()[..hi + 1] == old(Table())[..hi] + [Entry(s, n, acked)];
    }

    /** Join the entries around `hi` if the code thinks they meet. */
    method JoinAt(hi: nat, s: int, rem: int)
      requires Shaped() && hi <= count
      modifies this`count, page
      ensures Shaped() && hi <= count
      ensures Split(Table(), hi, s, rem) == Combine(Split(old(Table()), hi, s, rem))
    {
      hide Combine, Split;
      ghost var es := Table();
      if rem != 0 || hi == 0 || hi == count {
        Unjoined(es, hi, s, rem);
        return;
      }
      Joined(es, hi, s);
      var p, h := page[hi - 1], page[hi];
      assert p == es[hi - 1] && h == es[hi];
      var n := p.len + h.len - (s - h.start);
      if s >= h.start && n < MAX_LEN {
        Store(hi - 1, Entry(p.start, n, p.ack && h.ack));
        RemoveRange(hi, hi + 1);
      }
    }

    method Store(i: nat, e: Entry)
      requires Shaped() && i < count
      modifies page
      ensures Table() == old(Table())[i := e]
    {
      page[i] := e;
    }

    /** Insert what is left at `hi`, piece by piece. */
    method FillAt(hi: nat, s: int, rem: int, ack: bool) returns (rv: int)
      requires Shaped() && hi <= count && 0 <= rem
      modifies this`count, page
      ensures Shaped()
      ensures var r := Fill(Split(old(Table()), hi, s, rem), page.Length, ack);
              Table() == r.0.Table() && rv == r.1
    {
      var from, left := s, rem;
      ghost var r := Fill(Split(Table(), hi, s, rem), page.Length, ack);
      while left > 0
        invariant Shaped() && hi <= count && 0 <= left
        invariant r == Fill(Split(Table(), hi, from, left), page.Length, ack)
      {
        ghost var es := Table();
        assert Split(es, hi, from, left).Table() == es;
        if count >= page.Length {
          return 1;
        }
        var n := if left > MAX_LEN then MAX_LEN else left;
        InsertAt(hi, Entry(from, n, ack));
        Inserted(es, hi, Entry(from, n, ack));
        from, left := from + n, left - n;
      }
      assert Split(Table(), hi, from, left).Table() == Table();
      return 0;
    }

    /** The place of a range in the table: after the last entry that starts at or before it. */
    method PlaceFor(s: int, ghost t: int) returns (hi: nat)
      requires Shaped() && Valid(Table()) && 0 <= s
      ensures hi <= count && SetStart(Table(), s, t) == Split(Table(), hi, s, t - s)
    {
      var lo;
      lo, hi := Search(s + 1);
      if hi > lo && page[lo].start > s {
        hi := lo;
      }
      SearchIsBefore(Table(), hi, s);
    }

    /** Add blocks [s, t). */
    method SetBlocks(s: int, t: int, ack: bool) returns (rv: int)
      requires Shaped() && Valid(Table()) && 0 <= s <= t <= MAX_SECTOR
      modifies this`count, page
      ensures Shaped()
      ensures var r := SetRange(old(Table()), page.Length, s, t, ack);
              Table() == r.0.Table() && rv == r.1
    {
      ghost var es := Table();
      MergedRem(es, s, t, ack);
      hide MergeLeft, MergeRight, Combine, Fill, Valid, SetStart;
      var hi := PlaceFor(s, t);
      var s1, rem := ExtendLeft(hi, s, t - s, ack);
      hi, s1, rem := ExtendRight(hi, s1, rem, ack);
      assert Split(Table(), hi, s1, rem) == Merged(es, s, t, ack);
      JoinAt(hi, s1, rem);
      rv := FillAt(hi, s1, rem, ack);
    }

    /** Add a range of sectors to the table: 0 on success, 1 if it is disabled or full. */
    method Set(sector: int, sectors: int, ack: bool) returns (rv: int)
      requires Ok() && 0 <= sectors && 0 <= sector && Up(sector + sectors, shift) <= MAX_SECTOR
      modifies this, page
      ensures Shaped() && shift == old(shift)
      ensures shift < 0 ==> rv == 1 && Table() == old(Table())
                            && changed == old(changed) && unackedExist == old(unackedExist)
      ensures shift >= 0 ==>
                var s, t := Down(sector, shift), Up(sector + sectors, shift);
                var r := SetRange(old(Table()), page.Length, s, t, ack);
                && Table() == r.0.Table() && rv == r.1
                && changed && unackedExist == (!ack || (old(unackedExist) && !AllAcked(Table())))
                && (!ack ==> NoneAcked(Table(), old(Table())))
                && (rv == 0 && SetExact(old(Table()), s, t) ==> IsUnion(Table(), old(Table()), s, t))
                && (Ok() <==> if rv == 0 then SetSorted(old(Table()), s, t)
                              else StaysSorted(old(Table()), page.Length, s, t))
    {
      if shift < 0 {
        return 1;
      }
      ghost var es := Table();
      ghost var flagged := unackedExist;
      var s, t := Down(sector, shift), Up(sector + sectors, shift);
      OutwardProper(sector, sectors, shift);
      DownNat(sector, shift);
      hide Down, Up, SetRange, SetExact, IsUnion, Valid, AllAcked, SetSorted, StaysSorted, NoneAcked;
      rv := SetBlocks(s, t, ack);
      changed := true;
      if !ack {
        unackedExist := true;
      } else {
        UpdateAcked();
      }
      SetOutcome(es, page.Length, s, t, ack);
    }
  }
}
