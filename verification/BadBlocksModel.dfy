/** The bad-block table as a sequence of intervals: its meaning, its well-formedness, and what
 * setting and clearing a range do to it. */
module BadBlocksModel {
  import opened Arith

  const MAX_LEN: int := 512
  const MAX_SECTOR: int := 0x40_0000_0000_0000   // starts have 54 bits

  datatype Entry = Entry(start: int, len: int, ack: bool) {
    function End(): int { start + len }

    predicate Has(x: int) { start <= x < End() }

    predicate Overlaps(s: int, t: int) { start < t && s < End() }

    predicate Fits() { 0 <= start && 1 <= len <= MAX_LEN && End() <= MAX_SECTOR }
  }

  // ---------- one table word ----------

  const ACK_BIT: int := 0x8000_0000_0000_0000

  /** The 64-bit word of an entry: acknowledged flag, 54 bits of start, length less one in 9 bits. */
  function Pack(e: Entry): int {
    (if e.ack then ACK_BIT else 0) + e.start * 512 + (e.len - 1)
  }

  function Unpack(w: int): Entry {
    var low := if w >= ACK_BIT then w - ACK_BIT else w;
    Entry(low / 512, low % 512 + 1, w >= ACK_BIT)
  }

  lemma PackRoundTrip(e: Entry)
    requires e.Fits()
    ensures 0 <= Pack(e) < 2 * ACK_BIT
    ensures Unpack(Pack(e)) == e
  {
    var low := e.start * 512 + (e.len - 1);
    assert low / 512 == e.start && low % 512 == e.len - 1;
  }

  // ---------- meaning ----------

  ghost predicate Bad(es: seq<Entry>, x: int) {
    exists i :: 0 <= i < |es| && es[i].Has(x)
  }

  /** Sector `x` is bad and its acknowledgement flag is `ack`. */
  ghost predicate Marked(es: seq<Entry>, x: int, ack: bool) {
    exists i :: 0 <= i < |es| && es[i].Has(x) && es[i].ack == ack
  }

  predicate AllFit(es: seq<Entry>) {
    forall i | 0 <= i < |es| :: es[i].Fits()
  }

  /** In order and without overlap. */
  predicate Sorted(es: seq<Entry>) {
    forall i, j | 0 <= i < j < |es| :: es[i].End() <= es[j].start
  }

  predicate Valid(es: seq<Entry>) {
    AllFit(es) && Sorted(es)
  }

  predicate AllAcked(es: seq<Entry>) {
    forall i | 0 <= i < |es| :: es[i].ack
  }

  lemma BadAppend(a: seq<Entry>, b: seq<Entry>, x: int)
    ensures Bad(a + b, x) <==> Bad(a, x) || Bad(b, x)
  {
    if Bad(a, x) {
      var i :| 0 <= i < |a| && a[i].Has(x);
      assert (a + b)[i].Has(x);
    }
    if Bad(b, x) {
      var i :| 0 <= i < |b| && b[i].Has(x);
      assert (a + b)[|a| + i].Has(x);
    }
  }

  lemma BadOne(e: Entry, x: int)
    ensures Bad([e], x) <==> e.Has(x)
  {
    if e.Has(x) {
      assert [e][0].Has(x);
    }
  }

  /** How many entries start before `bound`. In a sorted table these are the first ones. */
  function Before(es: seq<Entry>, bound: int): nat {
    if es == [] then 0 else (if es[0].start < bound then 1 else 0) + Before(es[1..], bound)
  }

  lemma {:induction false} BeforeSplits(es: seq<Entry>, bound: int)
    requires Valid(es)
    ensures Before(es, bound) <= |es|
    ensures forall i | 0 <= i < |es| :: es[i].start < bound <==> i < Before(es, bound)
  {
    if es != [] {
      assert forall i | 0 <= i < |es[1..]| :: es[1..][i] == es[i + 1];
      BeforeSplits(es[1..], bound);
      forall i | 0 <= i < |es| ensures es[i].start < bound <==> i < Before(es, bound) {
        if i > 0 {
          assert es[i] == es[1..][i - 1] && es[0].start < es[i].start;
        }
      }
    }
  }

  // ---------- clearing [s, t) ----------

  function One(cond: bool, e: Entry): seq<Entry> {
    if cond then [e] else []
  }

  /** What clearing [s, t) leaves of one entry. Rounding can produce s == t + 1. */
  function Cut(e: Entry, s: int, t: int): seq<Entry> {
    if !e.Overlaps(Min(s, t), t) then [e]
    else One(e.start < s, Entry(e.start, s - e.start, e.ack)) + One(t < e.End(), Entry(t, e.End() - t, e.ack))
  }

  function CutAll(es: seq<Entry>, s: int, t: int): seq<Entry> {
    if es == [] then [] else Cut(es[0], s, t) + CutAll(es[1..], s, t)
  }

  // ---------- setting [s, t) ----------

  function Last(es: seq<Entry>): Entry
    requires es != []
  {
    es[|es| - 1]
  }

  function Front(es: seq<Entry>): seq<Entry>
    requires es != []
  {
    es[..|es| - 1]
  }

  /** An insertion in progress: the table is `left + right`, and [s, s + rem) is still to be added
   * between the two parts. */
  datatype Work = Work(left: seq<Entry>, right: seq<Entry>, s: int, rem: int) {
    function Table(): seq<Entry> { left + right }
    function To(): int { s + rem }
  }

  /** Extend the entry at or before the range's start. */
  function MergeLeft(w: Work, ack: bool): Work {
    if w.left == [] || Last(w.left).End() < w.s then w
    else
      var p, t := Last(w.left), w.To();
      var ack' := if w.s == p.start && t >= p.End() then ack else p.ack && ack;
      var e := Max(p.End(), t);
      if e - p.start <= MAX_LEN then
        Work(Front(w.left) + [Entry(p.start, e - p.start, ack')], w.right, e, 0)
      else
        Work(Front(w.left) + [if p.len != MAX_LEN then Entry(p.start, MAX_LEN, ack') else p],
             w.right, p.start + MAX_LEN, e - (p.start + MAX_LEN))
  }

  /** Extend the next entry downwards. */
  function MergeRight(w: Work, ack: bool): Work {
    if w.rem == 0 || w.right == [] || w.To() < w.right[0].start then w
    else
      var h := w.right[0];
      var e := Max(h.End(), w.To());
      var ack' := if h.End() <= w.To() then ack else h.ack && ack;
      var n := Min(e - w.s, MAX_LEN);
      Work(w.left + [Entry(w.s, n, ack')], w.right[1..], w.s + n, e - (w.s + n))
  }

  /** Join the entry just extended with the one after it, when the code thinks they meet. */
  function Combine(w: Work): Work {
    if w.rem != 0 || w.left == [] || w.right == [] then w
    else
      var p, h := Last(w.left), w.right[0];
      var n := p.len + h.len - (w.s - h.start);
      if w.s >= h.start && n < MAX_LEN then
        Work(Front(w.left) + [Entry(p.start, n, p.ack && h.ack)], w.right[1..], w.s, 0)
      else w
  }

  /** Insert what is left in pieces, each one before the previous, while there is room. */
  function Fill(w: Work, cap: nat, ack: bool): (r: (Work, int))
    decreases w.rem
  {
    if w.rem <= 0 then (w, 0)
    else if |w.Table()| >= cap then (w, 1)
    else
      var n := Min(w.rem, MAX_LEN);
      Fill(Work(w.left, [Entry(w.s, n, ack)] + w.right, w.s + n, w.rem - n), cap, ack)
  }

  function SetStart(es: seq<Entry>, s: int, t: int): Work {
    var k := Before(es, s + 1);
    if k <= |es| then Work(es[..k], es[k..], s, t - s) else Work(es, [], s, t - s)
  }

  function Merged(es: seq<Entry>, s: int, t: int, ack: bool): Work {
    MergeRight(MergeLeft(SetStart(es, s, t), ack), ack)
  }

  /** The table and the return code of setting [s, t), and the part of the range that found no room. */
  function SetRange(es: seq<Entry>, cap: nat, s: int, t: int, ack: bool): (Work, int) {
    Fill(Combine(Merged(es, s, t, ack)), cap, ack)
  }
}
