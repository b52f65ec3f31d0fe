/** Budget, debt and wakeups of one group of the IO cost controller. */
module IoCostBudget {
  import Seqs
  import opened Options
  import opened Arith
  import opened IoCostModel

  /** Scale an absolute cost by the inverse of the group's share, rounding up. */
  function CostOf(absCost: int, hw: int): int
    requires 0 < hw
  {
    CeilDiv(absCost * WHOLE, hw)
  }

  /** The inverse, also rounding up. */
  function AbsCostOf(cost: int, hw: int): int {
    CeilDiv(cost * hw, WHOLE)
  }

  /** A sleeping submitter. */
  datatype Waiter = Waiter(id: nat, absCost: nat)

  /** The state of one group: its virtual time, that of its completed IO, its debt in absolute cost,
   * the waiters in order of arrival, and the woken ones with the cost they were charged. */
  datatype Queue = Queue(vtime: int, doneVtime: int, debt: int, waiters: seq<Waiter>, woken: seq<(nat, int)>)

  function TotalCost(ws: seq<Waiter>, hw: int): int
    requires 0 < hw
  {
    if ws == [] then 0 else CostOf(ws[0].absCost, hw) + TotalCost(ws[1..], hw)
  }

  function Charged(ws: seq<Waiter>, hw: int): seq<(nat, int)>
    requires 0 < hw
  {
    if ws == [] then [] else [(ws[0].id, CostOf(ws[0].absCost, hw))] + Charged(ws[1..], hw)
  }

  /** Pay off as much debt as the budget allows. */
  function PayDebt(q: Queue, vnow: int, hw: int): Queue
    requires 0 < hw
  {
    var budget, vdebt := vnow - q.vtime, CostOf(q.debt, hw);
    if vdebt == 0 || budget <= 0 then q
    else
      var delta := Min(budget, vdebt);
      q.(vtime := q.vtime + delta, doneVtime := q.doneVtime + delta,
         debt := q.debt - Min(AbsCostOf(delta, hw), q.debt))
  }

  /** How many waiters from the front fit the budget one after the other. */
  function Fitting(ws: seq<Waiter>, budget: int, hw: int): nat
    requires 0 < hw
  {
    if ws == [] || budget - CostOf(ws[0].absCost, hw) < 0 then 0
    else 1 + Fitting(ws[1..], budget - CostOf(ws[0].absCost, hw), hw)
  }

  /** Wake the waiters at the front that fit the budget. */
  function Wake(q: Queue, budget: int, hw: int): Queue
    requires 0 < hw
  {
    FittingLength(q.waiters, budget, hw);
    var n := Fitting(q.waiters, budget, hw);
    q.(vtime := q.vtime + TotalCost(q.waiters[..n], hw),
       waiters := q.waiters[n..], woken := q.woken + Charged(q.waiters[..n], hw))
  }

  /** Pay off debt, then wake with what is left. */
  function Kicked(q: Queue, vnow: int, hw: int): Queue
    requires 0 < hw
  {
    Wake(PayDebt(q, vnow, hw), vnow - q.vtime - CostOf(q.debt, hw), hw)
  }

  function Woken(q: Queue, vnow: int, hw: int): (n: nat)
    requires 0 < hw
    ensures n <= |q.waiters|
  {
    FittingLength(q.waiters, vnow - q.vtime - CostOf(q.debt, hw), hw);
    Fitting(q.waiters, vnow - q.vtime - CostOf(q.debt, hw), hw)
  }

  lemma {:induction false} TotalExtends(ws: seq<Waiter>, w: Waiter, hw: int)
    requires 0 < hw
    ensures TotalCost(ws + [w], hw) == TotalCost(ws, hw) + CostOf(w.absCost, hw)
    ensures Charged(ws + [w], hw) == Charged(ws, hw) + [(w.id, CostOf(w.absCost, hw))]
  {
    if ws == [] {
      assert ws + [w] == [w];
    } else {
      TotalExtends(ws[1..], w, hw);
      assert (ws + [w])[1..] == ws[1..] + [w];
    }
  }

  lemma {:induction false} FittingLength(ws: seq<Waiter>, budget: int, hw: int)
    requires 0 < hw
    ensures Fitting(ws, budget, hw) <= |ws|
  {
    if ws != [] && budget - CostOf(ws[0].absCost, hw) >= 0 {
      FittingLength(ws[1..], budget - CostOf(ws[0].absCost, hw), hw);
    }
  }

  // ---------- scaling ----------

  /** The scaled cost is the least that covers the absolute cost at this share. */
  lemma CostCovers(absCost: int, hw: int, c: int)
    requires 0 < hw
    ensures CostOf(absCost, hw) <= c <==> absCost * WHOLE <= c * hw
  {
    CeilAtMost(absCost * WHOLE, hw, c);
  }

  lemma AbsCostCovers(cost: int, hw: int, x: int)
    ensures AbsCostOf(cost, hw) <= x <==> cost * hw <= x * WHOLE
  {
    CeilAtMost(cost * hw, WHOLE, x);
  }

  lemma CostNonNegative(absCost: nat, hw: int)
    requires 0 < hw
    ensures 0 <= CostOf(absCost, hw)
    ensures CostOf(absCost, hw) == 0 <==> absCost == 0
  {
    CostCovers(absCost, hw, -1);
    CostCovers(absCost, hw, 0);
  }

  /** Scaling there and back returns the cost or one more. */
  lemma ScaleRoundTrip(absCost: nat, hw: int)
    requires 0 < hw <= WHOLE
    ensures absCost <= AbsCostOf(CostOf(absCost, hw), hw) <= absCost + 1
  {
    var c := CostOf(absCost, hw);
    CostCovers(absCost, hw, c);
    CostCovers(absCost, hw, c - 1);
    assert (c - 1) * hw == c * hw - hw;
    AbsCostCovers(c, hw, absCost - 1);
    AbsCostCovers(c, hw, absCost + 1);
  }

  // ---------- waking ----------

  lemma {:induction false} TotalNonNegative(ws: seq<Waiter>, hw: int)
    requires 0 < hw
    ensures 0 <= TotalCost(ws, hw)
  {
    if ws != [] {
      CostNonNegative(ws[0].absCost, hw);
      TotalNonNegative(ws[1..], hw);
    }
  }

  /** The waiters woken are exactly the longest prefix whose costs fit the budget together. */
  lemma {:induction false} LongestPrefix(ws: seq<Waiter>, budget: int, hw: int, m: nat)
    requires 0 < hw && 0 < m <= |ws|
    ensures m <= Fitting(ws, budget, hw) <==> TotalCost(ws[..m], hw) <= budget
    decreases |ws|
  {
    var cost := CostOf(ws[0].absCost, hw);
    assert ws[..m][0] == ws[0] && ws[..m][1..] == ws[1..][..m - 1];
    TotalNonNegative(ws[1..][..m - 1], hw);
    if budget - cost >= 0 && m > 1 {
      LongestPrefix(ws[1..], budget - cost, hw, m - 1);
    }
  }

  lemma FittingFits(ws: seq<Waiter>, budget: int, hw: int)
    requires 0 < hw
    ensures Fitting(ws, budget, hw) <= |ws|
    ensures var n := Fitting(ws, budget, hw); n > 0 ==> TotalCost(ws[..n], hw) <= budget
    ensures budget < 0 ==> Fitting(ws, budget, hw) == 0
  {
    FittingLength(ws, budget, hw);
    var n := Fitting(ws, budget, hw);
    if n > 0 {
      LongestPrefix(ws, budget, hw, n);
      TotalNonNegative(ws[..n], hw);
    }
  }

  // ---------- debt ----------

  /** Debt only shrinks and never goes below zero. */
  lemma DebtShrinks(q: Queue, vnow: int, hw: int)
    requires 0 < hw && 0 <= q.debt
    ensures 0 <= Kicked(q, vnow, hw).debt <= q.debt
  {
    CostNonNegative(q.debt, hw);
    var budget, vdebt := vnow - q.vtime, CostOf(q.debt, hw);
    if vdebt != 0 && budget > 0 {
      var delta := Min(budget, vdebt);
      AbsCostCovers(delta, hw, -1);
      MulNonNegative(delta, hw);
    }
  }

  /** While debt remains nobody is woken. */
  lemma DebtBlocksWaking(q: Queue, vnow: int, hw: int)
    requires 0 < hw && 0 <= q.debt && Kicked(q, vnow, hw).debt > 0
    ensures Woken(q, vnow, hw) == 0
    ensures Kicked(q, vnow, hw).waiters == q.waiters && Kicked(q, vnow, hw).woken == q.woken
  {
    var budget, vdebt := vnow - q.vtime, CostOf(q.debt, hw);
    CostNonNegative(q.debt, hw);
    if budget >= vdebt {
      CoveredDebtIsCleared(q, vnow, hw);
    } else {
      FittingFits(q.waiters, budget - vdebt, hw);
    }
  }

  /** A budget that covers the scaled debt clears it. */
  lemma CoveredDebtIsCleared(q: Queue, vnow: int, hw: int)
    requires 0 < hw && 0 <= q.debt && CostOf(q.debt, hw) <= vnow - q.vtime
    ensures Kicked(q, vnow, hw).debt == 0
  {
    CostNonNegative(q.debt, hw);
    if q.debt > 0 {
      var vdebt := CostOf(q.debt, hw);
      CostCovers(q.debt, hw, vdebt);
      AbsCostCovers(vdebt, hw, q.debt - 1);
      assert (q.debt - 1) * WHOLE == q.debt * WHOLE - WHOLE;
    }
  }

  /** Exactly when a kick clears the debt: rounding up the part that is paid off can clear the last
   * unit before the budget covers its cost. */
  lemma DebtClearedIff(q: Queue, vnow: int, hw: int)
    requires 0 < hw && 0 < q.debt
    ensures Kicked(q, vnow, hw).debt == 0 <==> q.vtime < vnow && (q.debt - 1) * WHOLE < (vnow - q.vtime) * hw
  {
    CostNonNegative(q.debt, hw);
    var budget, vdebt := vnow - q.vtime, CostOf(q.debt, hw);
    if budget > 0 {
      CostCovers(q.debt, hw, vdebt);
      AbsCostCovers(Min(budget, vdebt), hw, q.debt - 1);
      assert (q.debt - 1) * WHOLE == q.debt * WHOLE - WHOLE;
      if vdebt <= budget {
        MulMonotone(vdebt, budget, hw);
      }
    }
  }

  /** What a kick pays: all of the budget, but no more than the debt costs; and what remains of the debt is
   * what was not paid for, to the unit. */
  ghost predicate PaidExactly(q: Queue, r: Queue, vnow: int, hw: int)
    requires 0 < hw
  {
    var paid := r.doneVtime - q.doneVtime;
    && (r.debt > 0 ==> && paid == Max(0, vnow - q.vtime)
                       && paid * hw <= (q.debt - r.debt) * 0x1_0000 < paid * hw + 0x1_0000)
    && (r.debt == 0 < q.debt ==>
          && paid <= vnow - q.vtime
          && (q.debt - 1) * 0x1_0000 < paid * hw < q.debt * 0x1_0000 + hw
          && (paid < vnow - q.vtime ==> q.debt * 0x1_0000 <= paid * hw))
    && (q.debt == 0 ==> paid == 0)
  }

  lemma DebtPaidExactly(q: Queue, vnow: int, hw: int)
    requires 0 < hw && 0 <= q.debt
    ensures PaidExactly(q, Kicked(q, vnow, hw), vnow, hw)
  {
    CostNonNegative(q.debt, hw);
    var budget, vdebt := vnow - q.vtime, CostOf(q.debt, hw);
    var r := PayDebt(q, vnow, hw);
    if q.debt > 0 {
      DebtClearedIff(q, vnow, hw);
      CostCovers(q.debt, hw, vdebt);
      CostCovers(q.debt, hw, vdebt - 1);
      assert (vdebt - 1) * hw == vdebt * hw - hw;
      if budget > 0 {
        var delta := Min(budget, vdebt);
        var x := AbsCostOf(delta, hw);
        AbsCostCovers(delta, hw, x);
        AbsCostCovers(delta, hw, x - 1);
        hide CostOf, AbsCostOf;
        MulMonotone(delta, vdebt, hw);
        assert (q.debt - 1) * WHOLE == q.debt * WHOLE - WHOLE;
      }
    }
  }

  /** One unit of debt at the smallest share costs 65536, yet a budget of 1 clears it. */
  lemma TinyBudgetClearsDebt()
    ensures var q := Queue(0, 0, 1, [], []);
            CostOf(1, 1) == 65536 && Kicked(q, 1, 1).debt == 0 && Kicked(q, 1, 1).vtime == 1
  {
  }

  // ---------- virtual time ----------

  /** A kick never moves a group past the present, and charges exactly what it pays and wakes. */
  lemma VtimeBounded(q: Queue, vnow: int, hw: int)
    requires 0 < hw && 0 <= q.debt
    ensures var r := Kicked(q, vnow, hw);
            && q.vtime <= r.vtime <= Max(q.vtime, vnow)
            && r.vtime - q.vtime == (r.doneVtime - q.doneVtime) + TotalCost(q.waiters[..Woken(q, vnow, hw)], hw)
  {
    CostNonNegative(q.debt, hw);
    var budget, vdebt := vnow - q.vtime, CostOf(q.debt, hw);
    FittingFits(q.waiters, budget - vdebt, hw);
    TotalNonNegative(q.waiters[..Woken(q, vnow, hw)], hw);
  }

  lemma FittingStep(ws: seq<Waiter>, budget: int, hw: int)
    requires 0 < hw && ws != []
    ensures var left := budget - CostOf(ws[0].absCost, hw);
            Fitting(ws, budget, hw) == if left < 0 then 0 else 1 + Fitting(ws[1..], left, hw)
  {
    hide CostOf;
  }

  lemma FittingNone(budget: int, hw: int)
    requires 0 < hw
    ensures Fitting([], budget, hw) == 0
  {
  }

  // ---------- the timer ----------

  /** The present: in nanoseconds, in virtual time, and how much virtual time a microsecond brings. */
  datatype Now = Now(ns: int, vnow: int, vrate: int)

  /** Virtual time at a later instant, if the rate stays. */
  function VnowAt(now: Now, ns: int): int {
    now.vnow + (ns - now.ns) / 1000 * now.vrate
  }

  /** By how much the budget misses the cost of the first waiter that is not woken. */
  function Shortage(q: Queue, vnow: int, hw: int): int
    requires 0 < hw
  {
    var n := Woken(q, vnow, hw);
    if n == |q.waiters| then 0
    else TotalCost(q.waiters[..n + 1], hw) - (vnow - q.vtime - CostOf(q.debt, hw))
  }

  function NextTimer(timer: Option<int>, shortage: int, now: Now, margin: nat): Option<int>
    requires 0 < now.vrate
  {
    var expires := now.ns + CeilDiv(shortage, now.vrate) * 1000 + margin / 4;
    if timer.Some? && expires - margin / 4 <= timer.value <= expires + margin / 4 then timer else Some(expires)
  }

  lemma StillWaiting(q: Queue, vnow: int, hw: int)
    requires 0 < hw
    ensures var n, r := Woken(q, vnow, hw), Kicked(q, vnow, hw);
            r.waiters == q.waiters[n..] && (r.waiters == [] <==> n == |q.waiters|)
  {
    hide CostOf, AbsCostOf, Fitting;
    FittingLength(q.waiters, vnow - q.vtime - CostOf(q.debt, hw), hw);
  }

  /** What is paid off comes off the scaled debt, too. */
  lemma ScaledDebtFalls(q: Queue, vnow: int, hw: int)
    requires 0 < hw && 0 <= q.debt
    ensures var r := PayDebt(q, vnow, hw); CostOf(r.debt, hw) <= CostOf(q.debt, hw) - (r.vtime - q.vtime)
  {
    var budget, vdebt := vnow - q.vtime, CostOf(q.debt, hw);
    if vdebt != 0 && budget > 0 {
      CostNonNegative(q.debt, hw);
      var delta := Min(budget, vdebt);
      var x := AbsCostOf(delta, hw);
      var d := q.debt - Min(x, q.debt);
      CostCovers(q.debt, hw, vdebt);
      AbsCostCovers(delta, hw, x);
      hide CostOf, AbsCostOf;
      MulNonNegative(vdebt - delta, hw);
      assert (vdebt - delta) * hw == vdebt * hw - delta * hw;
      assert d * WHOLE <= (vdebt - delta) * hw;
      CostCovers(d, hw, vdebt - delta);
    }
  }

  /** Once virtual time has advanced by the shortage, the next kick wakes the first waiter. */
  lemma NextKickWakes(q: Queue, vnow: int, hw: int, later: int)
    requires 0 < hw && 0 <= q.debt && Kicked(q, vnow, hw).waiters != [] && vnow + Shortage(q, vnow, hw) <= later
    ensures 0 < Woken(Kicked(q, vnow, hw), later, hw)
  {
    StillWaiting(q, vnow, hw);
    ScaledDebtFalls(q, vnow, hw);
    var n, r := Woken(q, vnow, hw), Kicked(q, vnow, hw);
    var w := q.waiters[n];
    assert r.waiters[0] == w;
    assert q.waiters[..n + 1] == q.waiters[..n] + [w];
    TotalExtends(q.waiters[..n], w, hw);
    hide CostOf, AbsCostOf, TotalCost;
  }

  /** The timer is never set for too early: when it expires, at an unchanged rate and share, the kick
   * wakes a waiter. */
  lemma TimerSuffices(q: Queue, now: Now, hw: int, timer: Option<int>, margin: nat)
    requires 0 < hw && 0 < now.vrate && 0 <= q.debt && Kicked(q, now.vnow, hw).waiters != []
    ensures var t := NextTimer(timer, Shortage(q, now.vnow, hw), now, margin);
            t.Some? && 0 < Woken(Kicked(q, now.vnow, hw), VnowAt(now, t.value), hw)
  {
    var short := Shortage(q, now.vnow, hw);
    var t := NextTimer(timer, short, now, margin).value;
    FloorBelow(t - now.ns, 1000, CeilDiv(short, now.vrate));
    CeilAtMost(short, now.vrate, (t - now.ns) / 1000);
    hide Shortage, Kicked, Woken;
    NextKickWakes(q, now.vnow, hw, VnowAt(now, t));
  }

  /** Before virtual time has advanced by the shortage nobody is woken, if the budget covered the debt. */
  lemma NoEarlierWake(q: Queue, vnow: int, hw: int, later: int)
    requires 0 < hw && 0 <= q.debt && Kicked(q, vnow, hw).waiters != [] && later < vnow + Shortage(q, vnow, hw)
    requires CostOf(q.debt, hw) <= vnow - q.vtime
    ensures Woken(Kicked(q, vnow, hw), later, hw) == 0
  {
    StillWaiting(q, vnow, hw);
    CoveredDebtIsCleared(q, vnow, hw);
    CostNonNegative(q.debt, hw);
    CostNonNegative(0, hw);
    var n, r := Woken(q, vnow, hw), Kicked(q, vnow, hw);
    var w := q.waiters[n];
    assert r.waiters[0] == w;
    assert q.waiters[..n + 1] == q.waiters[..n] + [w];
    TotalExtends(q.waiters[..n], w, hw);
    hide CostOf, AbsCostOf, TotalCost;
  }

  /** The timer is never set late by more than half the margin: any instant that is earlier than the timer
   * by more than that comes before the shortage is made up, and a kick then wakes nobody. */
  lemma TimerPrompt(q: Queue, now: Now, hw: int, timer: Option<int>, margin: nat, ns: int)
    requires 0 < hw && 0 < now.vrate && 0 <= q.debt && Kicked(q, now.vnow, hw).waiters != []
    requires 2 * ns + margin < 2 * NextTimer(timer, Shortage(q, now.vnow, hw), now, margin).value
    ensures VnowAt(now, ns) < now.vnow + Shortage(q, now.vnow, hw)
    ensures CostOf(q.debt, hw) <= now.vnow - q.vtime ==> Woken(Kicked(q, now.vnow, hw), VnowAt(now, ns), hw) == 0
  {
    var short := Shortage(q, now.vnow, hw);
    var n := CeilDiv(short, now.vrate);
    FloorBelow(ns - now.ns, 1000, n);
    CeilAtMost(short, now.vrate, (ns - now.ns) / 1000);
    assert VnowAt(now, ns) < now.vnow + short;
    hide Shortage, Kicked, Woken, CostOf;
    if CostOf(q.debt, hw) <= now.vnow - q.vtime {
      NoEarlierWake(q, now.vnow, hw, VnowAt(now, ns));
    }
  }

  // ---------- who is woken, and for how much ----------

  lemma {:induction false} ChargedAt(ws: seq<Waiter>, hw: int, i: nat)
    requires 0 < hw && i < |ws|
    ensures |Charged(ws, hw)| == |ws| && Charged(ws, hw)[i] == (ws[i].id, CostOf(ws[i].absCost, hw))
  {
    hide CostOf;
    if i > 0 {
      ChargedAt(ws[1..], hw, i - 1);
    } else if |ws| > 1 {
      ChargedAt(ws[1..], hw, 0);
    }
  }

  /** The woken are the first waiters in order of arrival; each is charged the least that covers its cost. */
  lemma WokenInOrder(q: Queue, vnow: int, hw: int, i: nat)
    requires 0 < hw && i < Woken(q, vnow, hw)
    ensures var r := Kicked(q, vnow, hw);
            && |r.woken| == |q.woken| + Woken(q, vnow, hw) && r.woken[..|q.woken|] == q.woken
            && var (id, cost) := r.woken[|q.woken| + i];
               id == q.waiters[i].id && (cost - 1) * hw < q.waiters[i].absCost * 0x1_0000 <= cost * hw
  {
    var n := Woken(q, vnow, hw);
    var ws := q.waiters[..n];
    ChargedAt(ws, hw, i);
    CostCovers(ws[i].absCost, hw, CostOf(ws[i].absCost, hw));
    CostCovers(ws[i].absCost, hw, CostOf(ws[i].absCost, hw) - 1);
    hide CostOf, AbsCostOf, Fitting, Charged;
  }

  /** The queue with its first `n` waiters woken. */
  function WokenUpTo(q: Queue, n: nat, hw: int): Queue
    requires 0 < hw && n <= |q.waiters|
  {
    q.(vtime := q.vtime + TotalCost(q.waiters[..n], hw),
       waiters := q.waiters[n..], woken := q.woken + Charged(q.waiters[..n], hw))
  }

  lemma WokenOneMore(q: Queue, n: nat, hw: int)
    requires 0 < hw && n < |q.waiters|
    ensures var v, w := WokenUpTo(q, n, hw), q.waiters[n];
            var cost := CostOf(w.absCost, hw);
            && TotalCost(q.waiters[..n + 1], hw) == TotalCost(q.waiters[..n], hw) + cost
            && WokenUpTo(q, n + 1, hw) ==
               v.(vtime := v.vtime + cost, waiters := v.waiters[1..], woken := v.woken + [(w.id, cost)])
  {
    var w := q.waiters[n];
    TotalExtends(q.waiters[..n], w, hw);
    assert q.waiters[..n + 1] == q.waiters[..n] + [w] && q.waiters[n..][1..] == q.waiters[n + 1..];
    hide CostOf, TotalCost, Charged;
    Seqs.Assoc(q.woken, Charged(q.waiters[..n], hw), [(w.id, CostOf(w.absCost, hw))]);
  }

  class WaitQueue {
    var vtime: int
    var doneVtime: int
    var debt: int
    var waiters: seq<Waiter>
    var woken: seq<(nat, int)>
    var timer: Option<int>

    function State(): Queue
      reads this
    {
      Queue(vtime, doneVtime, debt, waiters, woken)
    }

    /** Walk the queue from the front until a waiter does not fit. */
    method WakeUp(budget: int, hw: int) returns (left: int)
      requires 0 < hw
      modifies this`vtime, this`waiters, this`woken
      ensures State() == Wake(old(State()), budget, hw)
      ensures var n := Fitting(old(waiters), budget, hw);
              && n <= |old(waiters)|
              && (n < |old(waiters)| ==> left < 0 && left == budget - TotalCost(old(waiters)[..n + 1], hw))
    {
      ghost var q := State();
      left := budget;
      ghost var n := 0;
      FittingLength(q.waiters, left, hw);
      assert q.waiters[..0] == [] && TotalCost([], hw) == 0 && Charged([], hw) == [];
      hide CostOf, TotalCost, Charged, Fitting;
      while waiters != []
        invariant n <= |q.waiters| && left == budget - TotalCost(q.waiters[..n], hw)
        invariant Fitting(q.waiters, budget, hw) == n + Fitting(q.waiters[n..], left, hw)
        invariant State() == WokenUpTo(q, n, hw)
        decreases |waiters|
      {
        var w := waiters[0];
        var cost := CostOf(w.absCost, hw);
        FittingStep(q.waiters[n..], left, hw);
        assert q.waiters[n..][1..] == q.waiters[n + 1..];
        WokenOneMore(q, n, hw);
        left := left - cost;
        if left < 0 {
          return;
        }
        vtime := vtime + cost;
        waiters := waiters[1..];
        woken := woken + [(w.id, cost)];
        n := n + 1;
      }
      FittingNone(left, hw);
    }

    method PayOff(budget: int, vdebt: int, hw: int)
      requires 0 < hw && vdebt == CostOf(debt, hw)
      modifies this`vtime, this`doneVtime, this`debt
      ensures State() == PayDebt(old(State()), old(vtime) + budget, hw)
    {
      hide CostOf, AbsCostOf;
      if vdebt != 0 && budget > 0 {
        var delta := if budget < vdebt then budget else vdebt;
        var absDelta := if AbsCostOf(delta, hw) < debt then AbsCostOf(delta, hw) else debt;
        vtime := vtime + delta;
        doneVtime := doneVtime + delta;
        debt := debt - absDelta;
      }
    }

    /** Pay off debt, wake who is due, and if someone still waits set the timer for when the first of them
     * can be paid, unless it is already set close enough. */
    method KickWaitq(now: Now, hw: int, margin: nat)
      requires 0 < hw && 0 < now.vrate
      modifies this
      ensures State() == Kicked(old(State()), now.vnow, hw)
      ensures 0 <= old(debt) ==> PaidExactly(old(State()), State(), now.vnow, hw)
      ensures timer == if waiters == [] then old(timer)
                       else NextTimer(old(timer), Shortage(old(State()), now.vnow, hw), now, margin)
    {
      if 0 <= debt {
        DebtPaidExactly(State(), now.vnow, hw);
      }
      hide CostOf, PayDebt, Wake, Fitting, TotalCost, PaidExactly;
      var budget := now.vnow - vtime;
      var vdebt := CostOf(debt, hw);
      PayOff(budget, vdebt, hw);
      var left := WakeUp(budget - vdebt, hw);
      StillWaiting(old(State()), now.vnow, hw);
      if waiters == [] {
        return;
      }
      var expires := now.ns + CeilDiv(-left, now.vrate) * 1000 + margin / 4;
      if timer.Some? && expires - margin / 4 <= timer.value <= expires + margin / 4 {
        return;
      }
      timer := Some(expires);
    }
  }
}
