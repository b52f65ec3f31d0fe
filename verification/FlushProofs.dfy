/** Safety, durability and progress of the flush sequencer over whole runs. */
module FlushProofs {
  import opened Options
  import opened FlushModel
  import Seqs

  // ---------- what each request must look like ----------

  /** `rq` has completed exactly the first `|rq.log|` steps of its policy. */
  ghost predicate InStep(rq: Request) {
    var steps := PolicySteps(rq.policy);
    var n := |rq.log|;
    var a := if rq.policy.pre then 1 else 0;
    var b := a + if rq.policy.data then 1 else 0;
    && n <= |steps|
    && (forall i | 0 <= i < n :: rq.log[i].step == steps[i])
    && rq.done == Mask(!rq.policy.pre || 1 <= n, !rq.policy.data || a < n, !rq.policy.post || b < n)
  }

  /** A flush step is served by a successful device flush issued after the request queued for it. */
  ghost predicate Served(r: Record, device: seq<FlushCommand>) {
    && r.joined <= r.issued < r.finished
    && (r.step != Data ==> r.joined < r.issued && FlushCommand(r.issued, r.finished) in device)
  }

  /** All completed steps were served, one strictly after the other. */
  ghost predicate Timely(log: seq<Record>, device: seq<FlushCommand>) {
    && (forall i | 0 <= i < |log| :: Served(log[i], device))
    && (forall i, j | 0 <= i < j < |log| :: log[i].finished < log[j].joined)
  }

  ghost predicate LogBefore(log: seq<Record>, t: nat) {
    forall i | 0 <= i < |log| :: log[i].finished < t
  }

  /** A flush before and one after only make sense around data. */
  predicate SensiblePolicy(policy: Mask) {
    policy.pre && policy.post ==> policy.data
  }

  /** `rq` is unfinished and waits for one more step, a flush exactly when `flush` holds. */
  ghost predicate Live(rq: Request, flush: bool, device: seq<FlushCommand>, clock: nat) {
    && InStep(rq)
    && Timely(rq.log, device)
    && LogBefore(rq.log, rq.joined)
    && rq.joined < clock
    && SensiblePolicy(rq.policy)
    && CurrentStep(rq.done).Some?
    && (flush <==> CurrentStep(rq.done).value != Data)
  }

  /** The durability promise: the policy's steps, all of them, in order, each properly served. */
  ghost predicate Fulfilled(rq: Request, device: seq<FlushCommand>) {
    && |rq.log| == |PolicySteps(rq.policy)|
    && (forall i | 0 <= i < |rq.log| :: rq.log[i].step == PolicySteps(rq.policy)[i])
    && Timely(rq.log, device)
  }

  // ---------- invariants ----------

  ghost predicate AllLive(rs: seq<Request>, flush: bool, device: seq<FlushCommand>, clock: nat) {
    forall i | 0 <= i < |rs| :: Live(rs[i], flush, device, clock)
  }

  /** Every listed request is live and on a list that matches the step it waits for. */
  ghost predicate Listed(s: Fq) {
    && AllLive(s.q0, true, s.device, s.clock)
    && AllLive(s.q1, true, s.device, s.clock)
    && AllLive(s.dataInFlight, false, s.device, s.clock)
  }

  ghost predicate JoinedBefore(rs: seq<Request>, t: nat) {
    forall i | 0 <= i < |rs| :: rs[i].joined < t
  }

  ghost predicate EndedWell(es: seq<Ended>, device: seq<FlushCommand>) {
    forall i | 0 <= i < |es| :: !es[i].error ==> Fulfilled(es[i].rq, device)
  }

  /** Holds between steps and also while a flush completion walks its queue. */
  ghost predicate Base(s: Fq) {
    && !s.bug
    && s.pendingIdx < 2 && s.runningIdx < 2
    && (s.flushInFlight <==> s.pendingIdx != s.runningIdx)
    && Listed(s)
    && EndedWell(s.ended, s.device)
    && (s.flushInFlight ==>
          && s.issuedAt < s.clock
          && s.Queue(s.runningIdx) != []
          && JoinedBefore(s.Queue(s.runningIdx), s.issuedAt))
  }

  /** Something is in flight unless nothing waits. */
  ghost predicate Moving(s: Fq) {
    s.flushInFlight || s.Queue(s.pendingIdx) == [] || s.dataInFlight != []
  }

  /** The invariant between steps. Without a flush in flight only the pending queue may be filled;
   * with one, the running queue holds the requests it serves. No request is in two places. */
  ghost predicate Inv(s: Fq) {
    && Base(s)
    && (!s.flushInFlight ==> s.Queue(Toggle(s.pendingIdx)) == [])
    && Moving(s)
    && (forall id :: Places(s, id) <= 1)
  }

  // ---------- remaining work ----------

  function Remaining(rq: Request): nat {
    var n := |PolicySteps(rq.policy)|;
    if |rq.log| <= n then n - |rq.log| else 0
  }

  function Total(rs: seq<Request>): nat {
    if rs == [] then 0 else Remaining(rs[0]) + Total(rs[1..])
  }

  function Work(s: Fq): nat {
    Total(s.q0) + Total(s.q1) + Total(s.dataInFlight)
  }

  lemma {:induction false} TotalAppend(a: seq<Request>, b: seq<Request>)
    ensures Total(a + b) == Total(a) + Total(b)
  {
    if a == [] {
      assert a + b == b;
    } else {
      TotalAppend(a[1..], b);
      assert (a + b)[1..] == a[1..] + b;
    }
  }

  lemma TotalRemove(rs: seq<Request>, k: nat)
    requires k < |rs|
    ensures Total(rs) == Total(rs[..k] + rs[k + 1..]) + Remaining(rs[k])
  {
    var a, b := rs[..k], rs[k + 1..];
    Seqs.Around(rs, k);
    Seqs.Single(rs[k], b);
    TotalAppend(a, [rs[k]] + b);
    TotalAppend(a, b);
  }

  lemma {:induction false} CountAppend(a: seq<Request>, b: seq<Request>, id: nat)
    ensures Count(a + b, id) == Count(a, id) + Count(b, id)
  {
    if a == [] {
      assert a + b == b;
    } else {
      CountAppend(a[1..], b, id);
      assert (a + b)[1..] == a[1..] + b;
    }
  }

  lemma {:induction false} CountEndedAppend(a: seq<Ended>, e: Ended, id: nat)
    ensures CountEnded(a + [e], id) == CountEnded(a, id) + if e.rq.id == id then 1 else 0
  {
    if a != [] {
      CountEndedAppend(a[1..], e, id);
      assert (a + [e])[1..] == a[1..] + [e];
    }
  }

  lemma {:induction false} CountIdsAppend(a: seq<nat>, x: nat, id: nat)
    ensures CountIds(a + [x], id) == CountIds(a, id) + if x == id then 1 else 0
  {
    if a != [] {
      CountIdsAppend(a[1..], x, id);
      assert (a + [x])[1..] == a[1..] + [x];
    }
  }

  lemma CountRemove(rs: seq<Request>, k: nat, id: nat)
    requires k < |rs|
    ensures Count(rs, id) == Count(rs[..k] + rs[k + 1..], id) + if rs[k].id == id then 1 else 0
  {
    assert rs == rs[..k] + ([rs[k]] + rs[k + 1..]);
    CountAppend(rs[..k], [rs[k]] + rs[k + 1..], id);
    CountAppend(rs[..k], rs[k + 1..], id);
  }

  /** `t` holds every request as often as `s` does. */
  ghost predicate SamePlaces(s: Fq, t: Fq) {
    forall id :: Places(t, id) == Places(s, id)
  }

  /** `t` holds every request as often as `s` does, and `x` once more. */
  ghost predicate OneMore(s: Fq, t: Fq, x: nat) {
    forall id :: Places(t, id) == Places(s, id) + if id == x then 1 else 0
  }

  // ---------- growing history keeps requests live ----------

  ghost predicate Extends(device: seq<FlushCommand>, clock: nat, device': seq<FlushCommand>, clock': nat) {
    clock <= clock' && device <= device'
  }

  lemma TimelyGrows(log: seq<Record>, device: seq<FlushCommand>, device': seq<FlushCommand>)
    requires Timely(log, device) && device <= device'
    ensures Timely(log, device')
  {
    forall i | 0 <= i < |log| ensures Served(log[i], device') {
      assert Served(log[i], device);
    }
  }

  lemma AllLiveGrows(rs: seq<Request>, flush: bool,
                     device: seq<FlushCommand>, clock: nat, device': seq<FlushCommand>, clock': nat)
    requires AllLive(rs, flush, device, clock) && Extends(device, clock, device', clock')
    ensures AllLive(rs, flush, device', clock')
  {
    forall i | 0 <= i < |rs| ensures Live(rs[i], flush, device', clock') {
      assert Live(rs[i], flush, device, clock);
      TimelyGrows(rs[i].log, device, device');
    }
  }

  lemma ListedGrows(s: Fq, t: Fq)
    requires Listed(s) && Extends(s.device, s.clock, t.device, t.clock)
    requires t.q0 == s.q0 && t.q1 == s.q1 && t.dataInFlight == s.dataInFlight
    ensures Listed(t)
  {
    AllLiveGrows(s.q0, true, s.device, s.clock, t.device, t.clock);
    AllLiveGrows(s.q1, true, s.device, s.clock, t.device, t.clock);
    AllLiveGrows(s.dataInFlight, false, s.device, s.clock, t.device, t.clock);
  }

  lemma EndedWellGrows(es: seq<Ended>, device: seq<FlushCommand>, device': seq<FlushCommand>)
    requires EndedWell(es, device) && device <= device'
    ensures EndedWell(es, device')
  {
    forall i | 0 <= i < |es| && !es[i].error ensures Fulfilled(es[i].rq, device') {
      TimelyGrows(es[i].rq.log, device, device');
    }
  }

  // ---------- the building blocks keep the invariant ----------

  lemma KickKeeps(s: Fq, env: Env)
    requires Base(s)
    ensures var t := Kick(s, env);
            && Base(t) && Moving(t)
            && t.q0 == s.q0 && t.q1 == s.q1 && t.dataInFlight == s.dataInFlight
            && t.runningIdx == s.runningIdx && t.device == s.device
            && t.ended == s.ended && t.bypassed == s.bypassed
            && (t.pendingIdx == s.pendingIdx || (!s.flushInFlight && t.flushInFlight))
            && s.clock <= t.clock
  {
    var t := Kick(s, env);
    ListedGrows(s, t);
    if t != s {
      assert t.Queue(t.runningIdx) == s.Queue(s.pendingIdx);
      assert JoinedBefore(t.Queue(t.runningIdx), t.issuedAt);
    }
  }

  /** `rq` has been taken off its list, marked and logged, and is about to be placed. */
  ghost predicate Placeable(s: Fq, rq: Request, error: bool) {
    && InStep(rq) && SensiblePolicy(rq.policy)
    && (!error ==> Timely(rq.log, s.device) && LogBefore(rq.log, s.clock))
  }

  /** Places that are left alone when `rq` is placed. */
  ghost predicate SameOutline(s: Fq, t: Fq) {
    && t.pendingIdx == s.pendingIdx && t.runningIdx == s.runningIdx
    && t.flushInFlight == s.flushInFlight && t.issuedAt == s.issuedAt
    && t.device == s.device && t.bug == s.bug
    && t.Queue(Toggle(s.pendingIdx)) == s.Queue(Toggle(s.pendingIdx))
  }

  predicate LeavesFlushQueues(rq: Request, error: bool) {
    error || CurrentStep(rq.done).None? || CurrentStep(rq.done).value == Data
  }

  lemma PlaceOutline(s: Fq, rq: Request, error: bool, env: Env)
    requires s.pendingIdx < 2
    ensures var t := Place(s, rq, error, env);
            && SameOutline(s, t) && t.clock == s.clock + 1 && t.bypassed == s.bypassed
            && (LeavesFlushQueues(rq, error) ==> t.q0 == s.q0 && t.q1 == s.q1)
  {
  }

  lemma PlaceableIsLive(s: Fq, rq: Request)
    requires Placeable(s, rq, false) && CurrentStep(rq.done).Some?
    ensures Live(rq.(joined := s.clock), CurrentStep(rq.done).value != Data, s.device, s.clock + 1)
  {
  }

  lemma PlaceListed(s: Fq, rq: Request, error: bool, env: Env)
    requires Listed(s) && Placeable(s, rq, error)
    ensures Listed(Place(s, rq, error, env))
  {
    hide Live, Kick;
    var s1 := s.(clock := s.clock + 1);
    ListedGrows(s, s1);
    if !error && CurrentStep(rq.done).Some? {
      PlaceableIsLive(s, rq);
      var flush := CurrentStep(rq.done).value != Data;
      var waiting := rq.(joined := s.clock);
      var rs := if flush then s.Queue(s.pendingIdx) else s.dataInFlight;
      assert AllLive(rs + [waiting], flush, s1.device, s1.clock);
    }
  }

  lemma PlaceKeeps(s: Fq, rq: Request, error: bool, env: Env)
    requires Base(s) && Placeable(s, rq, error)
    ensures Base(Place(s, rq, error, env))
  {
    var t := Place(s, rq, error, env);
    PlaceOutline(s, rq, error, env);
    PlaceListed(s, rq, error, env);
    assert s.flushInFlight ==> t.Queue(t.runningIdx) == s.Queue(s.runningIdx);
    assert EndedWell(t.ended, t.device);
  }

  lemma PlaceCount(s: Fq, rq: Request, error: bool, env: Env, id: nat)
    ensures Places(Place(s, rq, error, env), id) == Places(s, id) + if id == rq.id then 1 else 0
  {
    var waiting := rq.(joined := s.clock);
    assert Count([waiting], id) == if id == rq.id then 1 else 0;
    hide Count, CountEnded, CountIds;
    if error || CurrentStep(rq.done).None? {
      CountEndedAppend(s.ended, Ended(rq, error), id);
    } else if CurrentStep(rq.done).value == Data {
      CountAppend(s.dataInFlight, [waiting], id);
    } else if s.pendingIdx == 0 {
      CountAppend(s.q0, [waiting], id);
    } else {
      CountAppend(s.q1, [waiting], id);
    }
  }

  lemma PlaceWork(s: Fq, rq: Request, error: bool, env: Env)
    ensures Work(Place(s, rq, error, env)) <= Work(s) + Remaining(rq)
  {
    var waiting := rq.(joined := s.clock);
    assert Total([waiting]) == Remaining(rq);
    hide Total, Remaining;
    if error || CurrentStep(rq.done).None? {
    } else if CurrentStep(rq.done).value == Data {
      TotalAppend(s.dataInFlight, [waiting]);
    } else if s.pendingIdx == 0 {
      TotalAppend(s.q0, [waiting]);
    } else {
      TotalAppend(s.q1, [waiting]);
    }
  }

  lemma CompleteKeeps(s: Fq, rq: Request, steps: Mask, error: bool, env: Env)
    requires Base(s) && !rq.done.Meets(steps)
    requires Placeable(s, rq.(done := rq.done.Union(steps)), error)
    ensures var t := CompleteSeq(s, rq, steps, error, env);
            && Base(t) && Moving(t)
            && t.runningIdx == s.runningIdx && t.device == s.device && s.clock <= t.clock
            && (t.pendingIdx == s.pendingIdx || (!s.flushInFlight && t.flushInFlight))
            && t.Queue(Toggle(s.pendingIdx)) == s.Queue(Toggle(s.pendingIdx))
            && (LeavesFlushQueues(rq.(done := rq.done.Union(steps)), error) ==> t.q0 == s.q0 && t.q1 == s.q1)
  {
    var marked := rq.(done := rq.done.Union(steps));
    assert s.(bug := s.bug || rq.done.Meets(steps)) == s;
    PlaceOutline(s, marked, error, env);
    PlaceKeeps(s, marked, error, env);
    KickKeeps(Place(s, marked, error, env), env);
  }

  lemma CompleteCounts(s: Fq, rq: Request, steps: Mask, error: bool, env: Env)
    ensures var t := CompleteSeq(s, rq, steps, error, env);
            && OneMore(s, t, rq.id)
            && Work(t) <= Work(s) + Remaining(rq)
  {
    var s1 := s.(bug := s.bug || rq.done.Meets(steps));
    var marked := rq.(done := rq.done.Union(steps));
    PlaceWork(s1, marked, error, env);
    forall id
      ensures Places(CompleteSeq(s, rq, steps, error, env), id) == Places(s, id) + if id == rq.id then 1 else 0
    {
      PlaceCount(s1, marked, error, env, id);
    }
  }

  /** The steps of a policy, position by position. */
  lemma StepsAt(p: Mask)
    ensures var steps := PolicySteps(p);
            var a := if p.pre then 1 else 0;
            var b := a + if p.data then 1 else 0;
            && |steps| == b + (if p.post then 1 else 0)
            && (p.pre ==> steps[0] == PreFlush) && (p.data ==> steps[a] == Data) && (p.post ==> steps[b] == PostFlush)
  {
  }

  /** The step a request waits for is the next of its policy; done and logged, it is still in step. */
  lemma LoggedInStep(rq: Request, issued: nat, finished: nat)
    requires InStep(rq) && CurrentStep(rq.done).Some?
    ensures var step := CurrentStep(rq.done).value;
            var logged := Log(rq, step, issued, finished);
            && !rq.done.Meets(Only(step))
            && InStep(logged.(done := logged.done.Union(Only(step))))
            && Remaining(rq) == Remaining(logged) + 1
  {
    StepsAt(rq.policy);
    hide PolicySteps;
    var step := CurrentStep(rq.done).value;
    var logged := Log(rq, step, issued, finished);
    assert forall i | 0 <= i < |rq.log| :: logged.log[i] == rq.log[i];
    assert logged.log[|rq.log|].step == step == PolicySteps(rq.policy)[|rq.log|];
  }

  lemma LoggedTimely(log: seq<Record>, r: Record, device: seq<FlushCommand>, clock: nat)
    requires Timely(log, device) && LogBefore(log, r.joined) && Served(r, device) && r.finished < clock
    ensures Timely(log + [r], device) && LogBefore(log + [r], clock)
  {
    var l := log + [r];
    assert forall i | 0 <= i < |log| :: l[i] == log[i];
    assert l[|log|] == r;
  }

  /** Logging the step a live request waits for makes it placeable. */
  lemma LoggedIsPlaceable(s: Fq, rq: Request, flush: bool, issued: nat, finished: nat, error: bool)
    requires Live(rq, flush, s.device, s.clock)
    requires rq.joined <= issued < finished < s.clock
    requires flush ==> rq.joined < issued
    requires flush && !error ==> FlushCommand(issued, finished) in s.device
    ensures var step := CurrentStep(rq.done).value;
            var logged := Log(rq, step, issued, finished);
            && !rq.done.Meets(Only(step))
            && Placeable(s, logged.(done := logged.done.Union(Only(step))), error)
            && Remaining(rq) == Remaining(logged) + 1
            && (flush ==> LeavesFlushQueues(logged.(done := logged.done.Union(Only(step))), error))
  {
    var step := CurrentStep(rq.done).value;
    LoggedInStep(rq, issued, finished);
    if flush {
      FlushLeaves(rq);
    }
    hide InStep, Timely, LogBefore, Remaining, SensiblePolicy;
    if !error {
      LoggedTimely(rq.log, Record(step, rq.joined, issued, finished), s.device, s.clock);
    }
  }

  /** After a flush step of a sensible policy comes data or nothing. */
  lemma FlushLeaves(rq: Request)
    requires InStep(rq) && SensiblePolicy(rq.policy) && CurrentStep(rq.done).Some? && CurrentStep(rq.done).value != Data
    ensures LeavesFlushQueues(rq.(done := rq.done.Union(Only(CurrentStep(rq.done).value))), false)
  {
    hide PolicySteps;
  }

  // ---------- each event keeps the invariant ----------

  /** What holds while a completed flush walks queue `idx`. */
  ghost predicate Walking(s: Fq, idx: nat, issued: nat, finished: nat, error: bool) {
    && idx < 2 && s.runningIdx == Toggle(idx)
    && JoinedBefore(s.Queue(idx), issued) && issued < finished < s.clock
    && (!error ==> FlushCommand(issued, finished) in s.device)
  }

  /** Taking the head off the walked queue leaves a good state and a request ready to be placed. */
  lemma DrainTake(s: Fq, idx: nat, issued: nat, finished: nat, error: bool)
    requires Base(s) && Walking(s, idx, issued, finished, error) && s.Queue(idx) != []
    ensures var rq := s.Queue(idx)[0];
            var rest := s.WithQueue(idx, s.Queue(idx)[1..]);
            && Base(rest)
            && CurrentStep(rq.done).Some? && CurrentStep(rq.done).value != Data
            && var step := CurrentStep(rq.done).value;
               var logged := Log(rq, step, issued, finished);
               var marked := logged.(done := logged.done.Union(Only(step)));
            && !logged.done.Meets(Only(step)) && Placeable(rest, marked, error)
            && LeavesFlushQueues(marked, error)
            && Remaining(rq) == Remaining(logged) + 1
  {
    var rq := s.Queue(idx)[0];
    var rest := s.WithQueue(idx, s.Queue(idx)[1..]);
    assert Live(rq, true, s.device, s.clock);
    assert Listed(rest);
    assert rest.Queue(rest.runningIdx) == s.Queue(s.runningIdx);
    LoggedIsPlaceable(rest, rq, true, issued, finished, error);
  }

  lemma DrainOneKeeps(s: Fq, idx: nat, issued: nat, finished: nat, error: bool, env: Env)
    requires Base(s) && Walking(s, idx, issued, finished, error) && s.Queue(idx) != []
    ensures var next := DrainOne(s, idx, issued, finished, error, env);
            && Base(next) && Moving(next)
            && Walking(next, idx, issued, finished, error)
            && next.Queue(idx) == s.Queue(idx)[1..]
  {
    DrainTake(s, idx, issued, finished, error);
    var rq := s.Queue(idx)[0];
    var step := CurrentStep(rq.done).value;
    var rest := s.WithQueue(idx, s.Queue(idx)[1..]);
    assert rest.(bug := rest.bug || step == Data) == rest;
    CompleteKeeps(rest, Log(rq, step, issued, finished), Only(step), error, env);
  }

  lemma DrainOneCounts(s: Fq, idx: nat, issued: nat, finished: nat, error: bool, env: Env)
    requires Base(s) && Walking(s, idx, issued, finished, error) && s.Queue(idx) != []
    ensures var next := DrainOne(s, idx, issued, finished, error, env);
            SamePlaces(s, next) && Work(next) < Work(s)
  {
    hide CompleteSeq, Live;
    DrainTake(s, idx, issued, finished, error);
    var q := s.Queue(idx);
    var step := CurrentStep(q[0].done).value;
    var rest := s.WithQueue(idx, q[1..]);
    assert Work(s) == Work(rest) + Remaining(q[0]);
    CompleteCounts(rest.(bug := rest.bug || step == Data), Log(q[0], step, issued, finished), Only(step), error, env);
  }

  lemma {:induction false} DrainKeeps(s: Fq, idx: nat, fuel: nat, issued: nat, finished: nat, error: bool, env: Env)
    requires Base(s) && Walking(s, idx, issued, finished, error) && |s.Queue(idx)| <= fuel
    ensures var t := Drain(s, idx, fuel, issued, finished, error, env);
            && Base(t) && t.runningIdx == Toggle(idx) && t.Queue(idx) == []
            && (s.Queue(idx) != [] ==> Moving(t))
    decreases fuel
  {
    hide DrainOne, Live;
    if s.Queue(idx) != [] {
      DrainOneKeeps(s, idx, issued, finished, error, env);
      DrainKeeps(DrainOne(s, idx, issued, finished, error, env), idx, fuel - 1, issued, finished, error, env);
    }
  }

  lemma {:induction false} DrainCounts(s: Fq, idx: nat, fuel: nat, issued: nat, finished: nat, error: bool, env: Env)
    requires Base(s) && Walking(s, idx, issued, finished, error) && |s.Queue(idx)| <= fuel
    ensures var t := Drain(s, idx, fuel, issued, finished, error, env);
            SamePlaces(s, t) && Work(t) + |s.Queue(idx)| <= Work(s)
    decreases fuel
  {
    hide DrainOne, Live, Places, Work;
    if s.Queue(idx) != [] {
      DrainOneKeeps(s, idx, issued, finished, error, env);
      DrainOneCounts(s, idx, issued, finished, error, env);
      DrainCounts(DrainOne(s, idx, issued, finished, error, env), idx, fuel - 1, issued, finished, error, env);
    }
  }

  /** The state in which a completed flush starts to walk its queue. */
  lemma FlushEndStarts(s: Fq, failed: bool)
    requires Inv(s) && s.flushInFlight
    ensures Base(Completed(s, failed))
    ensures Walking(Completed(s, failed), s.runningIdx, s.issuedAt, s.clock, failed)
  {
    hide Live;
    var s1 := Completed(s, failed);
    ListedGrows(s, s1);
    EndedWellGrows(s.ended, s.device, s1.device);
    assert s1.Queue(s.runningIdx) == s.Queue(s.runningIdx);
  }

  lemma FlushEndKeeps(s: Fq, error: bool, lastRef: bool, env: Env)
    requires Inv(s) && s.flushInFlight
    ensures var t := FlushEnd(s, error, lastRef, env);
            && Inv(t) && SamePlaces(s, t)
            && (if lastRef then Work(t) < Work(s) else Work(t) == Work(s))
  {
    hide Drain, Live;
    if lastRef {
      var failed := error || s.rqStatus;
      var running := s.runningIdx;
      FlushEndStarts(s, failed);
      var s1 := Completed(s, failed);
      assert s1.Queue(running) == s.Queue(running);
      assert SamePlaces(s, s1) && Work(s1) == Work(s);
      DrainKeeps(s1, running, 2 * |s.Queue(running)|, s.issuedAt, s.clock, failed, env);
      DrainCounts(s1, running, 2 * |s.Queue(running)|, s.issuedAt, s.clock, failed, env);
    } else {
      var t := FlushEnd(s, error, lastRef, env);
      ListedGrows(s, t);
      assert forall id :: Places(t, id) == Places(s, id);
    }
  }

  /** The state in which the `k`-th data request is off its list. */
  function WithoutData(s: Fq, k: nat): Fq
    requires k < |s.dataInFlight|
  {
    s.(dataInFlight := s.dataInFlight[..k] + s.dataInFlight[k + 1..], clock := s.clock + 1)
  }

  lemma DataTake(s: Fq, k: nat, error: bool)
    requires Base(s) && k < |s.dataInFlight|
    ensures var rq := s.dataInFlight[k];
            var logged := Log(rq, Data, rq.joined, s.clock);
            && Base(WithoutData(s, k))
            && !logged.done.Meets(Only(Data))
            && Placeable(WithoutData(s, k), logged.(done := logged.done.Union(Only(Data))), error)
            && Remaining(rq) == Remaining(logged) + 1
  {
    var rq := s.dataInFlight[k];
    assert Live(rq, false, s.device, s.clock);
    assert CurrentStep(rq.done).value == Data;
    ListedGrows(s, s.(clock := s.clock + 1));
    LoggedIsPlaceable(WithoutData(s, k), rq, false, rq.joined, s.clock, error);
  }

  lemma DataEndKeeps(s: Fq, k: nat, error: bool, env: Env)
    requires Inv(s) && k < |s.dataInFlight|
    ensures Inv(DataEnd(s, k, error, env))
    ensures SamePlaces(s, DataEnd(s, k, error, env)) && Work(DataEnd(s, k, error, env)) < Work(s)
  {
    var t := DataEnd(s, k, error, env);
    var rq := s.dataInFlight[k];
    var rest := WithoutData(s, k);
    hide CompleteSeq, Live;
    DataTake(s, k, error);
    CompleteKeeps(rest, Log(rq, Data, rq.joined, s.clock), Only(Data), error, env);
    CompleteCounts(rest, Log(rq, Data, rq.joined, s.clock), Only(Data), error, env);
    TotalRemove(s.dataInFlight, k);
    forall id ensures Places(t, id) == Places(s, id) {
      CountRemove(s.dataInFlight, k, id);
    }
  }

  /** Only the completed request leaves the list of data in flight, and it does not come back to it. */
  lemma DataEndTakesOne(s: Fq, k: nat, error: bool, env: Env)
    requires Inv(s) && k < |s.dataInFlight|
    ensures DataEnd(s, k, error, env).dataInFlight == s.dataInFlight[..k] + s.dataInFlight[k + 1..]
  {
    assert Live(s.dataInFlight[k], false, s.device, s.clock);
  }

  lemma InsertKeeps(s: Fq, id: nat, sub: Submission, env: Env)
    requires Inv(s) && Places(s, id) == 0 && SensiblePolicy(Policy(sub))
    ensures var t := Insert(s, id, sub, env);
            Inv(t) && OneMore(s, t, id)
  {
    hide Live, CompleteSeq;
    var t := Insert(s, id, sub, env);
    var policy := Policy(sub);
    var rq := Request(id, policy, NO_STEPS, 0, []);
    if policy == NO_STEPS {
      forall id ensures Places(t, id) == Places(s, id) + if id == rq.id then 1 else 0 {
        CountEndedAppend(s.ended, Ended(rq, false), id);
      }
      assert Fulfilled(rq, s.device);
      assert Listed(t);
    } else if policy == Only(Data) {
      forall x ensures Places(t, x) == Places(s, x) + if x == id then 1 else 0 {
        CountIdsAppend(s.bypassed, id, x);
      }
      assert Listed(t);
    } else {
      CompleteKeeps(s, rq, policy.Complement(), false, env);
      CompleteCounts(s, rq, policy.Complement(), false, env);
    }
  }

  predicate Sensible(e: Event) {
    e.Submit? ==> SensiblePolicy(Policy(e.sub))
  }

  predicate AllSensible(es: seq<Event>) {
    forall i | 0 <= i < |es| :: Sensible(es[i])
  }

  lemma ApplyKeeps(s: Fq, e: Event)
    requires Inv(s) && Enabled(s, e) && Sensible(e)
    ensures Inv(Apply(s, e))
  {
    match e
    case Submit(id, sub, env) => InsertKeeps(s, id, sub, env);
    case DataDone(k, error, env) => DataEndKeeps(s, k, error, env);
    case FlushDone(error, lastRef, env) => FlushEndKeeps(s, error, lastRef, env);
  }

  // ---------- theorems over whole runs ----------

  /** Every interleaving of submissions and completions keeps the invariant. */
  lemma {:induction false} RunKeeps(s: Fq, es: seq<Event>)
    requires Inv(s) && Run(s, es).Some? && AllSensible(es)
    ensures Inv(Run(s, es).value)
    decreases |es|
  {
    hide Inv, Apply;
    if es != [] {
      ApplyKeeps(s, es[0]);
      RunKeeps(Apply(s, es[0]), es[1..]);
    }
  }

  lemma InitialHolds()
    ensures Inv(INITIAL)
  {
  }

  /** States that runs of sensible submissions can reach. */
  ghost predicate Reachable(s: Fq) {
    exists es :: AllSensible(es) && Run(INITIAL, es) == Some(s)
  }

  lemma ReachableHolds(s: Fq)
    requires Reachable(s)
    ensures Inv(s)
  {
    var es :| AllSensible(es) && Run(INITIAL, es) == Some(s);
    InitialHolds();
    RunKeeps(INITIAL, es);
  }

  /** No BUG check is ever reached, and the two indices differ exactly while the one flush request
   * belongs to the device. */
  lemma BugsNeverFire(s: Fq)
    requires Reachable(s)
    ensures !s.bug
    ensures s.flushInFlight <==> s.pendingIdx != s.runningIdx
  {
    ReachableHolds(s);
  }

  /** Every list holds exactly requests whose current step matches the list. */
  lemma ListsMatchSteps(s: Fq, rq: Request)
    requires Reachable(s)
    ensures rq in s.q0 + s.q1 ==> CurrentStep(rq.done).Some? && CurrentStep(rq.done).value != Data
    ensures rq in s.dataInFlight ==> CurrentStep(rq.done) == Some(Data)
  {
    ReachableHolds(s);
    assert Listed(s);
    if rq in s.q0 + s.q1 {
      assert Live(rq, true, s.device, s.clock);
    }
    if rq in s.dataInFlight {
      assert Live(rq, false, s.device, s.clock);
    }
  }

  function Submissions(es: seq<Event>, id: nat): nat {
    if es == [] then 0
    else (if es[0].Submit? && es[0].id == id then 1 else 0) + Submissions(es[1..], id)
  }

  lemma {:induction false} RunConserves(s: Fq, es: seq<Event>, id: nat)
    requires Inv(s) && Run(s, es).Some? && AllSensible(es)
    ensures Places(Run(s, es).value, id) == Places(s, id) + Submissions(es, id)
    decreases |es|
  {
    if es != [] {
      hide Inv, Places;
      var t := Apply(s, es[0]);
      match es[0] {
        case Submit(x, sub, env) => InsertKeeps(s, x, sub, env);
        case DataDone(k, error, env) => DataEndKeeps(s, k, error, env);
        case FlushDone(error, lastRef, env) => FlushEndKeeps(s, error, lastRef, env);
      }
      RunConserves(t, es[1..], id);
    }
  }

  /** Each submitted request is in exactly one place; in particular it ends at most once. */
  lemma ExactlyOnePlace(es: seq<Event>, s: Fq, id: nat)
    requires AllSensible(es) && Run(INITIAL, es) == Some(s)
    ensures Places(s, id) == Submissions(es, id) <= 1
    ensures CountEnded(s.ended, id) <= 1
  {
    InitialHolds();
    RunConserves(INITIAL, es, id);
    RunKeeps(INITIAL, es);
  }

  /** Durability: a request that ended without error did exactly its policy's steps in order, and
   * every flush step was served by a successful device flush issued after the request queued. */
  lemma Durability(s: Fq, e: Ended)
    requires Reachable(s) && e in s.ended && !e.error
    ensures Fulfilled(e.rq, s.device)
  {
    ReachableHolds(s);
  }

  /** Forced unit access emulated by a flush: after the data write finished, a whole device flush
   * was issued and completed. */
  lemma FuaReachesMedia(s: Fq, e: Ended)
    requires Reachable(s) && e in s.ended && !e.error && e.rq.policy.data && e.rq.policy.post
    ensures exists w, f :: w in e.rq.log && w.step == Data && f in s.device && w.finished < f.issued < f.finished
  {
    Durability(s, e);
    var n := |e.rq.log|;
    var w, p := e.rq.log[n - 2], e.rq.log[n - 1];
    assert Served(p, s.device);
    assert w in e.rq.log && FlushCommand(p.issued, p.finished) in s.device;
  }

  /** A preflush separates what came before the submission from the request's own data: a whole
   * device flush was issued after the request arrived and completed before its data was issued. */
  lemma PreflushPrecedesData(s: Fq, e: Ended)
    requires Reachable(s) && e in s.ended && !e.error && e.rq.policy.pre && e.rq.policy.data
    ensures exists f, w :: f in s.device && w in e.rq.log && w.step == Data
                           && e.rq.log[0].joined < f.issued < f.finished < w.issued
  {
    Durability(s, e);
    var p, w := e.rq.log[0], e.rq.log[1];
    assert Served(p, s.device) && Served(w, s.device);
    assert w in e.rq.log && FlushCommand(p.issued, p.finished) in s.device;
  }

  // ---------- progress ----------

  predicate Unfinished(s: Fq) {
    s.q0 != [] || s.q1 != [] || s.dataInFlight != []
  }

  /** While any sequenced request is unfinished, a flush or a data step is in flight. */
  lemma NeverStuck(s: Fq)
    requires Reachable(s) && Unfinished(s)
    ensures s.flushInFlight || s.dataInFlight != []
  {
    ReachableHolds(s);
  }

  predicate IsCompletion(e: Event) {
    e.DataDone? || (e.FlushDone? && e.lastRef)
  }

  /** Every completion strictly lowers the number of steps still to do. */
  lemma CompletionLowersWork(s: Fq, e: Event)
    requires Inv(s) && Enabled(s, e) && IsCompletion(e)
    ensures Work(Apply(s, e)) < Work(s)
  {
    match e
    case DataDone(k, error, env) => DataEndKeeps(s, k, error, env);
    case FlushDone(error, lastRef, env) => FlushEndKeeps(s, error, lastRef, env);
  }

  /** Without new submissions only finitely many completions can happen. */
  lemma {:induction false} CompletionsBounded(s: Fq, es: seq<Event>)
    requires Inv(s) && Run(s, es).Some?
    requires forall i | 0 <= i < |es| :: IsCompletion(es[i])
    ensures |es| + Work(Run(s, es).value) <= Work(s)
    decreases |es|
  {
    hide Inv, Work, Apply;
    if es != [] {
      CompletionLowersWork(s, es[0]);
      ApplyKeeps(s, es[0]);
      CompletionsBounded(Apply(s, es[0]), es[1..]);
    }
  }

  /** When no completion can come any more, every request ever submitted has ended, or left for
   * normal execution. So a run without new submissions ends every request. */
  lemma QuietMeansDone(es: seq<Event>, s: Fq, id: nat)
    requires AllSensible(es) && Run(INITIAL, es) == Some(s)
    requires forall e :: IsCompletion(e) ==> !Enabled(s, e)
    ensures !Unfinished(s)
    ensures CountEnded(s.ended, id) + CountIds(s.bypassed, id) == Submissions(es, id)
  {
    var env := Env(false, 0, 0);
    assert IsCompletion(DataDone(0, false, env)) && IsCompletion(FlushDone(false, true, env));
    assert !Enabled(s, DataDone(0, false, env)) && !Enabled(s, FlushDone(false, true, env));
    InitialHolds();
    RunKeeps(INITIAL, es);
    ExactlyOnePlace(es, s, id);
  }
}
