/** How long a flush is held back: only while data of sequenced requests is being written under an I/O
 * scheduler, and for less than five seconds after the first request began to wait for it. */
module FlushDeferral {
  import opened Options
  import opened FlushModel
  import opened FlushProofs
  import opened FlushPromises

  /** Requests wait for a flush that has not been issued. */
  predicate Waiting(s: Fq) {
    !s.flushInFlight && s.Queue(s.pendingIdx) != []
  }

  /** What allows to hold a flush back. */
  predicate MayWait(s: Fq, env: Env) {
    s.dataInFlight != [] && env.elevator && env.jiffies < s.pendingSince + 5 * env.hz
  }

  /** Whenever it is considered, a flush that is waited for is issued exactly if it may not be held back. */
  lemma KickDecides(s: Fq, env: Env)
    requires FlushProofs.Base(s) && Waiting(s)
    ensures var t := Kick(s, env);
            && (t.flushInFlight <==> !MayWait(s, env)) && (t.flushInFlight <==> t != s)
            && t.pendingSince == s.pendingSince && t.dataInFlight == s.dataInFlight
  {
  }

  /** From `s` to `t` within one step: an issued flush leaves the other queue pending; otherwise the pending
   * queue, unless it was empty, keeps the time since which it is waited for. */
  ghost predicate KeepsTime(s: Fq, t: Fq, env: Env) {
    if t.pendingIdx == s.pendingIdx then
      && (s.Queue(s.pendingIdx) != [] ==> t.Queue(t.pendingIdx) != [] && t.pendingSince == s.pendingSince)
      && (s.Queue(s.pendingIdx) == [] && t.Queue(t.pendingIdx) != [] ==> t.pendingSince == env.jiffies)
    else
      !s.flushInFlight && t.flushInFlight
  }

  lemma CompleteDefers(s: Fq, rq: Request, steps: Mask, error: bool, env: Env)
    requires FlushProofs.Base(s) && !rq.done.Meets(steps)
    requires Placeable(s, rq.(done := rq.done.Union(steps)), error)
    ensures var t := CompleteSeq(s, rq, steps, error, env);
            && (Waiting(t) ==> MayWait(t, env)) && KeepsTime(s, t, env)
            && (!s.flushInFlight && t.flushInFlight ==> !MayWait(t, env))
            && (LeavesFlushQueues(rq.(done := rq.done.Union(steps)), error) ==> t.pendingSince == s.pendingSince)
  {
    var marked := rq.(done := rq.done.Union(steps));
    assert s.(bug := s.bug || rq.done.Meets(steps)) == s;
    PlaceOutline(s, marked, error, env);
    PlaceKeeps(s, marked, error, env);
    hide FlushProofs.Base, Placeable;
  }

  /** Within a walk over queue `idx`: the other queue stays, and a flush is issued at most once. */
  ghost predicate WalksOn(s: Fq, t: Fq, idx: nat) {
    && t.Queue(Toggle(idx)) == s.Queue(Toggle(idx)) && t.pendingSince == s.pendingSince
    && (s.flushInFlight ==> t.flushInFlight && t.pendingIdx == s.pendingIdx)
    && (t.pendingIdx == s.pendingIdx || t.flushInFlight)
  }

  lemma DrainOneDefers(s: Fq, idx: nat, issued: nat, finished: nat, error: bool, env: Env)
    requires FlushProofs.Base(s) && Walking(s, idx, issued, finished, error) && s.Queue(idx) != []
    ensures var t := DrainOne(s, idx, issued, finished, error, env);
            (Waiting(t) ==> MayWait(t, env)) && WalksOn(s, t, idx)
  {
    DrainTake(s, idx, issued, finished, error);
    var rq := s.Queue(idx)[0];
    var step := CurrentStep(rq.done).value;
    var rest := s.WithQueue(idx, s.Queue(idx)[1..]);
    assert rest.(bug := rest.bug || step == Data) == rest;
    CompleteDefers(rest, Log(rq, step, issued, finished), Only(step), error, env);
    CompleteKeeps(rest, Log(rq, step, issued, finished), Only(step), error, env);
    hide CompleteSeq, Listed, EndedWell, Placeable;
  }

  lemma {:induction false} DrainDefers(s: Fq, idx: nat, fuel: nat, issued: nat, finished: nat, error: bool, env: Env)
    requires FlushProofs.Base(s) && Walking(s, idx, issued, finished, error) && |s.Queue(idx)| <= fuel
    ensures var t := Drain(s, idx, fuel, issued, finished, error, env);
            (s.Queue(idx) != [] && Waiting(t) ==> MayWait(t, env)) && WalksOn(s, t, idx)
    decreases fuel
  {
    hide DrainOne, MayWait, FlushProofs.Base;
    if s.Queue(idx) != [] {
      DrainOneKeeps(s, idx, issued, finished, error, env);
      DrainOneDefers(s, idx, issued, finished, error, env);
      DrainDefers(DrainOne(s, idx, issued, finished, error, env), idx, fuel - 1, issued, finished, error, env);
    }
  }

  // ---------- one event ----------

  /** The event makes the queue consider a flush. */
  predicate Considers(e: Event) {
    e.Submit? ==> WantsBefore(e.sub) || WantsAfter(e.sub)
  }

  lemma FlushEndDefers(s: Fq, error: bool, lastRef: bool, env: Env)
    requires FlushProofs.Inv(s) && s.flushInFlight
    ensures var t := FlushEnd(s, error, lastRef, env);
            && (Waiting(t) ==> MayWait(t, env))
            && (if t.pendingIdx == s.pendingIdx
                then t.Queue(t.pendingIdx) == s.Queue(s.pendingIdx) && t.pendingSince == s.pendingSince
                else t.Queue(t.pendingIdx) == [])
  {
    if lastRef {
      var failed, running := error || s.rqStatus, s.runningIdx;
      FlushEndStarts(s, failed);
      var s1 := Completed(s, failed);
      DrainDefers(s1, running, 2 * |s.Queue(running)|, s.issuedAt, s.clock, failed, env);
      DrainKeeps(s1, running, 2 * |s.Queue(running)|, s.issuedAt, s.clock, failed, env);
      hide Drain, Listed, EndedWell, MayWait;
    }
  }

  /** The time since which the pending queue is waited for: that of the step that made it fill. */
  ghost predicate TimeKept(s: Fq, t: Fq, env: Env) {
    t.Queue(t.pendingIdx) != [] ==>
      t.pendingSince ==
      if t.pendingIdx == s.pendingIdx && s.Queue(s.pendingIdx) != [] then s.pendingSince else env.jiffies
  }

  lemma SubmitDefers(s: Fq, id: nat, sub: Submission, env: Env)
    requires FlushProofs.Inv(s) && Sensible(Submit(id, sub, env))
    ensures var t := Insert(s, id, sub, env);
            (WantsBefore(sub) || WantsAfter(sub) ==> (Waiting(t) ==> MayWait(t, env))) && TimeKept(s, t, env)
  {
    hide CompleteSeq, MayWait, Live;
    if WantsBefore(sub) || WantsAfter(sub) {
      var rq := Request(id, Policy(sub), NO_STEPS, 0, []);
      CompleteKeeps(s, rq, Policy(sub).Complement(), false, env);
      CompleteDefers(s, rq, Policy(sub).Complement(), false, env);
    }
  }

  lemma DataEndDefers(s: Fq, k: nat, error: bool, env: Env)
    requires FlushProofs.Inv(s) && k < |s.dataInFlight|
    ensures var t := DataEnd(s, k, error, env);
            (Waiting(t) ==> MayWait(t, env)) && TimeKept(s, t, env)
  {
    hide CompleteSeq, MayWait, Live, Placeable;
    var rq := s.dataInFlight[k];
    DataTake(s, k, error);
    CompleteKeeps(WithoutData(s, k), Log(rq, Data, rq.joined, s.clock), Only(Data), error, env);
    CompleteDefers(WithoutData(s, k), Log(rq, Data, rq.joined, s.clock), Only(Data), error, env);
  }

  /** After an event that considers a flush, one that is waited for is held back only as long as that is
   * allowed. */
  lemma StepDefers(s: Fq, e: Event)
    requires FlushProofs.Inv(s) && Enabled(s, e) && Sensible(e)
    ensures var t := Apply(s, e);
            (Considers(e) && Waiting(t) ==> MayWait(t, e.env)) && TimeKept(s, t, e.env)
  {
    hide MayWait, FlushProofs.Inv, Insert, DataEnd, FlushEnd;
    match e
    case Submit(id, sub, env) => SubmitDefers(s, id, sub, env);
    case DataDone(k, error, env) => DataEndDefers(s, k, error, env);
    case FlushDone(error, lastRef, env) => FlushEndDefers(s, error, lastRef, env);
  }

  // ---------- over a run ----------

  predicate Clocked(es: seq<Event>) {
    forall a, b | 0 <= a < b < |es| :: es[a].env.jiffies <= es[b].env.jiffies
  }

  /** The state after the first `n` events. */
  function After(es: seq<Event>, n: nat): Fq
    requires n <= |es| && Run(INITIAL, es).Some?
  {
    if n == |es| then Run(INITIAL, es).value
    else
      RunSplits(INITIAL, es, n);
      Run(INITIAL, es[..n]).value
  }

  lemma AfterStep(es: seq<Event>, n: nat)
    requires n < |es| && Run(INITIAL, es).Some? && SensibleRun(es)
    ensures FlushProofs.Inv(After(es, n)) && Enabled(After(es, n), es[n]) && Sensible(es[n])
    ensures After(es, n + 1) == Apply(After(es, n), es[n])
  {
    SensibleIsSensible(es);
    InitialHolds();
    RunSplits(INITIAL, es, n);
    RunKeeps(INITIAL, es[..n]);
    hide Apply, Enabled, FlushProofs.Inv;
    if n + 1 < |es| {
      RunSplits(INITIAL, es, n + 1);
      RunSplits(INITIAL, es[..n + 1], n);
      assert es[..n + 1][..n] == es[..n] && es[..n + 1][n + 1..] == [];
    } else {
      assert es[n + 1..] == [];
    }
  }

  lemma {:induction false} NeverFuture(es: seq<Event>, n: nat)
    requires 0 < n <= |es| && Run(INITIAL, es).Some? && SensibleRun(es) && Clocked(es)
    ensures var t := After(es, n); t.Queue(t.pendingIdx) != [] ==> t.pendingSince <= es[n - 1].env.jiffies
    decreases n
  {
    AfterStep(es, n - 1);
    StepDefers(After(es, n - 1), es[n - 1]);
    hide After, Apply, FlushProofs.Inv, MayWait;
    if n > 1 {
      NeverFuture(es, n - 1);
    } else {
      AfterNone(es);
    }
  }

  lemma AfterNone(es: seq<Event>)
    requires Run(INITIAL, es).Some?
    ensures After(es, 0) == INITIAL
  {
    assert es[..0] == [];
  }

  /** The pending queue has been the same one, and never empty, since event `i`. */
  ghost predicate WaitedSince(es: seq<Event>, i: nat, n: nat)
    requires i < n <= |es| && Run(INITIAL, es).Some?
  {
    forall j | i < j <= n ::
      After(es, j).pendingIdx == After(es, n).pendingIdx && After(es, j).Queue(After(es, j).pendingIdx) != []
  }

  lemma {:induction false} SinceThen(es: seq<Event>, i: nat, n: nat)
    requires i < n <= |es| && Run(INITIAL, es).Some? && SensibleRun(es) && Clocked(es) && WaitedSince(es, i, n)
    ensures After(es, n).pendingSince <= es[i].env.jiffies
    decreases n
  {
    assert After(es, n).Queue(After(es, n).pendingIdx) != [];
    if n == i + 1 {
      NeverFuture(es, n);
    } else {
      assert After(es, n - 1).pendingIdx == After(es, n).pendingIdx;
      assert WaitedSince(es, i, n - 1);
      AfterStep(es, n - 1);
      StepDefers(After(es, n - 1), es[n - 1]);
      hide After, Apply, FlushProofs.Inv, MayWait;
      SinceThen(es, i, n - 1);
    }
  }

  /** Over every run: a flush that has been waited for since event `i` and is still held back after a later
   * event is so because data is being written under a scheduler, and less than five seconds have passed. */
  lemma FlushHeldBackBriefly(es: seq<Event>, s: Fq, i: nat)
    requires SensibleRun(es) && Run(INITIAL, es) == Some(s) && Clocked(es) && i < |es| && Waiting(s)
    requires Considers(es[|es| - 1]) && WaitedSince(es, i, |es|)
    ensures var env := es[|es| - 1].env;
            s.dataInFlight != [] && env.elevator && env.jiffies < es[i].env.jiffies + 5 * env.hz
  {
    hide Run, Apply, FlushProofs.Inv, WaitedSince, SensibleRun, Clocked, TimeKept;
    SinceThen(es, i, |es|);
    AfterStep(es, |es| - 1);
    StepDefers(After(es, |es| - 1), es[|es| - 1]);
  }
}
