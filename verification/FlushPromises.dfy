/** What a submission asks for, in terms of its own flags and those of the queue, and what every run does
 * for it. */
module FlushPromises {
  import opened Options
  import opened FlushModel
  import opened FlushProofs

  // ---------- what is asked for ----------

  /** Cached writes have to reach the medium before the request's data is written. */
  predicate WantsBefore(sub: Submission) {
    sub.preflush && sub.writeCache
  }

  /** The request's own data has to reach the medium, and the device cannot write it through. */
  predicate WantsAfter(sub: Submission) {
    sub.fua && sub.writeCache && !sub.deviceFua
  }

  /** No submission of the run asks for a flush on both sides of no data. */
  predicate SensibleRun(es: seq<Event>) {
    forall i | 0 <= i < |es| && es[i].Submit? ::
      WantsBefore(es[i].sub) && WantsAfter(es[i].sub) ==> es[i].sub.hasData
  }

  /** The event at `t` submits `id`, and the whole run leads to `s`. */
  ghost predicate Submitted(es: seq<Event>, s: Fq, t: nat, id: nat, sub: Submission) {
    && SensibleRun(es) && Run(INITIAL, es) == Some(s)
    && t < |es| && es[t].Submit? && es[t].id == id && es[t].sub == sub
  }

  // ---------- what the queue knows about one request ----------

  ghost predicate LogSince(log: seq<Record>, t0: nat) {
    forall i | 0 <= i < |log| :: t0 <= log[i].joined
  }

  ghost predicate Carries(rq: Request, id: nat, policy: Mask, t0: nat) {
    rq.id == id ==> rq.policy == policy && LogSince(rq.log, t0)
  }

  ghost predicate AllCarry(rs: seq<Request>, id: nat, policy: Mask, t0: nat) {
    forall i | 0 <= i < |rs| :: Carries(rs[i], id, policy, t0) && (rs[i].id == id ==> t0 <= rs[i].joined)
  }

  /** Wherever request `id` is, it has this policy and has joined nothing before `t0`. */
  ghost predicate Knows(s: Fq, id: nat, policy: Mask, t0: nat) {
    && t0 <= s.clock
    && AllCarry(s.q0, id, policy, t0) && AllCarry(s.q1, id, policy, t0) && AllCarry(s.dataInFlight, id, policy, t0)
    && (forall i | 0 <= i < |s.ended| :: Carries(s.ended[i].rq, id, policy, t0))
    && (id in s.bypassed ==> policy == Only(Data))
  }

  /** Requests that bypassed the queue, or ended, stay there. */
  ghost predicate Grows(s: Fq, t: Fq) {
    s.bypassed <= t.bypassed && s.ended <= t.ended
  }

  lemma Joins(rs: seq<Request>, rq: Request, id: nat, policy: Mask, t0: nat)
    requires AllCarry(rs, id, policy, t0) && Carries(rq, id, policy, t0) && t0 <= rq.joined
    ensures AllCarry(rs + [rq], id, policy, t0)
  {
  }

  lemma PlaceKnows(s: Fq, rq: Request, error: bool, env: Env, id: nat, policy: Mask, t0: nat)
    requires Knows(s, id, policy, t0) && Carries(rq, id, policy, t0)
    ensures var t := Place(s, rq, error, env); Knows(t, id, policy, t0) && Grows(s, t) && t.bypassed == s.bypassed
  {
    var waiting := rq.(joined := s.clock);
    assert Carries(waiting, id, policy, t0);
    hide AllCarry, Carries;
    if !error && CurrentStep(rq.done).Some? {
      Joins(if CurrentStep(rq.done).value == Data then s.dataInFlight else s.Queue(s.pendingIdx), waiting,
            id, policy, t0);
    }
  }

  lemma CompleteKnows(s: Fq, rq: Request, steps: Mask, error: bool, env: Env, id: nat, policy: Mask, t0: nat)
    requires Knows(s, id, policy, t0) && Carries(rq, id, policy, t0)
    ensures var t := CompleteSeq(s, rq, steps, error, env);
            Knows(t, id, policy, t0) && Grows(s, t) && t.bypassed == s.bypassed
  {
    hide AllCarry, Place, LogSince;
    PlaceKnows(s.(bug := s.bug || rq.done.Meets(steps)), rq.(done := rq.done.Union(steps)), error, env,
               id, policy, t0);
  }

  lemma LogKnows(rq: Request, step: Step, issued: nat, finished: nat, id: nat, policy: Mask, t0: nat)
    requires Carries(rq, id, policy, t0) && (rq.id == id ==> t0 <= rq.joined)
    ensures Carries(Log(rq, step, issued, finished), id, policy, t0)
  {
  }

  lemma DrainOneKnows(s: Fq, idx: nat, issued: nat, finished: nat, error: bool, env: Env,
                      id: nat, policy: Mask, t0: nat)
    requires Knows(s, id, policy, t0) && s.Queue(idx) != []
    ensures var t := DrainOne(s, idx, issued, finished, error, env);
            Knows(t, id, policy, t0) && Grows(s, t) && t.bypassed == s.bypassed
  {
    var rq := s.Queue(idx)[0];
    var rest := s.WithQueue(idx, s.Queue(idx)[1..]);
    assert AllCarry(s.Queue(idx), id, policy, t0);
    assert AllCarry(s.Queue(idx)[1..], id, policy, t0);
    hide CompleteSeq, Carries;
    match CurrentStep(rq.done)
    case Some(step) =>
      LogKnows(rq, step, issued, finished, id, policy, t0);
      CompleteKnows(rest.(bug := rest.bug || step == Data), Log(rq, step, issued, finished), Only(step), error, env,
                    id, policy, t0);
    case None =>
  }

  lemma {:induction false} DrainKnows(s: Fq, idx: nat, fuel: nat, issued: nat, finished: nat, error: bool, env: Env,
                                      id: nat, policy: Mask, t0: nat)
    requires Knows(s, id, policy, t0)
    ensures var t := Drain(s, idx, fuel, issued, finished, error, env);
            Knows(t, id, policy, t0) && Grows(s, t) && t.bypassed == s.bypassed
    decreases fuel
  {
    hide DrainOne, Knows;
    if fuel != 0 && s.Queue(idx) != [] {
      DrainOneKnows(s, idx, issued, finished, error, env, id, policy, t0);
      DrainKnows(DrainOne(s, idx, issued, finished, error, env), idx, fuel - 1, issued, finished, error, env,
                 id, policy, t0);
    }
  }

  lemma DataEndKnows(s: Fq, k: nat, error: bool, env: Env, id: nat, policy: Mask, t0: nat)
    requires Knows(s, id, policy, t0) && k < |s.dataInFlight|
    ensures var t := DataEnd(s, k, error, env); Knows(t, id, policy, t0) && Grows(s, t) && t.bypassed == s.bypassed
  {
    hide CompleteSeq, Carries;
    var rq := s.dataInFlight[k];
    var rest := WithoutData(s, k);
    assert AllCarry(rest.dataInFlight, id, policy, t0);
    LogKnows(rq, Data, rq.joined, s.clock, id, policy, t0);
    CompleteKnows(rest, Log(rq, Data, rq.joined, s.clock), Only(Data), error, env, id, policy, t0);
  }

  lemma InsertKnows(s: Fq, x: nat, sub: Submission, env: Env, id: nat, policy: Mask, t0: nat)
    requires Knows(s, id, policy, t0) && (x == id ==> policy == Policy(sub))
    ensures var t := Insert(s, x, sub, env); Knows(t, id, policy, t0) && Grows(s, t)
  {
    hide CompleteSeq;
    var rq := Request(x, Policy(sub), NO_STEPS, 0, []);
    CompleteKnows(s, rq, Policy(sub).Complement(), false, env, id, policy, t0);
  }

  lemma ApplyKnows(s: Fq, e: Event, id: nat, policy: Mask, t0: nat)
    requires Enabled(s, e) && Knows(s, id, policy, t0) && (e.Submit? && e.id == id ==> policy == Policy(e.sub))
    ensures Knows(Apply(s, e), id, policy, t0) && Grows(s, Apply(s, e))
  {
    hide Drain, DataEnd, Insert;
    match e
    case Submit(x, sub, env) => InsertKnows(s, x, sub, env, id, policy, t0);
    case DataDone(k, error, env) => DataEndKnows(s, k, error, env, id, policy, t0);
    case FlushDone(error, lastRef, env) =>
      if lastRef {
        var failed, running := error || s.rqStatus, s.runningIdx;
        DrainKnows(Completed(s, failed), running, 2 * |s.Queue(running)|, s.issuedAt, s.clock, failed, env,
                   id, policy, t0);
      }
  }

  /** What is sequenced or ended is not bypassed. */
  lemma CompleteBypassesNone(s: Fq, rq: Request, steps: Mask, error: bool, env: Env)
    ensures CompleteSeq(s, rq, steps, error, env).bypassed == s.bypassed
  {
  }

  // ---------- over a run ----------

  lemma SensibleIsSensible(es: seq<Event>)
    requires SensibleRun(es)
    ensures AllSensible(es)
  {
  }

  lemma ApplyPlaces(s: Fq, e: Event, id: nat)
    requires FlushProofs.Inv(s) && Enabled(s, e) && Sensible(e)
    ensures Places(Apply(s, e), id) == Places(s, id) + if e.Submit? && e.id == id then 1 else 0
  {
    hide FlushProofs.Inv;
    match e
    case Submit(x, sub, env) => InsertKeeps(s, x, sub, env);
    case DataDone(k, error, env) => DataEndKeeps(s, k, error, env);
    case FlushDone(error, lastRef, env) => FlushEndKeeps(s, error, lastRef, env);
  }

  /** A request in the queue is not submitted again, so what is known about it stays true. */
  lemma {:induction false} RunKnows(s: Fq, es: seq<Event>, id: nat, policy: Mask, t0: nat)
    requires FlushProofs.Inv(s) && AllSensible(es) && Run(s, es).Some?
    requires Knows(s, id, policy, t0) && 1 <= Places(s, id)
    ensures Knows(Run(s, es).value, id, policy, t0) && Grows(s, Run(s, es).value)
    decreases |es|
  {
    if es != [] {
      hide FlushProofs.Inv, Places, Knows, Apply;
      ApplyKnows(s, es[0], id, policy, t0);
      ApplyKeeps(s, es[0]);
      ApplyPlaces(s, es[0], id);
      RunKnows(Apply(s, es[0]), es[1..], id, policy, t0);
    }
  }

  lemma {:induction false} RunSplits(s: Fq, es: seq<Event>, t: nat)
    requires t < |es| && Run(s, es).Some?
    ensures Run(s, es[..t]).Some? && Enabled(Run(s, es[..t]).value, es[t])
    ensures Run(Apply(Run(s, es[..t]).value, es[t]), es[t + 1..]) == Run(s, es)
    decreases |es|
  {
    hide Apply, Enabled;
    if t == 0 {
      assert es[..0] == [];
    } else {
      RunSplits(Apply(s, es[0]), es[1..], t - 1);
      assert es[..t][1..] == es[1..][..t - 1] && es[1..][t..] == es[t + 1..];
    }
  }

  lemma {:induction false} Absent(rs: seq<Request>, id: nat)
    requires Count(rs, id) == 0
    ensures forall i | 0 <= i < |rs| :: rs[i].id != id
  {
    if rs != [] {
      Absent(rs[1..], id);
    }
  }

  lemma {:induction false} AbsentEnded(es: seq<Ended>, id: nat)
    requires CountEnded(es, id) == 0
    ensures forall i | 0 <= i < |es| :: es[i].rq.id != id
  {
    if es != [] {
      AbsentEnded(es[1..], id);
    }
  }

  lemma {:induction false} AbsentIds(ids: seq<nat>, id: nat)
    requires CountIds(ids, id) == 0
    ensures id !in ids
  {
    if ids != [] {
      AbsentIds(ids[1..], id);
    }
  }

  lemma NobodyKnown(s: Fq, id: nat, policy: Mask)
    requires Places(s, id) == 0
    ensures Knows(s, id, policy, s.clock)
  {
    Absent(s.q0, id);
    Absent(s.q1, id);
    Absent(s.dataInFlight, id);
    AbsentEnded(s.ended, id);
    AbsentIds(s.bypassed, id);
  }

  /** When the request came in. */
  function Arrival(es: seq<Event>, t: nat): (r: nat)
    requires t < |es| && Run(INITIAL, es).Some?
  {
    RunSplits(INITIAL, es, t);
    Run(INITIAL, es[..t]).value.clock
  }

  /** The state right after the submission. */
  function Arrived(es: seq<Event>, t: nat): Fq
    requires t < |es| && Run(INITIAL, es).Some?
  {
    RunSplits(INITIAL, es, t);
    Apply(Run(INITIAL, es[..t]).value, es[t])
  }

  /** Over every run the request keeps the policy it was submitted with. */
  lemma RequestKnown(es: seq<Event>, s: Fq, t: nat, id: nat, sub: Submission)
    requires Submitted(es, s, t, id, sub)
    ensures Knows(s, id, Policy(sub), Arrival(es, t)) && Grows(Arrived(es, t), s) && Places(s, id) == 1
  {
    SensibleIsSensible(es);
    InitialHolds();
    RunSplits(INITIAL, es, t);
    var s0 := Run(INITIAL, es[..t]).value;
    RunKeeps(INITIAL, es[..t]);
    NobodyKnown(s0, id, Policy(sub));
    ApplyKnows(s0, es[t], id, Policy(sub), s0.clock);
    InsertKeeps(s0, id, sub, es[t].env);
    var s1 := Apply(s0, es[t]);
    assert Places(s1, id) == 1;
    RunKnows(s1, es[t + 1..], id, Policy(sub), s0.clock);
    assert Grows(s1, s);
    RunConserves(s1, es[t + 1..], id);
    ExactlyOnePlace(es, s, id);
  }

  // ---------- the promises ----------

  function Steps(log: seq<Record>): (r: seq<Step>)
    ensures |r| == |log| && forall i | 0 <= i < |r| :: r[i] == log[i].step
  {
    seq(|log|, i requires 0 <= i < |log| => log[i].step)
  }

  /** A request that ended without error did exactly what its submission asked for, in this order. */
  lemma StepsAsAsked(es: seq<Event>, s: Fq, t: nat, id: nat, sub: Submission, e: Ended)
    requires Submitted(es, s, t, id, sub) && e in s.ended && e.rq.id == id && !e.error
    ensures Steps(e.rq.log) == (if WantsBefore(sub) then [PreFlush] else []) +
                               (if sub.hasData then [Data] else []) +
                               (if WantsAfter(sub) then [PostFlush] else [])
    ensures Timely(e.rq.log, s.device) && LogSince(e.rq.log, Arrival(es, t))
  {
    RequestKnown(es, s, t, id, sub);
    SensibleIsSensible(es);
    assert Reachable(s);
    Durability(s, e);
  }

  /** Exactly the data that needs no flush at all bypasses the queue. */
  lemma BypassIff(es: seq<Event>, s: Fq, t: nat, id: nat, sub: Submission)
    requires Submitted(es, s, t, id, sub)
    ensures id in s.bypassed <==> sub.hasData && !WantsBefore(sub) && !WantsAfter(sub)
  {
    RequestKnown(es, s, t, id, sub);
    RunSplits(INITIAL, es, t);
    var s1 := Arrived(es, t);
    if sub.hasData && !WantsBefore(sub) && !WantsAfter(sub) {
      assert s1.bypassed[|s1.bypassed| - 1] == id;
      assert s.bypassed[|s1.bypassed| - 1] == id;
    }
  }

  /** A write with forced unit access, on a device that has a cache and no such access: it never bypasses
   * the queue, and if it ends without error, a whole flush was issued after its data was written. */
  lemma ForcedWriteIsFlushed(es: seq<Event>, s: Fq, t: nat, id: nat, sub: Submission)
    requires Submitted(es, s, t, id, sub) && sub.hasData && sub.fua && sub.writeCache && !sub.deviceFua
    ensures id !in s.bypassed
    ensures forall e | e in s.ended && e.rq.id == id && !e.error ::
              exists w, f :: w in e.rq.log && w.step == Data && f in s.device && w.finished < f.issued < f.finished
  {
    BypassIff(es, s, t, id, sub);
    forall e | e in s.ended && e.rq.id == id && !e.error
      ensures exists w, f :: w in e.rq.log && w.step == Data && f in s.device && w.finished < f.issued < f.finished
    {
      StepsAsAsked(es, s, t, id, sub, e);
      var n := |e.rq.log|;
      assert Steps(e.rq.log)[n - 2] == Data && Steps(e.rq.log)[n - 1] == PostFlush;
      var w, p := e.rq.log[n - 2], e.rq.log[n - 1];
      assert Served(p, s.device);
      assert w in e.rq.log && FlushCommand(p.issued, p.finished) in s.device;
    }
  }

  /** A preflush on a device with a cache: a whole flush was issued after the submission, and it completed
   * before the data of the request was issued. */
  lemma PreflushSeparates(es: seq<Event>, s: Fq, t: nat, id: nat, sub: Submission)
    requires Submitted(es, s, t, id, sub) && sub.preflush && sub.writeCache
    ensures id !in s.bypassed
    ensures forall e | e in s.ended && e.rq.id == id && !e.error ::
              exists f :: f in s.device && Arrival(es, t) < f.issued < f.finished
                          && forall w | w in e.rq.log && w.step == Data :: f.finished < w.issued
  {
    BypassIff(es, s, t, id, sub);
    forall e | e in s.ended && e.rq.id == id && !e.error
      ensures exists f :: f in s.device && Arrival(es, t) < f.issued < f.finished
                          && forall w | w in e.rq.log && w.step == Data :: f.finished < w.issued
    {
      StepsAsAsked(es, s, t, id, sub, e);
      assert Steps(e.rq.log)[0] == PreFlush;
      var p := e.rq.log[0];
      assert Served(p, s.device);
      var f := FlushCommand(p.issued, p.finished);
      forall w | w in e.rq.log && w.step == Data ensures f.finished < w.issued {
        var i :| 0 <= i < |e.rq.log| && e.rq.log[i] == w;
        assert Served(e.rq.log[i], s.device);
      }
      assert f in s.device;
    }
  }

  /** Without a cache, or with nothing asked for, the request never waits for a flush: it bypasses the queue
   * if it has data, and has ended without any step if it has none. */
  lemma NothingToFlush(es: seq<Event>, s: Fq, t: nat, id: nat, sub: Submission)
    requires Submitted(es, s, t, id, sub) && (!sub.writeCache || (!sub.preflush && (!sub.fua || sub.deviceFua)))
    ensures Count(s.q0, id) == 0 && Count(s.q1, id) == 0 && Count(s.dataInFlight, id) == 0
    ensures if sub.hasData then id in s.bypassed && CountEnded(s.ended, id) == 0
            else exists e :: e in s.ended && e.rq.id == id && !e.error && e.rq.log == []
  {
    RequestKnown(es, s, t, id, sub);
    RunSplits(INITIAL, es, t);
    var s1 := Arrived(es, t);
    if sub.hasData {
      BypassIff(es, s, t, id, sub);
      if CountIds(s.bypassed, id) == 0 {
        AbsentIds(s.bypassed, id);
      }
    } else {
      var e := s1.ended[|s1.ended| - 1];
      assert e.rq.id == id && !e.error && e.rq.log == [];
      assert s.ended[|s1.ended| - 1] == e;
      if CountEnded(s.ended, id) == 0 {
        AbsentEnded(s.ended, id);
      }
    }
  }
}
