/** Which completions end requests with an error. */
module FlushErrors {
  import opened Options
  import opened FlushModel
  import opened FlushProofs

  // ---------- one step ----------

  /** The error with which a step ends requests, if it ends any. */
  predicate Cause(s: Fq, e: Event) {
    match e
    case Submit(_, _, _) => false
    case DataDone(_, error, _) => error
    case FlushDone(error, _, _) => error || s.rqStatus
  }

  /** `t` has the ended requests of `s` and then only such that ended with `error`, the same stored status
   * and the same successful flushes. */
  ghost predicate EndsWith(s: Fq, t: Fq, error: bool) {
    && |s.ended| <= |t.ended| && t.ended[..|s.ended|] == s.ended && t.rqStatus == s.rqStatus && t.device == s.device
    && forall i | |s.ended| <= i < |t.ended| :: t.ended[i].error == error
  }

  lemma EndsWithTwice(s: Fq, t: Fq, u: Fq, error: bool)
    requires EndsWith(s, t, error) && EndsWith(t, u, error)
    ensures EndsWith(s, u, error)
  {
    assert u.ended[..|s.ended|] == t.ended[..|s.ended|];
    forall i | |s.ended| <= i < |u.ended| ensures u.ended[i].error == error {
      assert i < |t.ended| ==> u.ended[i] == t.ended[i];
    }
  }

  lemma CompleteEnds(s: Fq, rq: Request, steps: Mask, error: bool, env: Env)
    ensures EndsWith(s, CompleteSeq(s, rq, steps, error, env), error)
  {
    var p := Place(s.(bug := s.bug || rq.done.Meets(steps)), rq.(done := rq.done.Union(steps)), error, env);
    assert EndsWith(s, p, error);
    var k := Kick(p, env);
    assert k.ended == p.ended && k.rqStatus == p.rqStatus && k.device == p.device;
  }

  lemma DrainOneEnds(s: Fq, idx: nat, issued: nat, finished: nat, error: bool, env: Env)
    requires s.Queue(idx) != []
    ensures EndsWith(s, DrainOne(s, idx, issued, finished, error, env), error)
  {
    var rq := s.Queue(idx)[0];
    var rest := s.WithQueue(idx, s.Queue(idx)[1..]);
    hide CompleteSeq;
    match CurrentStep(rq.done)
    case Some(step) =>
      CompleteEnds(rest.(bug := rest.bug || step == Data), Log(rq, step, issued, finished), Only(step), error, env);
    case None =>
  }

  lemma {:induction false} DrainEnds(s: Fq, idx: nat, fuel: nat, issued: nat, finished: nat, error: bool, env: Env)
    ensures EndsWith(s, Drain(s, idx, fuel, issued, finished, error, env), error)
    decreases fuel
  {
    hide DrainOne, EndsWith;
    if fuel == 0 || s.Queue(idx) == [] {
      EndsWithSelf(s, error);
    } else {
      DrainOneEnds(s, idx, issued, finished, error, env);
      var next := DrainOne(s, idx, issued, finished, error, env);
      DrainEnds(next, idx, fuel - 1, issued, finished, error, env);
      EndsWithTwice(s, next, Drain(next, idx, fuel - 1, issued, finished, error, env), error);
    }
  }

  lemma EndsWithSelf(s: Fq, error: bool)
    ensures EndsWith(s, s, error)
  {
  }

  /** A step ends requests with an error exactly as its cause says; only the early completion of a flush
   * changes the stored status. */
  lemma StepEnds(s: Fq, e: Event)
    requires Enabled(s, e)
    ensures var t := Apply(s, e);
            && s.ended <= t.ended && (forall i | |s.ended| <= i < |t.ended| :: t.ended[i].error == Cause(s, e))
            && t.rqStatus == StatusAfter(s.rqStatus, [e])
            && t.device == s.device + if e.FlushDone? && e.lastRef && !Cause(s, e)
                                      then [FlushCommand(s.issuedAt, s.clock)] else []
  {
    hide CompleteSeq, Drain;
    match e
    case Submit(id, sub, env) =>
      CompleteEnds(s, Request(id, Policy(sub), NO_STEPS, 0, []), Policy(sub).Complement(), false, env);
    case DataDone(k, error, env) =>
      var rq := s.dataInFlight[k];
      CompleteEnds(s.(dataInFlight := s.dataInFlight[..k] + s.dataInFlight[k + 1..], clock := s.clock + 1),
                   Log(rq, Data, rq.joined, s.clock), Only(Data), error, env);
    case FlushDone(error, lastRef, env) =>
      if lastRef {
        var failed, running := error || s.rqStatus, s.runningIdx;
        DrainEnds(Completed(s, failed), running, 2 * |s.Queue(running)|, s.issuedAt, s.clock, failed, env);
      }
  }

  // ---------- the stored status ----------

  /** The status stored after `es`: what the last completion reported that did not drop the last reference
   * to the flush request. A completed flush does not clear it. */
  function StatusAfter(status: bool, es: seq<Event>): bool
    decreases |es|
  {
    if es == [] then status
    else
      StatusAfter(if es[0].FlushDone? && !es[0].lastRef then es[0].error else status, es[1..])
  }

  lemma {:induction false} RunStatus(s: Fq, es: seq<Event>)
    requires Run(s, es).Some?
    ensures Run(s, es).value.rqStatus == StatusAfter(s.rqStatus, es)
    decreases |es|
  {
    hide Apply, Enabled;
    if es != [] {
      StepEnds(s, es[0]);
      RunStatus(Apply(s, es[0]), es[1..]);
      assert [es[0]][1..] == [];
    }
  }

  // ---------- when an error is not the request's own ----------

  /** The status of the early completions of the flush in flight alone. */
  function OwnStatus(status: bool, es: seq<Event>): bool
    decreases |es|
  {
    if es == [] then status
    else
      OwnStatus(if !es[0].FlushDone? then status else if es[0].lastRef then false else es[0].error, es[1..])
  }

  /** Some completion of the flush in flight did not drop the last reference. */
  predicate HadEarly(had: bool, es: seq<Event>)
    decreases |es|
  {
    if es == [] then had
    else HadEarly(if !es[0].FlushDone? then had else !es[0].lastRef, es[1..])
  }

  /** The stored status is the flush's own if it had an early completion; otherwise it is a left-over. */
  lemma {:induction false} StatusIsOwn(status: bool, own: bool, had: bool, es: seq<Event>)
    requires had ==> status == own
    requires !had ==> !own
    ensures HadEarly(had, es) ==> StatusAfter(status, es) == OwnStatus(own, es)
    ensures !HadEarly(had, es) ==> !OwnStatus(own, es)
    decreases |es|
  {
    if es != [] {
      var e := es[0];
      if e.FlushDone? {
        StatusIsOwn(if e.lastRef then status else e.error, if e.lastRef then false else e.error, !e.lastRef, es[1..]);
      } else {
        StatusIsOwn(status, own, had, es[1..]);
      }
    }
  }

  /** A flush completion ends the waiting requests with an error although no completion of that flush
   * reported one, if and only if the flush had no early completion and an earlier flush left an error
   * behind. */
  lemma ForeignErrorIff(es: seq<Event>, s: Fq, error: bool, env: Env)
    requires Run(INITIAL, es) == Some(s) && s.flushInFlight
    ensures Cause(s, FlushDone(error, true, env)) && !error && !OwnStatus(false, es)
            <==> !error && !HadEarly(false, es) && StatusAfter(false, es)
  {
    RunStatus(INITIAL, es);
    StatusIsOwn(false, false, false, es);
  }

  // ---------- success means that nothing failed ----------

  /** The only holder of a second reference to the flush request, the timeout handler, reports no error. So
   * once the device has reported one early, the next completion of that flush is its last. */
  predicate Orderly(failed: bool, es: seq<Event>)
    decreases |es|
  {
    es == [] ||
    (if !es[0].FlushDone? then Orderly(failed, es[1..])
     else if es[0].lastRef then Orderly(false, es[1..])
     else !failed && Orderly(es[0].error, es[1..]))
  }

  /** Some early completion of the flush in flight reported an error. */
  predicate AnyError(had: bool, es: seq<Event>)
    decreases |es|
  {
    if es == [] then had
    else AnyError(if !es[0].FlushDone? then had else !es[0].lastRef && (had || es[0].error), es[1..])
  }

  lemma {:induction false} ErrorIsStored(had: bool, status: bool, es: seq<Event>)
    requires Orderly(had, es) && (had ==> status)
    ensures AnyError(had, es) ==> StatusAfter(status, es)
    decreases |es|
  {
    if es != [] {
      var e := es[0];
      if e.FlushDone? {
        ErrorIsStored(!e.lastRef && e.error, if e.lastRef then status else e.error, es[1..]);
      } else {
        ErrorIsStored(had, status, es[1..]);
      }
    }
  }

  /** A flush whose completions include an error fails the requests it serves. */
  lemma ErrorFailsFlush(es: seq<Event>, s: Fq, error: bool, env: Env)
    requires Run(INITIAL, es) == Some(s) && Orderly(false, es) && (error || AnyError(false, es))
    ensures Cause(s, FlushDone(error, true, env))
  {
    RunStatus(INITIAL, es);
    ErrorIsStored(false, false, es);
  }

  /** In the run, `c` was a flush none of whose completions reported an error. */
  ghost predicate Clean(es: seq<Event>, c: FlushCommand) {
    exists n :: 0 <= n < |es| && CleanAt(es, n, c)
  }

  ghost predicate CleanAt(es: seq<Event>, n: nat, c: FlushCommand)
    requires n < |es|
  {
    && es[n].FlushDone? && es[n].lastRef && !es[n].error && !AnyError(false, es[..n])
    && Run(INITIAL, es[..n]).Some?
    && var s := Run(INITIAL, es[..n]).value; s.flushInFlight && s.issuedAt == c.issued && s.clock == c.finished
  }

  lemma {:induction false} RunLast(s: Fq, es: seq<Event>, e: Event)
    requires Run(s, es + [e]).Some?
    ensures Run(s, es).Some? && Enabled(Run(s, es).value, e) && Run(s, es + [e]).value == Apply(Run(s, es).value, e)
    decreases |es|
  {
    hide Apply, Enabled;
    if es == [] {
      assert es + [e] == [e] && [e][1..] == [];
    } else {
      assert (es + [e])[1..] == es[1..] + [e];
      RunLast(Apply(s, es[0]), es[1..], e);
    }
  }

  lemma {:induction false} OrderlyPrefix(failed: bool, es: seq<Event>, e: Event)
    requires Orderly(failed, es + [e])
    ensures Orderly(failed, es)
    decreases |es|
  {
    if es != [] {
      var x := es[0];
      assert (es + [e])[1..] == es[1..] + [e];
      OrderlyPrefix(if !x.FlushDone? then failed else !x.lastRef && x.error, es[1..], e);
    }
  }

  lemma CleanGrows(es: seq<Event>, e: Event, c: FlushCommand)
    requires Clean(es, c)
    ensures Clean(es + [e], c)
  {
    var n :| 0 <= n < |es| && CleanAt(es, n, c);
    assert (es + [e])[..n] == es[..n];
    assert CleanAt(es + [e], n, c);
  }

  /** Every flush that the code takes for successful is clean. */
  lemma {:induction false} DeviceClean(es: seq<Event>, s: Fq, c: FlushCommand)
    requires Run(INITIAL, es) == Some(s) && Orderly(false, es) && c in s.device
    ensures Clean(es, c)
    decreases |es|
  {
    if es != [] {
      var init, e := es[..|es| - 1], es[|es| - 1];
      assert es == init + [e];
      RunLast(INITIAL, init, e);
      OrderlyPrefix(false, init, e);
      var t := Run(INITIAL, init).value;
      StepEnds(t, e);
      hide Run, Apply, Orderly, AnyError;
      if c in t.device {
        DeviceClean(init, t, c);
        CleanGrows(init, e, c);
      } else {
        CleanStep(init, e, t, c);
      }
    }
  }

  lemma CleanStep(init: seq<Event>, e: Event, t: Fq, c: FlushCommand)
    requires Run(INITIAL, init) == Some(t) && Enabled(t, e) && Orderly(false, init)
    requires e.FlushDone? && e.lastRef && !Cause(t, e) && c == FlushCommand(t.issuedAt, t.clock)
    ensures Clean(init + [e], c)
  {
    if e.error || AnyError(false, init) {
      ErrorFailsFlush(init, t, e.error, e.env);
    }
    var es := init + [e];
    assert es[..|init|] == init;
    assert CleanAt(es, |init|, c);
  }

  /** A request that ends without an error had each of its flush steps served by a flush none of whose
   * completions reported an error. */
  lemma SuccessIsClean(es: seq<Event>, s: Fq, ended: Ended, i: nat)
    requires AllSensible(es) && Orderly(false, es) && Run(INITIAL, es) == Some(s)
    requires ended in s.ended && !ended.error && i < |ended.rq.log| && ended.rq.log[i].step != Data
    ensures Clean(es, FlushCommand(ended.rq.log[i].issued, ended.rq.log[i].finished))
  {
    assert Reachable(s);
    Durability(s, ended);
    var r := ended.rq.log[i];
    hide Run, Orderly, Clean;
    assert FlushProofs.Served(r, s.device);
    DeviceClean(es, s, FlushCommand(r.issued, r.finished));
  }

  // ---------- runs in which it happens ----------

  predicate Quiet(s: Fq) {
    s.q0 == [] && s.q1 == [] && s.pendingIdx == s.runningIdx < 2 && !s.flushInFlight && s.dataInFlight == [] && !s.bug
  }

  /** The submission needs one flush and carries no data. */
  predicate OneFlush(sub: Submission) {
    Policy(sub) == Mask(true, false, false)
  }

  function Waiting(id: nat, joined: nat): Request {
    Request(id, Mask(true, false, false), Mask(false, true, true), joined, [])
  }

  function Failed(id: nat, joined: nat, issued: nat, finished: nat): Ended {
    Ended(Request(id, Mask(true, false, false), Mask(true, true, true), joined,
                  [Record(PreFlush, joined, issued, finished)]), true)
  }

  lemma SubmitStarts(s: Fq, id: nat, sub: Submission, env: Env)
    requires Quiet(s) && OneFlush(sub)
    ensures Insert(s, id, sub, env) ==
            s.WithQueue(s.pendingIdx, [Waiting(id, s.clock)])
             .(pendingSince := env.jiffies, pendingIdx := Toggle(s.pendingIdx), flushInFlight := true,
               issuedAt := s.clock + 1, clock := s.clock + 2)
  {
    assert [] + [Waiting(id, s.clock)] == [Waiting(id, s.clock)];
  }

  /** One flush that ends with the stored error. */
  lemma FlushFails(s: Fq, id: nat, joined: nat, env: Env)
    requires s.runningIdx < 2 && s.pendingIdx == Toggle(s.runningIdx) && s.flushInFlight && s.rqStatus && !s.bug
    requires s.Queue(s.runningIdx) == [Waiting(id, joined)] && s.Queue(s.pendingIdx) == [] && s.dataInFlight == []
    ensures FlushEnd(s, false, true, env) ==
            s.WithQueue(s.runningIdx, [])
             .(runningIdx := s.pendingIdx, flushInFlight := false, clock := s.clock + 2,
               ended := s.ended + [Failed(id, joined, s.issuedAt, s.clock)])
  {
    var s1 := s.(runningIdx := s.pendingIdx, flushInFlight := false, clock := s.clock + 1);
    var idx := s.runningIdx;
    assert [Waiting(id, joined)][1..] == [];
    var rq := Log(Waiting(id, joined), PreFlush, s.issuedAt, s.clock);
    assert rq.log == [Record(PreFlush, joined, s.issuedAt, s.clock)];
    assert DrainOne(s1, idx, s.issuedAt, s.clock, true, env) ==
           CompleteSeq(s1.WithQueue(idx, []), rq, Only(PreFlush), true, env);
  }

  /** Submission and failing flush of one request, with an error stored before the flush completes. */
  lemma FailingRound(s: Fq, id: nat, sub: Submission, env: Env)
    requires Quiet(s) && OneFlush(sub)
    ensures var t := Insert(s, id, sub, env);
            var u := FlushEnd(t.(rqStatus := true), false, true, env);
            && t.flushInFlight && t.rqStatus == s.rqStatus
            && Quiet(u) && u.rqStatus && u.bypassed == s.bypassed && u.clock == s.clock + 4
            && u.ended == s.ended + [Failed(id, s.clock, s.clock + 1, s.clock + 2)]
  {
    SubmitStarts(s, id, sub, env);
    var t := Insert(s, id, sub, env);
    hide Insert, FlushEnd;
    FlushFails(t.(rqStatus := true), id, s.clock, env);
  }

  lemma RunCons(s: Fq, e: Event, es: seq<Event>)
    requires Enabled(s, e)
    ensures Run(s, [e] + es) == Run(Apply(s, e), es)
  {
    assert ([e] + es)[1..] == es;
  }

  /** Two requests one after the other; the flush of the first reports an error before it completes, the
   * flush of the second reports none. */
  function TwoRounds(a: nat, b: nat, sub: Submission, env: Env): seq<Event> {
    [Submit(a, sub, env)] + ([FlushDone(true, false, env)] + ([FlushDone(false, true, env)] +
    ([Submit(b, sub, env)] + ([FlushDone(false, true, env)] + []))))
  }

  lemma FiveSteps(s: Fq, t1: Fq, s1: Fq, t2: Fq, a: nat, b: nat, sub: Submission, env: Env)
    requires Places(s, a) == 0 && Insert(s, a, sub, env) == t1
    requires t1.flushInFlight && FlushEnd(t1, true, false, env) == t1.(rqStatus := true)
    requires FlushEnd(t1.(rqStatus := true), false, true, env) == s1
    requires Places(s1, b) == 0 && Insert(s1, b, sub, env) == t2 && t2.flushInFlight
    ensures Run(s, TwoRounds(a, b, sub, env)) == Some(FlushEnd(t2, false, true, env))
  {
    hide Insert, FlushEnd, Places;
    var full, second := FlushDone(false, true, env), Submit(b, sub, env);
    var rest := [second] + ([full] + []);
    RunCons(t2, full, []);
    RunCons(s1, second, [full] + []);
    RunCons(t1.(rqStatus := true), full, rest);
    RunCons(t1, FlushDone(true, false, env), [full] + rest);
    RunCons(s, Submit(a, sub, env), [FlushDone(true, false, env)] + ([full] + rest));
  }

  /** From every quiet state: the second request ends with an error although no completion of its flush
   * reported one. */
  lemma LeftOverErrorFails(s: Fq, a: nat, b: nat, sub: Submission, env: Env)
    requires Quiet(s) && OneFlush(sub) && a != b && Places(s, a) == 0 && Places(s, b) == 0
    ensures Run(s, TwoRounds(a, b, sub, env)).Some?
    ensures Run(s, TwoRounds(a, b, sub, env)).value.ended ==
            s.ended + [Failed(a, s.clock, s.clock + 1, s.clock + 2)] +
            [Failed(b, s.clock + 4, s.clock + 5, s.clock + 6)]
  {
    FailingRound(s, a, sub, env);
    var t1 := Insert(s, a, sub, env);
    EarlyStores(t1, env);
    var s1 := FlushEnd(t1.(rqStatus := true), false, true, env);
    hide Insert, FlushEnd;
    CountEndedAppend(s.ended, Failed(a, s.clock, s.clock + 1, s.clock + 2), b);
    assert Places(s1, b) == 0;
    FailingRound(s1, b, sub, env);
    var t2 := Insert(s1, b, sub, env);
    assert t2 == t2.(rqStatus := true);
    FiveSteps(s, t1, s1, t2, a, b, sub, env);
  }

  lemma EarlyStores(s: Fq, env: Env)
    ensures FlushEnd(s, true, false, env) == s.(rqStatus := true)
  {
  }
}
