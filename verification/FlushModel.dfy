/** The PREFLUSH/FUA sequencer: requests, the double-buffered flush queue and its atomic steps.
 *
 * Every step runs under the flush queue's lock, so a step is one function from state to state. The
 * class `FlushQueue` in FlushQueue.dfy performs the same steps on fields; here they are values, so
 * that whole runs can be reasoned about.
 */
module FlushModel {
  import opened Options

  datatype Step = PreFlush | Data | PostFlush

  /** A subset of the three actions of a flush sequence. */
  datatype Mask = Mask(pre: bool, data: bool, post: bool) {
    predicate Has(step: Step) {
      match step
      case PreFlush => pre
      case Data => data
      case PostFlush => post
    }

    function Union(other: Mask): Mask {
      Mask(pre || other.pre, data || other.data, post || other.post)
    }

    predicate Meets(other: Mask) {
      (pre && other.pre) || (data && other.data) || (post && other.post)
    }

    function Complement(): Mask {
      Mask(!pre, !data, !post)
    }
  }

  const NO_STEPS := Mask(false, false, false)

  function Only(step: Step): Mask {
    Mask(step == PreFlush, step == Data, step == PostFlush)
  }

  /** The lowest action not yet marked done; `None` stands for the DONE marker. */
  function CurrentStep(done: Mask): Option<Step> {
    if !done.pre then Some(PreFlush)
    else if !done.data then Some(Data)
    else if !done.post then Some(PostFlush)
    else None
  }

  /** What a submitted request asks for, and what the queue's device advertises at that moment. */
  datatype Submission = Submission(
    hasData: bool, preflush: bool, fua: bool,   // request
    writeCache: bool, deviceFua: bool)          // queue flags

  function Policy(sub: Submission): Mask {
    Mask(sub.writeCache && sub.preflush,
         sub.hasData,
         sub.writeCache && !sub.deviceFua && sub.fua)
  }

  /** The steps of a policy in execution order. */
  function PolicySteps(policy: Mask): seq<Step> {
    (if policy.pre then [PreFlush] else []) +
    (if policy.data then [Data] else []) +
    (if policy.post then [PostFlush] else [])
  }

  /** History of one completed step: when the request queued for it, when the device command that
   * serves it was issued and when that command finished. */
  datatype Record = Record(step: Step, joined: nat, issued: nat, finished: nat)

  datatype Request = Request(id: nat, policy: Mask, done: Mask, joined: nat, log: seq<Record>)

  datatype Ended = Ended(rq: Request, error: bool)

  /** A device cache flush that the completion code took for successful. */
  datatype FlushCommand = FlushCommand(issued: nat, finished: nat)

  /** State of one flush queue.
   * `clock` is a history variable that ticks at every queueing, issue and completion; `bug` records
   * that one of the kernel's BUG checks was reached, or that the single flush request was issued
   * again while the device still owned it. */
  datatype Fq = Fq(
    q0: seq<Request>, q1: seq<Request>,
    pendingIdx: nat, runningIdx: nat,
    dataInFlight: seq<Request>,
    pendingSince: nat,
    flushInFlight: bool,
    rqStatus: bool,
    issuedAt: nat,
    clock: nat,
    device: seq<FlushCommand>,
    ended: seq<Ended>,
    bypassed: seq<nat>,
    bug: bool) {

    function Queue(i: nat): seq<Request> {
      if i == 0 then q0 else q1
    }

    function WithQueue(i: nat, q: seq<Request>): Fq {
      if i == 0 then this.(q0 := q) else this.(q1 := q)
    }
  }

  const INITIAL := Fq([], [], 0, 0, [], 0, false, false, 0, 0, [], [], [], false)

  /** Inputs a step reads from outside the flush queue. */
  datatype Env = Env(elevator: bool, jiffies: nat, hz: nat)

  function Toggle(i: nat): nat {
    if i == 0 then 1 else 0
  }

  /** Consider issuing the flush (conditions C1, C2 and C3 of the source). */
  function Kick(s: Fq, env: Env): Fq {
    if s.pendingIdx != s.runningIdx || s.Queue(s.pendingIdx) == [] then s
    else if s.dataInFlight != [] && env.elevator && env.jiffies < s.pendingSince + 5 * env.hz then s
    else s.(pendingIdx := Toggle(s.pendingIdx),
            bug := s.bug || s.flushInFlight,
            flushInFlight := true,
            issuedAt := s.clock,
            clock := s.clock + 1)
  }

  /** Put `rq`, already taken off its list and marked, where its next step says. */
  function Place(s: Fq, rq: Request, error: bool, env: Env): Fq {
    var waiting := rq.(joined := s.clock);
    var next: Option<Step> := if error then None else CurrentStep(rq.done);
    match next
    case Some(Data) =>
      s.(dataInFlight := s.dataInFlight + [waiting], clock := s.clock + 1)
    case Some(_) =>
      var pending := s.Queue(s.pendingIdx);
      s.WithQueue(s.pendingIdx, pending + [waiting])
       .(pendingSince := if pending == [] then env.jiffies else s.pendingSince, clock := s.clock + 1)
    case None =>
      s.(ended := s.ended + [Ended(rq, error)], clock := s.clock + 1)
  }

  /** Record completion of `steps` and trigger the next step. */
  function CompleteSeq(s: Fq, rq: Request, steps: Mask, error: bool, env: Env): Fq {
    Kick(Place(s.(bug := s.bug || rq.done.Meets(steps)), rq.(done := rq.done.Union(steps)), error, env), env)
  }

  /** Push the head of queue `idx` to its next stage. */
  function DrainOne(s: Fq, idx: nat, issued: nat, finished: nat, error: bool, env: Env): Fq
    requires s.Queue(idx) != []
  {
    var rq := s.Queue(idx)[0];
    var rest := s.WithQueue(idx, s.Queue(idx)[1..]);
    match CurrentStep(rq.done)
    case Some(step) =>
      CompleteSeq(rest.(bug := rest.bug || step == Data), Log(rq, step, issued, finished), Only(step), error, env)
    case None => rest.(bug := true)
  }

  /** Push the requests waiting on queue `idx` to their next stage, head first. The walk remembers
   * the next request before it handles one, so it stops after a request that was alone on the queue,
   * even if that request came back to it. `fuel` bounds the walk; no request is met three times. */
  function Drain(s: Fq, idx: nat, fuel: nat, issued: nat, finished: nat, error: bool, env: Env): Fq
    decreases fuel
  {
    if fuel == 0 || s.Queue(idx) == [] then s
    else
      var next := DrainOne(s, idx, issued, finished, error, env);
      if |s.Queue(idx)| == 1 then next
      else Drain(next, idx, fuel - 1, issued, finished, error, env)
  }

  function Log(rq: Request, step: Step, issued: nat, finished: nat): Request {
    rq.(log := rq.log + [Record(step, rq.joined, issued, finished)])
  }

  /** The flush in flight is over, and the other queue is the running one. */
  function Completed(s: Fq, failed: bool): Fq {
    s.(
      bug := s.bug || s.pendingIdx == s.runningIdx,
      runningIdx := Toggle(s.runningIdx),
      flushInFlight := false,
      device := if failed then s.device else s.device + [FlushCommand(s.issuedAt, s.clock)],
      clock := s.clock + 1)
  }

  /** The flush request completed. Only the call that drops the last reference finishes it. */
  function FlushEnd(s: Fq, error: bool, lastRef: bool, env: Env): Fq {
    if !lastRef then s.(rqStatus := error)
    else
      var failed := error || s.rqStatus;
      var running := s.runningIdx;
      Drain(Completed(s, failed), running, 2 * |s.Queue(running)|, s.issuedAt, s.clock, failed, env)
  }

  /** The DATA step of the `k`-th request on the data list completed. */
  function DataEnd(s: Fq, k: nat, error: bool, env: Env): Fq
    requires k < |s.dataInFlight|
  {
    var rq := s.dataInFlight[k];
    CompleteSeq(s.(dataInFlight := s.dataInFlight[..k] + s.dataInFlight[k + 1..], clock := s.clock + 1),
                Log(rq, Data, rq.joined, s.clock), Only(Data), error, env)
  }

  /** A new request. */
  function Insert(s: Fq, id: nat, sub: Submission, env: Env): Fq {
    var policy := Policy(sub);
    var rq := Request(id, policy, NO_STEPS, 0, []);
    if policy == NO_STEPS then s.(ended := s.ended + [Ended(rq, false)])
    else if policy == Only(Data) then s.(bypassed := s.bypassed + [id])
    else CompleteSeq(s, rq, policy.Complement(), false, env)
  }

  // ---------- runs ----------

  datatype Event =
    | Submit(id: nat, sub: Submission, env: Env)
    | DataDone(k: nat, error: bool, env: Env)
    | FlushDone(error: bool, lastRef: bool, env: Env)

  function Count(rs: seq<Request>, id: nat): nat {
    if rs == [] then 0 else (if rs[0].id == id then 1 else 0) + Count(rs[1..], id)
  }

  function CountEnded(es: seq<Ended>, id: nat): nat {
    if es == [] then 0 else (if es[0].rq.id == id then 1 else 0) + CountEnded(es[1..], id)
  }

  function CountIds(ids: seq<nat>, id: nat): nat {
    if ids == [] then 0 else (if ids[0] == id then 1 else 0) + CountIds(ids[1..], id)
  }

  /** In how many places request `id` is, counting repetitions. */
  function Places(s: Fq, id: nat): nat {
    Count(s.q0, id) + Count(s.q1, id) + Count(s.dataInFlight, id) +
    CountEnded(s.ended, id) + CountIds(s.bypassed, id)
  }

  predicate Enabled(s: Fq, e: Event) {
    match e
    case Submit(id, sub, _) => Places(s, id) == 0
    case DataDone(k, _, _) => k < |s.dataInFlight|
    case FlushDone(_, _, _) => s.flushInFlight
  }

  function Apply(s: Fq, e: Event): Fq
    requires Enabled(s, e)
  {
    match e
    case Submit(id, sub, env) => Insert(s, id, sub, env)
    case DataDone(k, error, env) => DataEnd(s, k, error, env)
    case FlushDone(error, lastRef, env) => FlushEnd(s, error, lastRef, env)
  }

  /** `Run(s, es)` is the state after the events, if every one of them is enabled when it comes. */
  function Run(s: Fq, es: seq<Event>): Option<Fq>
    decreases |es|
  {
    if es == [] then Some(s)
    else if Enabled(s, es[0]) then Run(Apply(s, es[0]), es[1..])
    else None
  }
}
