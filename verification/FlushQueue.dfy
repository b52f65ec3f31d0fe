/** The flush queue as the kernel keeps it: lists and indices updated in place under the lock.
 * Every method is proved to perform the step of FlushModel of the same name. */
module FlushQueueObject {
  import opened Options
  import opened FlushModel
  import opened FlushProofs
  import opened FlushPromises

  /** On a walk that only shortens its queue, stopping at the last request changes nothing. */
  lemma DrainUnfolds(s: Fq, idx: nat, fuel: nat, issued: nat, finished: nat, error: bool, env: Env)
    requires s.Queue(idx) != [] && 0 < fuel
    requires DrainOne(s, idx, issued, finished, error, env).Queue(idx) == s.Queue(idx)[1..]
    ensures Drain(s, idx, fuel, issued, finished, error, env) ==
            Drain(DrainOne(s, idx, issued, finished, error, env), idx, fuel - 1, issued, finished, error, env)
  {
    hide DrainOne;
  }

  class FlushQueue {
    var q0: seq<Request>
    var q1: seq<Request>
    var pendingIdx: nat
    var runningIdx: nat
    var dataInFlight: seq<Request>
    var pendingSince: nat
    var flushInFlight: bool
    var rqStatus: bool
    var ended: seq<Ended>
    var bypassed: seq<nat>
    // history
    var issuedAt: nat
    var clock: nat
    var device: seq<FlushCommand>
    var bug: bool

    function State(): Fq
      reads this
    {
      Fq(q0, q1, pendingIdx, runningIdx, dataInFlight, pendingSince, flushInFlight, rqStatus,
         issuedAt, clock, device, ended, bypassed, bug)
    }

    constructor ()
      ensures State() == INITIAL && Inv(State())
    {
      q0, q1, dataInFlight := [], [], [];
      pendingIdx, runningIdx, pendingSince := 0, 0, 0;
      flushInFlight, rqStatus, bug := false, false, false;
      ended, bypassed, device := [], [], [];
      issuedAt, clock := 0, 0;
      new;
      InitialHolds();
    }

    method SetQueue(i: nat, q: seq<Request>)
      modifies this`q0, this`q1
      ensures State() == old(State()).WithQueue(i, q)
    {
      if i == 0 { q0 := q; } else { q1 := q; }
    }

    /** Issue a flush unless one is in flight, nothing waits, or data in flight defers it. Afterwards
     * waiting requests imply that something is in flight. */
    method KickFlush(env: Env)
      modifies this
      ensures State() == Kick(old(State()), env)
      ensures old(Base(State())) ==> Base(State()) && Moving(State())
    {
      if Base(State()) {
        KickKeeps(State(), env);
      }
      hide Base, Moving;
      if pendingIdx != runningIdx || State().Queue(pendingIdx) == [] {
        return;
      }
      if dataInFlight != [] && env.elevator && env.jiffies < pendingSince + 5 * env.hz {
        return;
      }
      pendingIdx := Toggle(pendingIdx);
      bug := bug || flushInFlight;
      flushInFlight := true;
      issuedAt := clock;
      clock := clock + 1;
    }

    /** The switch of `CompleteFlushSeq`: link `rq`, which is on no list, where its next step says. */
    method PlaceRequest(rq: Request, error: bool, env: Env)
      modifies this
      ensures State() == Place(old(State()), rq, error, env)
    {
      var waiting := rq.(joined := clock);
      clock := clock + 1;
      var step := if error then None else CurrentStep(rq.done);
      if step == None {
        ended := ended + [Ended(rq, error)];
      } else if step == Some(Data) {
        dataInFlight := dataInFlight + [waiting];
      } else {
        var pending := State().Queue(pendingIdx);
        if pending == [] {
          pendingSince := env.jiffies;
        }
        SetQueue(pendingIdx, pending + [waiting]);
      }
    }

    /** `rq`, unlinked from the list it was on, has done `steps`: it gains one place, no step is added to
     * what remains, and something is in flight if anything waits. */
    method CompleteFlushSeq(rq: Request, steps: Mask, error: bool, env: Env)
      modifies this
      ensures State() == CompleteSeq(old(State()), rq, steps, error, env)
      ensures OneMore(old(State()), State(), rq.id) && Work(State()) <= old(Work(State())) + Remaining(rq)
      ensures (old(Base(State()) && Placeable(State(), rq.(done := rq.done.Union(steps)), error)) &&
               !rq.done.Meets(steps)) ==> Base(State()) && Moving(State())
    {
      CompleteCounts(State(), rq, steps, error, env);
      if Base(State()) && Placeable(State(), rq.(done := rq.done.Union(steps)), error) && !rq.done.Meets(steps) {
        CompleteKeeps(State(), rq, steps, error, env);
      }
      hide Kick, Place, Base, Placeable, Moving, OneMore, Work, Remaining;
      bug := bug || rq.done.Meets(steps);
      PlaceRequest(rq.(done := rq.done.Union(steps)), error, env);
      KickFlush(env);
    }

    /** One iteration of the walk over the requests a flush has served: the first one leaves the queue,
     * no request is lost, and less remains to be done. */
    method PushHead(idx: nat, issued: nat, finished: nat, error: bool, env: Env)
      requires State().Queue(idx) != []
      requires CurrentStep(State().Queue(idx)[0].done).Some?
      modifies this
      ensures State() == DrainOne(old(State()), idx, issued, finished, error, env)
      ensures old(Base(State()) && Walking(State(), idx, issued, finished, error)) ==>
                && Base(State()) && Walking(State(), idx, issued, finished, error)
                && State().Queue(idx) == old(State()).Queue(idx)[1..]
                && SamePlaces(old(State()), State()) && Work(State()) < old(Work(State()))
    {
      if Base(State()) && Walking(State(), idx, issued, finished, error) {
        DrainOneKeeps(State(), idx, issued, finished, error, env);
        DrainOneCounts(State(), idx, issued, finished, error, env);
      }
      hide CompleteSeq, Base, Walking, SamePlaces, Work;
      var rq := State().Queue(idx)[0];
      SetQueue(idx, State().Queue(idx)[1..]);
      var step := CurrentStep(rq.done).value;
      bug := bug || step == Data;
      CompleteFlushSeq(Log(rq, step, issued, finished), Only(step), error, env);
    }

    /** The device finished the flush request; the last reference pushes its waiters on. */
    method FlushEndIo(error: bool, lastRef: bool, env: Env)
      requires Inv(State()) && flushInFlight
      modifies this
      ensures State() == FlushEnd(old(State()), error, lastRef, env)
      ensures Inv(State())
    {
      hide DrainOne, Base, Walking, Inv, Drain;
      FlushEndKeeps(State(), error, lastRef, env);
      if !lastRef {
        rqStatus := error;
        return;
      }
      var failed := error || rqStatus;
      var running := runningIdx;
      var issued, finished := issuedAt, clock;
      FlushEndStarts(State(), failed);
      hide Completed;
      CompleteFlush(failed);
      WalkRequests(running, issued, finished, failed, env);
    }

    method CompleteFlush(failed: bool)
      modifies this`bug, this`runningIdx, this`flushInFlight, this`device, this`clock
      ensures State() == Completed(old(State()), failed)
    {
      bug := bug || pendingIdx == runningIdx;
      runningIdx := Toggle(runningIdx);
      flushInFlight := false;
      if !failed {
        device := device + [FlushCommand(issuedAt, clock)];
      }
      clock := clock + 1;
    }

    method WalkRequests(idx: nat, issued: nat, finished: nat, error: bool, env: Env)
      requires Base(State()) && Walking(State(), idx, issued, finished, error)
      modifies this
      ensures State() == Drain(old(State()), idx, 2 * |old(State()).Queue(idx)|, issued, finished, error, env)
    {
      hide DrainOne, Base, Walking;
      ghost var fuel := 2 * |State().Queue(idx)|;
      ghost var t := Drain(State(), idx, fuel, issued, finished, error, env);
      while State().Queue(idx) != []
        invariant Base(State()) && Walking(State(), idx, issued, finished, error)
        invariant |State().Queue(idx)| <= fuel
        invariant Drain(State(), idx, fuel, issued, finished, error, env) == t
        decreases |State().Queue(idx)|
      {
        DrainOneKeeps(State(), idx, issued, finished, error, env);
        DrainTake(State(), idx, issued, finished, error);
        DrainUnfolds(State(), idx, fuel, issued, finished, error, env);
        PushHead(idx, issued, finished, error, env);
        fuel := fuel - 1;
      }
    }

    method DataEndIo(k: nat, error: bool, env: Env)
      requires k < |dataInFlight|
      modifies this
      ensures State() == DataEnd(old(State()), k, error, env)
      ensures old(Inv(State())) ==> Inv(State())
    {
      hide CompleteSeq, Inv;
      if Inv(State()) {
        DataEndKeeps(State(), k, error, env);
      }
      var rq := dataInFlight[k];
      var finished := clock;
      dataInFlight := dataInFlight[..k] + dataInFlight[k + 1..];
      clock := clock + 1;
      CompleteFlushSeq(Log(rq, Data, rq.joined, finished), Only(Data), error, env);
    }

    method InsertFlush(id: nat, sub: Submission, env: Env)
      modifies this
      ensures State() == Insert(old(State()), id, sub, env)
      ensures old(Inv(State()) && Places(State(), id) == 0) && SensiblePolicy(Policy(sub)) ==> Inv(State())
      ensures bypassed == old(bypassed) + if sub.hasData && !WantsBefore(sub) && !WantsAfter(sub) then [id] else []
    {
      CompleteBypassesNone(State(), Request(id, Policy(sub), NO_STEPS, 0, []), Policy(sub).Complement(), false, env);
      hide CompleteSeq, Inv;
      if Inv(State()) && Places(State(), id) == 0 && SensiblePolicy(Policy(sub)) {
        InsertKeeps(State(), id, sub, env);
      }
      var policy := Policy(sub);
      var rq := Request(id, policy, NO_STEPS, 0, []);
      if policy == NO_STEPS {
        ended := ended + [Ended(rq, false)];
      } else if policy == Only(Data) {
        bypassed := bypassed + [id];
      } else {
        CompleteFlushSeq(rq, policy.Complement(), false, env);
      }
    }
  }
}
