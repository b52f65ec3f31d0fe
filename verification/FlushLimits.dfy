/** Why submissions must be sensible: any policy that flushes before and after but carries no data
 * breaks the durability promise in some run. */
module FlushLimits {
  import opened Options
  import opened FlushModel
  import opened FlushProofs

  const NOW := Env(false, 0, 0)
  const EMPTY := Mask(true, false, true)

  /** Request `id` after its first flush, waiting for the second since `joined`. */
  function Halfway(id: nat, joined: nat, log: seq<Record>): Request {
    Request(id, EMPTY, Mask(true, true, false), joined, log)
  }

  function Fresh(id: nat, joined: nat): Request {
    Request(id, EMPTY, Mask(false, true, false), joined, [])
  }

  function BadRun(sub: Submission): seq<Event> {
    [Submit(0, sub, NOW), Submit(1, sub, NOW), Submit(2, sub, NOW), Submit(3, sub, NOW),
     FlushDone(false, true, NOW), FlushDone(false, true, NOW)]
  }

  /** Four empty requests: the first flush serves one, the second serves the other three. */
  const LOADED := Fq([Fresh(0, 0)], [Fresh(1, 2), Fresh(2, 3), Fresh(3, 4)], 1, 0,
                     [], 0, true, false, 1, 5, [], [], [], false)

  const FIRST := Record(PreFlush, 0, 1, 5)

  const SWAPPED := Fq([], [Fresh(1, 2), Fresh(2, 3), Fresh(3, 4), Halfway(0, 6, [FIRST])], 0, 1,
                      [], 0, true, false, 7, 8, [FlushCommand(1, 5)], [], [], false)

  /** With a flush in flight a new request just queues up. */
  lemma InsertQueues(s: Fq, id: nat, sub: Submission)
    requires Policy(sub) == EMPTY && s.pendingIdx != s.runningIdx && s.pendingSince == 0
    ensures Insert(s, id, sub, NOW) ==
            s.WithQueue(s.pendingIdx, s.Queue(s.pendingIdx) + [Fresh(id, s.clock)]).(clock := s.clock + 1)
  {
  }

  lemma FirstInsert(sub: Submission)
    requires Policy(sub) == EMPTY
    ensures Insert(INITIAL, 0, sub, NOW) ==
            INITIAL.(q0 := [Fresh(0, 0)], pendingIdx := 1, flushInFlight := true, issuedAt := 1, clock := 2)
  {
  }

  /** The states while the four requests come in. */
  function Loading(n: nat): Fq {
    if n == 0 then INITIAL
    else if n == 1 then LOADED.(q1 := [], clock := 2)
    else if n == 2 then LOADED.(q1 := [Fresh(1, 2)], clock := 3)
    else if n == 3 then LOADED.(q1 := [Fresh(1, 2), Fresh(2, 3)], clock := 4)
    else LOADED
  }

  lemma LoadingEnabled(n: nat)
    requires n < 4
    ensures Places(Loading(n), n) == 0
  {
    var q := Loading(n).q1;
    assert |q| > 1 ==> q[1..] == [q[1]];
  }

  lemma LoadingStep(n: nat, sub: Submission)
    requires n < 4 && Policy(sub) == EMPTY
    ensures Insert(Loading(n), n, sub, NOW) == Loading(n + 1)
  {
    if n == 0 {
      FirstInsert(sub);
    } else {
      InsertQueues(Loading(n), n, sub);
    }
  }

  lemma LoadingRun(n: nat, sub: Submission)
    requires n < 4 && Policy(sub) == EMPTY
    ensures Run(Loading(n), BadRun(sub)[n..]) == Run(Loading(n + 1), BadRun(sub)[n + 1..])
  {
    hide Insert, Places;
    LoadingEnabled(n);
    LoadingStep(n, sub);
    assert BadRun(sub)[n..][0] == Submit(n, sub, NOW) && BadRun(sub)[n..][1..] == BadRun(sub)[n + 1..];
  }

  lemma LoadedReached(sub: Submission)
    requires Policy(sub) == EMPTY
    ensures Run(INITIAL, BadRun(sub)) == Run(LOADED, BadRun(sub)[4..])
  {
    hide Run;
    assert BadRun(sub)[0..] == BadRun(sub);
    LoadingRun(0, sub);
    LoadingRun(1, sub);
    LoadingRun(2, sub);
    LoadingRun(3, sub);
  }

  /** A request past its first flush queues for the second one. If no flush is in flight that starts
   * one; if one is in flight the request waits, possibly on the very queue being walked. */
  lemma FirstFlushDone(s: Fq, idx: nat, id: nat, joined: nat, tail: seq<Request>, issued: nat, finished: nat)
    requires idx < 2 && s.pendingIdx < 2 && s.Queue(idx) == [Fresh(id, joined)] + tail && s.pendingSince == 0
    requires !s.bug && s.dataInFlight == []
    ensures var rest := s.WithQueue(idx, tail);
            var waiting := Halfway(id, s.clock, [Record(PreFlush, joined, issued, finished)]);
            var queued := rest.WithQueue(s.pendingIdx, rest.Queue(s.pendingIdx) + [waiting]).(clock := s.clock + 1);
            DrainOne(s, idx, issued, finished, false, NOW) == Kick(queued, NOW)
  {
    assert s.Queue(idx)[1..] == tail;
    hide CompleteSeq;
    QueuesAgain(s.WithQueue(idx, tail), id, joined, issued, finished);
  }

  lemma QueuesAgain(s: Fq, id: nat, joined: nat, issued: nat, finished: nat)
    requires s.pendingIdx < 2 && s.pendingSince == 0 && !s.bug
    ensures var logged := Log(Fresh(id, joined), PreFlush, issued, finished);
            var waiting := Halfway(id, s.clock, [Record(PreFlush, joined, issued, finished)]);
            var queued := s.WithQueue(s.pendingIdx, s.Queue(s.pendingIdx) + [waiting]).(clock := s.clock + 1);
            CompleteSeq(s.(bug := s.bug || PreFlush == Data), logged, Only(PreFlush), false, NOW) == Kick(queued, NOW)
  {
    hide Kick;
    assert Log(Fresh(id, joined), PreFlush, issued, finished).log == [Record(PreFlush, joined, issued, finished)];
    assert s.(bug := false) == s;
  }

  /** A request past its second flush ends, whenever it queued. */
  lemma SecondFlushDone(s: Fq, idx: nat, rq: Request, tail: seq<Request>, issued: nat, finished: nat)
    requires idx < 2 && s.Queue(idx) == [rq] + tail && !s.bug && s.pendingIdx != s.runningIdx
    requires rq == Halfway(rq.id, rq.joined, rq.log)
    ensures var done := Log(rq, PostFlush, issued, finished).(done := Mask(true, true, true));
            DrainOne(s, idx, issued, finished, false, NOW) ==
            s.WithQueue(idx, tail).(ended := s.ended + [Ended(done, false)], clock := s.clock + 1)
  {
    assert s.Queue(idx)[1..] == tail;
  }

  lemma SwappedReached()
    ensures FlushEnd(LOADED, false, true, NOW) == SWAPPED
  {
    var s := LOADED.(runningIdx := 1, flushInFlight := false, device := [FlushCommand(1, 5)], clock := 6);
    FirstFlushDone(s, 0, 0, 0, [], 1, 5);
    hide DrainOne;
    assert FlushEnd(LOADED, false, true, NOW) == Drain(s, 0, 2, 1, 5, false, NOW);
  }

  const SECOND := FlushCommand(7, 8)

  /** The walk over the three later requests, request by request. */
  function Walked(n: nat): Fq {
    var r0, r1, r2, r3 := Halfway(0, 6, [FIRST]), Halfway(1, 9, [Record(PreFlush, 2, 7, 8)]),
        Halfway(2, 11, [Record(PreFlush, 3, 7, 8)]), Halfway(3, 12, [Record(PreFlush, 4, 7, 8)]);
    var s := SWAPPED.(runningIdx := 0, flushInFlight := false, device := SWAPPED.device + [SECOND], clock := 9);
    var flying := s.(q0 := [r1], pendingIdx := 1, flushInFlight := true, issuedAt := 10);
    if n == 0 then s
    else if n == 1 then flying.(q1 := [Fresh(2, 3), Fresh(3, 4), r0], clock := 11)
    else if n == 2 then flying.(q1 := [Fresh(3, 4), r0, r2], clock := 12)
    else if n == 3 then flying.(q1 := [r0, r2, r3], clock := 13)
    else flying.(q1 := [r2, r3], clock := 14,
                 ended := [Ended(Log(r0, PostFlush, 7, 8).(done := Mask(true, true, true)), false)])
  }

  /** The request that ends although the flush that is meant to cover it was issued before it queued. */
  const BROKEN := Ended(Request(2, EMPTY, Mask(true, true, true), 11,
                                [Record(PreFlush, 3, 7, 8), Record(PostFlush, 11, 7, 8)]), false)

  lemma WalkStep(n: nat)
    requires n < 4
    ensures |Walked(n).Queue(1)| > 1 && DrainOne(Walked(n), 1, 7, 8, false, NOW) == Walked(n + 1)
  {
    var half0, half2 := Halfway(0, 6, [FIRST]), Halfway(2, 11, [Record(PreFlush, 3, 7, 8)]);
    if n == 0 {
      FirstFlushDone(Walked(0), 1, 1, 2, [Fresh(2, 3), Fresh(3, 4), half0], 7, 8);
    } else if n == 1 {
      FirstFlushDone(Walked(1), 1, 2, 3, [Fresh(3, 4), half0], 7, 8);
    } else if n == 2 {
      FirstFlushDone(Walked(2), 1, 3, 4, [half0, half2], 7, 8);
    } else {
      SecondFlushDone(Walked(3), 1, half0, Walked(4).q1, 7, 8);
    }
  }

  lemma WalkRun(n: nat)
    requires n < 4
    ensures Drain(Walked(n), 1, 8 - n, 7, 8, false, NOW) == Drain(Walked(n + 1), 1, 7 - n, 7, 8, false, NOW)
  {
    hide DrainOne, Walked;
    WalkStep(n);
  }

  /** The last two requests came back to the queue being walked and end with no further flush. */
  lemma WalkEnds()
    ensures BROKEN in Drain(Walked(4), 1, 4, 7, 8, false, NOW).ended
  {
    var s := Walked(4);
    SecondFlushDone(s, 1, s.q1[0], [s.q1[1]], 7, 8);
    var t := DrainOne(s, 1, 7, 8, false, NOW);
    assert Log(s.q1[0], PostFlush, 7, 8).log == BROKEN.rq.log;
    assert t.ended[|s.ended|] == BROKEN && t.q1 == [s.q1[1]];
    SecondFlushDone(t, 1, t.q1[0], [], 7, 8);
    var u := DrainOne(t, 1, 7, 8, false, NOW);
    assert u.ended[|s.ended|] == BROKEN;
    hide DrainOne;
    assert Drain(s, 1, 4, 7, 8, false, NOW) == Drain(t, 1, 3, 7, 8, false, NOW);
  }

  lemma BrokenReached()
    ensures BROKEN in FlushEnd(SWAPPED, false, true, NOW).ended
  {
    assert FlushEnd(SWAPPED, false, true, NOW) == Drain(Walked(0), 1, 8, 7, 8, false, NOW);
    hide Drain, Walked;
    WalkRun(0);
    WalkRun(1);
    WalkRun(2);
    WalkRun(3);
    WalkEnds();
  }

  lemma TwoFlushes(s: Fq, t: Fq)
    requires s.flushInFlight && t.flushInFlight && FlushEnd(s, false, true, NOW) == t
    ensures Run(s, [FlushDone(false, true, NOW), FlushDone(false, true, NOW)]) == Some(FlushEnd(t, false, true, NOW))
  {
    hide FlushEnd;
    var e := FlushDone(false, true, NOW);
    assert [e, e][1..] == [e] && [e][1..] == [];
    assert Run(t, [e]) == Run(FlushEnd(t, false, true, NOW), []);
  }

  lemma BadRunEnds(sub: Submission)
    requires Policy(sub) == EMPTY
    ensures Run(INITIAL, BadRun(sub)) == Some(FlushEnd(SWAPPED, false, true, NOW))
  {
    hide FlushEnd, Run;
    LoadedReached(sub);
    SwappedReached();
    TwoFlushes(LOADED, SWAPPED);
    assert BadRun(sub)[4..] == [FlushDone(false, true, NOW), FlushDone(false, true, NOW)];
  }

  lemma BrokenUnfulfilled(device: seq<FlushCommand>)
    ensures !Fulfilled(BROKEN.rq, device)
  {
    assert BROKEN.rq.log[1] == Record(PostFlush, 11, 7, 8);
    assert !Served(BROKEN.rq.log[1], device);
  }

  /** Together with `FlushProofs.Durability`: sensible submissions always keep the promise, and every
   * submission that is not sensible breaks it, already in a run of its own copies. */
  lemma NotSensibleBreaksDurability(sub: Submission)
    requires !SensiblePolicy(Policy(sub))
    ensures Run(INITIAL, BadRun(sub)).Some?
    ensures exists e :: e in Run(INITIAL, BadRun(sub)).value.ended && !e.error && e.rq.policy == Policy(sub)
                        && !Fulfilled(e.rq, Run(INITIAL, BadRun(sub)).value.device)
  {
    assert Policy(sub) == EMPTY;
    BadRunEnds(sub);
    BrokenReached();
    hide FlushEnd, Run, Fulfilled;
    BrokenUnfulfilled(FlushEnd(SWAPPED, false, true, NOW).device);
  }
}
