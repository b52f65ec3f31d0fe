/** Chained bio completion: counters that let a parent end exactly once, after all its children. */
module BioChain {
  import opened Options

  /** One bio. `pending`: its own completion has not been delivered. `reported`: the error its own
   * completion brought, 0 for none. `ended`, `endedAt`: history of its end action. */
  datatype Bio = Bio(parent: Option<nat>, status: int, remaining: int, chained: bool,
                     pending: bool, reported: int, ended: bool, endedAt: nat)

  const FRESH := Bio(None, 0, 1, false, true, 0, false, 0)

  /** All bios, the order in which they ended, and whether a bio was ended twice or a count ran out. */
  datatype State = State(bios: seq<Bio>, order: seq<nat>, bug: bool) {
    predicate Has(b: nat) { b < |bios| }

    function With(b: nat, bio: Bio): State
      requires Has(b)
    {
      this.(bios := bios[b := bio])
    }
  }

  const EMPTY := State([], [], false)

  function Unended(bios: seq<Bio>): nat {
    if bios == [] then 0 else (if bios[0].ended then 0 else 1) + Unended(bios[1..])
  }

  lemma {:induction false} UnendedUpdate(bios: seq<Bio>, b: nat, bio: Bio)
    requires b < |bios| && !bios[b].ended && bio.ended
    ensures Unended(bios[b := bio]) == Unended(bios) - 1
  {
    if b == 0 {
      assert bios[b := bio][1..] == bios[1..];
    } else {
      UnendedUpdate(bios[1..], b - 1, bio);
      assert bios[b := bio][1..] == bios[1..][b - 1 := bio];
    }
  }

  lemma {:induction false} UnendedSame(bios: seq<Bio>, b: nat, bio: Bio)
    requires b < |bios| && bio.ended == bios[b].ended
    ensures Unended(bios[b := bio]) == Unended(bios)
  {
    if b == 0 {
      assert bios[b := bio][1..] == bios[1..];
    } else {
      UnendedSame(bios[1..], b - 1, bio);
      assert bios[b := bio][1..] == bios[1..][b - 1 := bio];
    }
  }

  // ---------- steps ----------

  function Alloc(s: State): State {
    s.(bios := s.bios + [FRESH])
  }

  /** Make `c` complete into `p`. */
  function Chain(s: State, c: nat, p: nat): State
    requires s.Has(c) && s.Has(p) && c != p
  {
    s.With(c, s.bios[c].(parent := Some(p)))
     .With(p, s.bios[p].(remaining := s.bios[p].remaining + 1, chained := true))
  }

  /** One completion arrives at `b`: if it was the last one, end `b`. */
  function Arrive(s: State, b: nat): (r: (State, bool))
    requires s.Has(b)
  {
    var bio := s.bios[b];
    if bio.ended then (s.(bug := true), false)
    else if !bio.chained then (Ended(s, b), true)
    else if bio.remaining <= 0 then (s.(bug := true), false)
    else
      var t := s.With(b, bio.(remaining := bio.remaining - 1));
      if bio.remaining == 1 then (Ended(t.With(b, t.bios[b].(chained := false)), b), true) else (t, false)
  }

  function Ended(s: State, b: nat): State
    requires s.Has(b)
  {
    s.With(b, s.bios[b].(ended := true, endedAt := |s.order|)).(order := s.order + [b])
  }

  /** Pass an error on to the parent, which keeps the first one it sees. */
  function PassStatus(s: State, b: nat, p: nat): State
    requires s.Has(b) && s.Has(p)
  {
    if s.bios[p].status == 0 then s.With(p, s.bios[p].(status := s.bios[b].status)) else s
  }

  lemma ArriveUnended(s: State, b: nat, p: nat)
    requires s.Has(b) && s.Has(p) && Arrive(s, b).1
    ensures Unended(PassStatus(Arrive(s, b).0, b, p).bios) < Unended(s.bios)
    ensures |PassStatus(Arrive(s, b).0, b, p).bios| == |s.bios|
  {
    var bio := s.bios[b];
    var t := Arrive(s, b).0;
    assert t.bios == s.bios[b := t.bios[b]];
    UnendedUpdate(s.bios, b, t.bios[b]);
    if t.bios[p].status == 0 {
      UnendedSame(t.bios, p, t.bios[p].(status := t.bios[b].status));
    }
  }

  /** End I/O on `b`, and walk up the chain as long as bios end. */
  function EndIo(s: State, b: nat): State
    decreases Unended(s.bios)
  {
    if !s.Has(b) then s.(bug := true)
    else
      var (t, done) := Arrive(s, b);
      var up := s.bios[b].parent;
      if !done || up.None? then t
      else if !s.Has(up.value) then t.(bug := true)
      else
        ArriveUnended(s, b, up.value);
        EndIo(PassStatus(t, b, up.value), up.value)
  }

  /** The driver completes `b`, with an error or without. */
  function Complete(s: State, b: nat, error: int): State
    requires s.Has(b)
  {
    var bio := s.bios[b];
    EndIo(s.With(b, bio.(pending := false, reported := error, status := if error != 0 then error else bio.status)), b)
  }
}
