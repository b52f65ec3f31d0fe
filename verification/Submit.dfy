/** Block I/O submission: the two-list loop that replaces recursion when drivers resubmit bios. */
module Submit {
  import Seqs

  /** A bio and everything its driver submits while handling it, in that order.
   * `passes`: the submission checks accept it. `enters`: its queue can be entered. */
  datatype Bio = Bio(id: nat, queue: nat, passes: bool, enters: bool, children: seq<Bio>)

  /** What happens to a bio: refused by the checks, ended because its queue cannot be entered, or
   * handed to its driver. */
  datatype Event = Refused(id: nat) | Failed(id: nat) | Made(id: nat)

  // ---------- the recursive meaning ----------

  /** The children that the checks refuse end at once, while the driver is still submitting. */
  function Refusals(bios: seq<Bio>): seq<Event> {
    if bios == [] then []
    else (if bios[0].passes then [] else [Refused(bios[0].id)]) + Refusals(bios[1..])
  }

  /** Accepted bios for queue `q`, or for other queues; both in submission order. */
  function Accepted(bios: seq<Bio>, q: nat, same: bool): seq<Bio> {
    if bios == [] then []
    else (if bios[0].passes && (bios[0].queue == q) == same then [bios[0]] else []) + Accepted(bios[1..], q, same)
  }

  lemma {:induction false} AcceptedSmaller(bios: seq<Bio>, q: nat, same: bool)
    ensures forall c :: c in Accepted(bios, q, same) ==> c in bios && c.passes && ((c.queue == q) == same)
  {
    if bios != [] {
      AcceptedSmaller(bios[1..], q, same);
    }
  }

  /** Each bio of `list` in turn is the next one of the part that its queue says, and nothing is left over. */
  predicate Merges(list: seq<Bio>, q: nat, lower: seq<Bio>, same: seq<Bio>) {
    if list == [] then lower == [] && same == []
    else if list[0].queue == q then same != [] && same[0] == list[0] && Merges(list[1..], q, lower, same[1..])
    else lower != [] && lower[0] == list[0] && Merges(list[1..], q, lower[1..], same)
  }

  /** Sorting loses no order: the two parts can be merged back. */
  lemma {:induction false} AcceptedMerge(list: seq<Bio>, q: nat)
    requires forall c | c in list :: c.passes
    ensures Merges(list, q, Accepted(list, q, false), Accepted(list, q, true))
  {
    if list != [] {
      AcceptedMerge(list[1..], q);
      Seqs.Single(list[0], Accepted(list[1..], q, list[0].queue == q));
      Seqs.EmptyLeft(Accepted(list[1..], q, list[0].queue != q));
    }
  }

  function Size(b: Bio): nat {
    1 + Sizes(b.children)
  }

  function Sizes(bios: seq<Bio>): nat {
    if bios == [] then 0 else Size(bios[0]) + Sizes(bios[1..])
  }

  lemma {:induction false} SizesAppend(a: seq<Bio>, b: seq<Bio>)
    ensures Sizes(a + b) == Sizes(a) + Sizes(b)
  {
    if a == [] {
      assert a + b == b;
    } else {
      SizesAppend(a[1..], b);
      assert (a + b)[1..] == a[1..] + b;
    }
  }

  lemma {:induction false} SizesAccepted(bios: seq<Bio>, q: nat)
    ensures Sizes(Accepted(bios, q, false)) + Sizes(Accepted(bios, q, true)) <= Sizes(bios)
  {
    if bios != [] {
      SizesAccepted(bios[1..], q);
      var b := bios[0];
      forall same
        ensures Sizes((if b.passes && (b.queue == q) == same then [b] else []) + Accepted(bios[1..], q, same)) ==
                (if b.passes && (b.queue == q) == same then Size(b) else 0) + Sizes(Accepted(bios[1..], q, same))
      {
        SizesAppend(if b.passes && (b.queue == q) == same then [b] else [], Accepted(bios[1..], q, same));
        assert [b][1..] == [];
      }
    }
  }

  /** Depth first: a bio, then all that comes of its children for other queues, then all that comes of
   * its children for its own queue. */
  function Visit(b: Bio): seq<Event>
    decreases Size(b), 0
  {
    if !b.enters then [Failed(b.id)]
    else
      var lower, same := Accepted(b.children, b.queue, false), Accepted(b.children, b.queue, true);
      SizesAccepted(b.children, b.queue);
      [Made(b.id)] + Refusals(b.children) + VisitAll(lower) + VisitAll(same)
  }

  function VisitAll(bios: seq<Bio>): seq<Event>
    decreases Sizes(bios), 1
  {
    if bios == [] then [] else Visit(bios[0]) + VisitAll(bios[1..])
  }

  /** What submitting `b` amounts to. */
  function Submission(b: Bio): seq<Event> {
    if b.passes then Visit(b) else [Refused(b.id)]
  }

  lemma {:induction false} VisitAppend(a: seq<Bio>, b: seq<Bio>)
    ensures VisitAll(a + b) == VisitAll(a) + VisitAll(b)
  {
    hide Visit;
    if a == [] {
      assert a + b == b;
    } else {
      VisitAppend(a[1..], b);
      Seqs.Uncons(a, b);
      Seqs.Assoc(Visit(a[0]), VisitAll(a[1..]), VisitAll(b));
    }
  }

  // ---------- the loop ----------

  /** The driver of `b` runs: its submissions go to the pending list, unless the checks refuse them. */
  method MakeRequest(b: Bio) returns (list: seq<Bio>, log: seq<Event>)
    ensures log == [Made(b.id)] + Refusals(b.children)
    ensures list == AllAccepted(b.children)
  {
    list, log := [], [Made(b.id)];
    for i := 0 to |b.children|
      invariant log + Refusals(b.children[i..]) == [Made(b.id)] + Refusals(b.children)
      invariant list + AllAccepted(b.children[i..]) == AllAccepted(b.children)
    {
      var c := b.children[i];
      assert b.children[i..][0] == c && b.children[i..][1..] == b.children[i + 1..];
      if c.passes {
        list := list + [c];
      } else {
        log := log + [Refused(c.id)];
      }
    }
  }

  function AllAccepted(bios: seq<Bio>): seq<Bio> {
    if bios == [] then [] else (if bios[0].passes then [bios[0]] else []) + AllAccepted(bios[1..])
  }

  /** Sort new bios into those for other queues and those for this one, keeping their order. */
  method Partition(list: seq<Bio>, q: nat) returns (lower: seq<Bio>, same: seq<Bio>)
    requires forall c :: c in list ==> c.passes
    ensures lower == Accepted(list, q, false) && same == Accepted(list, q, true)
    ensures Merges(list, q, lower, same)
  {
    AcceptedMerge(list, q);
    hide Merges;
    var rest := list;
    lower, same := [], [];
    while rest != []
      invariant forall c :: c in rest ==> c.passes
      invariant lower + Accepted(rest, q, false) == Accepted(list, q, false)
      invariant same + Accepted(rest, q, true) == Accepted(list, q, true)
      decreases |rest|
    {
      var b := rest[0];
      Seqs.Assoc(if b.queue == q then same else lower, [b], Accepted(rest[1..], q, b.queue == q));
      Seqs.EmptyLeft(Accepted(rest[1..], q, b.queue != q));
      if b.queue == q {
        same := same + [b];
      } else {
        lower := lower + [b];
      }
      rest := rest[1..];
    }
    assert lower + [] == lower && same + [] == same;
  }

  lemma {:induction false} AcceptedTwice(bios: seq<Bio>, q: nat, same: bool)
    ensures Accepted(AllAccepted(bios), q, same) == Accepted(bios, q, same)
    ensures forall c :: c in AllAccepted(bios) ==> c.passes
  {
    if bios != [] {
      AcceptedTwice(bios[1..], q, same);
      var b := bios[0];
      if b.passes {
        assert ([b] + AllAccepted(bios[1..]))[1..] == AllAccepted(bios[1..]);
      } else {
        assert [] + AllAccepted(bios[1..]) == AllAccepted(bios[1..]);
      }
    }
  }

  /** One turn of the loop: `current` is handled next, then `waiting`. */
  method HandleOne(bio: Bio, waiting: seq<Bio>) returns (next: seq<Bio>, made: seq<Event>)
    ensures made + VisitAll(next) == VisitAll([bio] + waiting)
    ensures Sizes(next) < Sizes([bio] + waiting)
  {
    assert ([bio] + waiting)[1..] == waiting;
    if !bio.enters {
      return waiting, [Failed(bio.id)];
    }
    next, made := MakeRequest(bio);
    AcceptedTwice(bio.children, bio.queue, false);
    AcceptedTwice(bio.children, bio.queue, true);
    var lower, same := Partition(next, bio.queue);
    SizesAccepted(bio.children, bio.queue);
    SizesAppend(lower + same, waiting);
    SizesAppend(lower, same);
    VisitUnfolds(bio, waiting);
    next := lower + same + waiting;
  }

  /** Making the request and visiting the reassembled list is visiting the bio and then the old list. */
  lemma VisitUnfolds(bio: Bio, waiting: seq<Bio>)
    requires bio.enters
    ensures var lower, same := Accepted(bio.children, bio.queue, false), Accepted(bio.children, bio.queue, true);
            [Made(bio.id)] + Refusals(bio.children) + VisitAll(lower + same + waiting) == VisitAll([bio] + waiting)
  {
    var lower, same := Accepted(bio.children, bio.queue, false), Accepted(bio.children, bio.queue, true);
    var made := [Made(bio.id)] + Refusals(bio.children);
    Seqs.Single(bio, waiting);
    VisitAppend(lower + same, waiting);
    VisitAppend(lower, same);
    Seqs.Assoc(made, VisitAll(lower), VisitAll(same));
    Seqs.Assoc(made, VisitAll(lower) + VisitAll(same), VisitAll(waiting));
  }

  /** Submit `b` when no submission is active already. The loop handles every bio of the tree and
   * does so in the order of the recursive visit. */
  method GenericMakeRequest(b: Bio) returns (log: seq<Event>)
    ensures log == Submission(b)
  {
    if !b.passes {
      return [Refused(b.id)];
    }
    log := [];
    var bio, list := b, [];
    assert VisitAll([b]) == Visit(b) + VisitAll([b][1..]);
    assert [b] + list == [b];
    hide VisitAll, Visit, Sizes;
    while true
      invariant log + VisitAll([bio] + list) == Visit(b)
      decreases Sizes([bio] + list)
    {
      var made;
      list, made := HandleOne(bio, list);
      log := log + made;
      if list == [] {
        assert VisitAll(list) == [] by { VisitNone(); }
        return;
      }
      assert list == [list[0]] + list[1..];
      bio, list := list[0], list[1..];
    }
  }

  lemma VisitNone()
    ensures VisitAll([]) == []
  {
  }

  // ---------- exactly once ----------

  /** How often bio `id` occurs in what `b` sets off. */
  function Occurs(b: Bio, id: nat): nat
    decreases b, 1
  {
    (if b.id == id then 1 else 0) + if b.passes && b.enters then OccursIn(b.children, id) else 0
  }

  function OccursIn(bios: seq<Bio>, id: nat): nat
    decreases bios, 0
  {
    if bios == [] then 0 else Occurs(bios[0], id) + OccursIn(bios[1..], id)
  }

  function Count(log: seq<Event>, id: nat): nat {
    if log == [] then 0 else (if log[0].id == id then 1 else 0) + Count(log[1..], id)
  }

  lemma {:induction false} CountAppend(a: seq<Event>, b: seq<Event>, id: nat)
    ensures Count(a + b, id) == Count(a, id) + Count(b, id)
  {
    if a == [] {
      assert a + b == b;
    } else {
      CountAppend(a[1..], b, id);
      assert (a + b)[1..] == a[1..] + b;
    }
  }

  lemma {:induction false} OccursAppend(a: seq<Bio>, b: seq<Bio>, id: nat)
    ensures OccursIn(a + b, id) == OccursIn(a, id) + OccursIn(b, id)
  {
    if a == [] {
      assert a + b == b;
    } else {
      OccursAppend(a[1..], b, id);
      assert (a + b)[1..] == a[1..] + b;
    }
  }

  /** Refusing, and sorting the rest, loses and repeats nothing. */
  lemma {:induction false} PartitionCounts(bios: seq<Bio>, q: nat, id: nat)
    ensures Count(Refusals(bios), id) + OccursIn(Accepted(bios, q, false), id) + OccursIn(Accepted(bios, q, true), id)
            == OccursIn(bios, id)
  {
    if bios != [] {
      var b, later := bios[0], bios[1..];
      PartitionCounts(later, q, id);
      CountAppend(if b.passes then [] else [Refused(b.id)], Refusals(later), id);
      OccursAppend(if b.passes && b.queue != q then [b] else [], Accepted(later, q, false), id);
      OccursAppend(if b.passes && b.queue == q then [b] else [], Accepted(later, q, true), id);
      assert [b][1..] == [] && [Refused(b.id)][1..] == [];
      assert OccursIn([b], id) == Occurs(b, id);
    }
  }

  lemma {:induction false} VisitCounts(b: Bio, id: nat)
    requires b.passes
    ensures Count(Visit(b), id) == Occurs(b, id)
    decreases Size(b), 0
  {
    if b.enters {
      var lower, same := Accepted(b.children, b.queue, false), Accepted(b.children, b.queue, true);
      var head, mid := [Made(b.id)], Refusals(b.children);
      AcceptedSmaller(b.children, b.queue, false);
      AcceptedSmaller(b.children, b.queue, true);
      SizesAccepted(b.children, b.queue);
      VisitAllCounts(lower, id);
      VisitAllCounts(same, id);
      PartitionCounts(b.children, b.queue, id);
      CountAppend(head + mid + VisitAll(lower), VisitAll(same), id);
      CountAppend(head + mid, VisitAll(lower), id);
      CountAppend(head, mid, id);
      assert head[1..] == [];
    } else {
      assert [Failed(b.id)][1..] == [];
    }
  }

  lemma {:induction false} VisitAllCounts(bios: seq<Bio>, id: nat)
    requires forall c :: c in bios ==> c.passes
    ensures Count(VisitAll(bios), id) == OccursIn(bios, id)
    decreases Sizes(bios), 1
  {
    if bios != [] {
      VisitCounts(bios[0], id);
      VisitAllCounts(bios[1..], id);
      CountAppend(Visit(bios[0]), VisitAll(bios[1..]), id);
    }
  }

  /** Every bio that submitting `b` sets off is dealt with exactly as often as it was submitted. */
  lemma HandledExactlyOnce(b: Bio, id: nat)
    ensures Count(Submission(b), id) == Occurs(b, id)
  {
    if b.passes {
      VisitCounts(b, id);
    } else {
      assert [Refused(b.id)][1..] == [];
    }
  }
}
