/** The order in which a submission handles the bios it sets off, stated on the log alone. */
module SubmitOrder {
  import Seqs
  import opened Options
  import opened Submit

  // ---------- which child comes first ----------

  /** Refused children end at once; children for other queues come before children for the same queue. */
  function Rank(c: Bio, q: nat): nat {
    if !c.passes then 0 else if c.queue != q then 1 else 2
  }

  /** By rank, and in the order of submission within a rank. */
  predicate Earlier(d: Bio, i: nat, j: nat)
    requires i < |d.children| && j < |d.children|
  {
    var r, r' := Rank(d.children[i], d.queue), Rank(d.children[j], d.queue);
    r < r' || (r == r' && i < j)
  }

  /** The bio that `path` leads to through the children of bios handed to their drivers. */
  function At(b: Bio, path: seq<nat>): Option<Bio>
    decreases |path|
  {
    if path == [] then Some(b)
    else if b.passes && b.enters && path[0] < |b.children| then At(b.children[path[0]], path[1..])
    else None
  }

  /** No id occurs twice in what submitting `b` sets off. */
  ghost predicate Distinct(b: Bio) {
    forall id :: Occurs(b, id) <= 1
  }

  // ---------- the children in the order they are handled ----------

  function OfRank(bios: seq<Bio>, q: nat, r: nat): seq<Bio> {
    if bios == [] then [] else (if Rank(bios[0], q) == r then [bios[0]] else []) + OfRank(bios[1..], q, r)
  }

  function Handled(d: Bio): seq<Bio> {
    OfRank(d.children, d.queue, 0) + (OfRank(d.children, d.queue, 1) + OfRank(d.children, d.queue, 2))
  }

  function All(bios: seq<Bio>): seq<Event> {
    if bios == [] then [] else Submission(bios[0]) + All(bios[1..])
  }

  lemma {:induction false} AllAppend(a: seq<Bio>, b: seq<Bio>)
    ensures All(a + b) == All(a) + All(b)
  {
    hide Submission;
    if a == [] {
      assert a + b == b;
    } else {
      AllAppend(a[1..], b);
      Seqs.Uncons(a, b);
      Seqs.Assoc(Submission(a[0]), All(a[1..]), All(b));
    }
  }

  lemma AllOne(c: Bio)
    ensures All([c]) == Submission(c)
  {
    assert [c][1..] == [];
  }

  lemma {:induction false} RefusedAreRankZero(bios: seq<Bio>, q: nat)
    ensures All(OfRank(bios, q, 0)) == Refusals(bios)
  {
    if bios != [] {
      var b := bios[0];
      RefusedAreRankZero(bios[1..], q);
      AllAppend(if Rank(b, q) == 0 then [b] else [], OfRank(bios[1..], q, 0));
      AllOne(b);
    }
  }

  lemma {:induction false} AcceptedAreRanked(bios: seq<Bio>, q: nat, same: bool)
    ensures OfRank(bios, q, if same then 2 else 1) == Accepted(bios, q, same)
  {
    if bios != [] {
      AcceptedAreRanked(bios[1..], q, same);
    }
  }

  lemma {:induction false} AllAccepted(bios: seq<Bio>)
    requires forall c | c in bios :: c.passes
    ensures All(bios) == VisitAll(bios)
  {
    hide Visit;
    if bios != [] {
      AllAccepted(bios[1..]);
    }
  }

  /** A bio handed to its driver, then everything its children set off. */
  lemma VisitIsHandled(d: Bio)
    requires d.enters
    ensures Visit(d) == [Made(d.id)] + All(Handled(d))
  {
    var q, cs := d.queue, d.children;
    RefusedAreRankZero(cs, q);
    AcceptedAreRanked(cs, q, false);
    AcceptedAreRanked(cs, q, true);
    AcceptedSmaller(cs, q, false);
    AcceptedSmaller(cs, q, true);
    AllAccepted(Accepted(cs, q, false));
    AllAccepted(Accepted(cs, q, true));
    AllAppend(OfRank(cs, q, 0), OfRank(cs, q, 1) + OfRank(cs, q, 2));
    AllAppend(OfRank(cs, q, 1), OfRank(cs, q, 2));
    var lower, same := VisitAll(Accepted(cs, q, false)), VisitAll(Accepted(cs, q, true));
    assert Visit(d) == [Made(d.id)] + Refusals(cs) + lower + same;
    hide Visit, VisitAll, All, OfRank, Refusals, Accepted;
    Seqs.Assoc([Made(d.id)], Refusals(cs), lower + same);
    Seqs.Assoc([Made(d.id)] + Refusals(cs), lower, same);
  }

  // ---------- splitting the list at one child, and at two ----------

  lemma {:induction false} SplitAt(bios: seq<Bio>, q: nat, r: nat, i: nat)
    requires i < |bios| && Rank(bios[i], q) == r
    ensures OfRank(bios, q, r) == OfRank(bios[..i], q, r) + ([bios[i]] + OfRank(bios[i + 1..], q, r))
  {
    hide Rank;
    if i == 0 {
      assert bios[..0] == [];
    } else {
      SplitAt(bios[1..], q, r, i - 1);
      assert bios[1..][..i - 1] == bios[..i][1..] && bios[1..][i..] == bios[i + 1..];
    }
  }

  /** The list around the children of one rank. */
  lemma AroundRank(d: Bio, r: nat) returns (pre: seq<Bio>, post: seq<Bio>)
    requires r <= 2
    ensures Handled(d) == pre + (OfRank(d.children, d.queue, r) + post)
  {
    var l0, l1, l2 := OfRank(d.children, d.queue, 0), OfRank(d.children, d.queue, 1), OfRank(d.children, d.queue, 2);
    hide OfRank;
    pre := if r == 0 then [] else if r == 1 then l0 else l0 + l1;
    post := if r == 0 then l1 + l2 else if r == 1 then l2 else [];
  }

  lemma AroundRanks(d: Bio, r: nat, r': nat) returns (pre: seq<Bio>, mid: seq<Bio>, post: seq<Bio>)
    requires r < r' <= 2
    ensures Handled(d) == pre + (OfRank(d.children, d.queue, r) + (mid + (OfRank(d.children, d.queue, r') + post)))
  {
    var l0, l1, l2 := OfRank(d.children, d.queue, 0), OfRank(d.children, d.queue, 1), OfRank(d.children, d.queue, 2);
    hide OfRank;
    pre := if r == 0 then [] else l0;
    mid := if r == 0 && r' == 2 then l1 else [];
    post := if r' == 1 then l2 else [];
  }

  lemma SplitAtOne(d: Bio, i: nat) returns (u: seq<Bio>, w: seq<Bio>)
    requires i < |d.children|
    ensures Handled(d) == u + ([d.children[i]] + w)
  {
    var cs, q := d.children, d.queue;
    var r := Rank(cs[i], q);
    SplitAt(cs, q, r, i);
    var pre, post := AroundRank(d, r);
    var a, b := OfRank(cs[..i], q, r), OfRank(cs[i + 1..], q, r);
    hide OfRank, Handled;
    Seqs.Within(pre, a, [cs[i]], b, post);
    u, w := pre + a, b + post;
  }

  lemma SplitOneRank(d: Bio, i: nat, j: nat) returns (u: seq<Bio>, v: seq<Bio>, w: seq<Bio>)
    requires i < j < |d.children| && Rank(d.children[i], d.queue) == Rank(d.children[j], d.queue)
    ensures Handled(d) == u + ([d.children[i]] + (v + ([d.children[j]] + w)))
  {
    var cs, q := d.children, d.queue;
    var r, later := Rank(cs[i], q), cs[i + 1..];
    SplitAt(cs, q, r, i);
    SplitAt(later, q, r, j - i - 1);
    var pre, post := AroundRank(d, r);
    var a, b := OfRank(cs[..i], q, r), OfRank(later[j - i..], q, r);
    v := OfRank(later[..j - i - 1], q, r);
    assert later[j - i - 1] == cs[j];
    hide OfRank, Rank, Handled;
    Seqs.Within(pre, a, [cs[i]], v + ([cs[j]] + b), post);
    Seqs.Assoc(v, [cs[j]] + b, post);
    Seqs.Assoc([cs[j]], b, post);
    u, w := pre + a, b + post;
  }

  lemma SplitTwoRanks(d: Bio, i: nat, j: nat) returns (u: seq<Bio>, v: seq<Bio>, w: seq<Bio>)
    requires i < |d.children| && j < |d.children| && Rank(d.children[i], d.queue) < Rank(d.children[j], d.queue)
    ensures Handled(d) == u + ([d.children[i]] + (v + ([d.children[j]] + w)))
  {
    var cs, q := d.children, d.queue;
    var r, r' := Rank(cs[i], q), Rank(cs[j], q);
    SplitAt(cs, q, r, i);
    SplitAt(cs, q, r', j);
    var pre, mid, post := AroundRanks(d, r, r');
    var a, b := OfRank(cs[..i], q, r), OfRank(cs[i + 1..], q, r);
    var a', b' := OfRank(cs[..j], q, r'), OfRank(cs[j + 1..], q, r');
    hide OfRank, Rank, Handled;
    var rest := (a' + ([cs[j]] + b')) + post;
    Seqs.Within(pre, a, [cs[i]], b, mid + rest);
    Seqs.Assoc(b, mid, rest);
    Seqs.Within(b + mid, a', [cs[j]], b', post);
    u, v, w := pre + a, (b + mid) + a', b' + post;
  }

  /** An earlier child stands before a later one. */
  lemma SplitAtTwo(d: Bio, i: nat, j: nat) returns (u: seq<Bio>, v: seq<Bio>, w: seq<Bio>)
    requires i < |d.children| && j < |d.children| && Earlier(d, i, j)
    ensures Handled(d) == u + ([d.children[i]] + (v + ([d.children[j]] + w)))
  {
    if Rank(d.children[i], d.queue) == Rank(d.children[j], d.queue) {
      u, v, w := SplitOneRank(d, i, j);
    } else {
      u, v, w := SplitTwoRanks(d, i, j);
    }
  }

  // ---------- on the log ----------

  /** The log of a bio holds the log of each child in one piece. */
  lemma ChildPiece(d: Bio, i: nat) returns (x: seq<Event>, y: seq<Event>)
    requires d.passes && d.enters && i < |d.children|
    ensures Submission(d) == x + (Submission(d.children[i]) + y) && x != [] && x[0] == Made(d.id)
  {
    VisitIsHandled(d);
    var u, w := SplitAtOne(d, i);
    var c := d.children[i];
    AllAppend(u, [c] + w);
    AllAppend([c], w);
    AllOne(c);
    x, y := [Made(d.id)] + All(u), All(w);
    assert Submission(d) == Visit(d);
    hide Submission, All, Visit, Handled;
    Seqs.Assoc([Made(d.id)], All(u), Submission(c) + All(w));
  }

  lemma ChildPieces(d: Bio, i: nat, j: nat) returns (x: seq<Event>, y: seq<Event>, z: seq<Event>)
    requires d.passes && d.enters && i < |d.children| && j < |d.children| && Earlier(d, i, j)
    ensures Submission(d) == x + (Submission(d.children[i]) + (y + (Submission(d.children[j]) + z)))
  {
    VisitIsHandled(d);
    var u, v, w := SplitAtTwo(d, i, j);
    var c, c' := d.children[i], d.children[j];
    AllAppend(u, [c] + (v + ([c'] + w)));
    AllAppend([c], v + ([c'] + w));
    AllAppend(v, [c'] + w);
    AllAppend([c'], w);
    AllOne(c);
    AllOne(c');
    x, y, z := [Made(d.id)] + All(u), All(v), All(w);
    assert Submission(d) == Visit(d);
    hide Submission, All, Visit, Handled;
    Seqs.Assoc([Made(d.id)], All(u), Submission(c) + (y + (Submission(c') + z)));
  }

  /** The log of the whole submission holds the log of every bio in it in one piece. */
  lemma {:induction false} InnerPiece(b: Bio, path: seq<nat>) returns (x: seq<Event>, y: seq<Event>)
    requires At(b, path).Some?
    ensures Submission(b) == x + (Submission(At(b, path).value) + y)
    decreases |path|
  {
    hide Submission;
    if path == [] {
      x, y := [], [];
    } else {
      var x1, y1 := ChildPiece(b, path[0]);
      var x2, y2 := InnerPiece(b.children[path[0]], path[1..]);
      x, y := x1 + x2, y2 + y1;
      var s := Submission(At(b, path).value);
      Seqs.Assoc(x1, x2, s + y2);
      Seqs.Assoc(x1 + x2, s + y2, y1);
      Seqs.Assoc(x1, x2 + (s + y2), y1);
      Seqs.Assoc(x1 + x2, s, y2 + y1);
      Seqs.Assoc(s, y2, y1);
    }
  }

  lemma {:induction false} CountAt(log: seq<Event>, m: nat)
    requires m < |log|
    ensures 1 <= Count(log, log[m].id)
  {
    if m > 0 {
      CountAt(log[1..], m - 1);
    }
  }

  /** An event of something that occurs once lies in the piece that counts it. */
  lemma InPiece(x: seq<Event>, p: seq<Event>, y: seq<Event>, m: nat)
    requires m < |x + (p + y)|
    requires var id := (x + (p + y))[m].id; Count(x + (p + y), id) <= 1 && 1 <= Count(p, id)
    ensures |x| <= m < |x| + |p|
  {
    var id := (x + (p + y))[m].id;
    CountAppend(x, p + y, id);
    CountAppend(p, y, id);
    hide Count;
    if m < |x| {
      CountAt(x, m);
    } else if |x| + |p| <= m {
      CountAt(y, m - |x| - |p|);
    }
  }

  /** Everything an earlier child sets off comes before everything that a later child of the same bio sets
   * off, wherever in the submission that bio is. */
  lemma SiblingsInOrder(b: Bio, path: seq<nat>, i: nat, j: nat, m: nat, n: nat)
    requires Distinct(b) && At(b, path).Some?
    requires var d := At(b, path).value;
             && d.passes && d.enters && i < |d.children| && j < |d.children| && Earlier(d, i, j)
             && m < |Submission(b)| && 1 <= Occurs(d.children[i], Submission(b)[m].id)
             && n < |Submission(b)| && 1 <= Occurs(d.children[j], Submission(b)[n].id)
    ensures m < n
  {
    var log, d := Submission(b), At(b, path).value;
    var c, c' := d.children[i], d.children[j];
    HandledExactlyOnce(b, log[m].id);
    HandledExactlyOnce(b, log[n].id);
    HandledExactlyOnce(c, log[m].id);
    HandledExactlyOnce(c', log[n].id);
    var x, y := InnerPiece(b, path);
    var u, v, w := ChildPieces(d, i, j);
    var s, s' := Submission(c), Submission(c');
    hide Submission, Occurs, Count, At, Earlier;
    var rest := v + (s' + w);
    assert log == (x + u) + (s + (rest + y));
    InPiece(x + u, s, rest + y, m);
    assert log == (x + u + s + v) + (s' + (w + y));
    InPiece(x + u + s + v, s', w + y, n);
  }

  /** A bio is handled before all that its children set off. */
  lemma ParentFirst(b: Bio, path: seq<nat>, i: nat, m: nat, n: nat)
    requires Distinct(b) && At(b, path).Some?
    requires var d := At(b, path).value;
             && d.passes && d.enters && i < |d.children|
             && m < |Submission(b)| && Submission(b)[m].id == d.id
             && n < |Submission(b)| && 1 <= Occurs(d.children[i], Submission(b)[n].id)
    ensures m < n
  {
    var log, d := Submission(b), At(b, path).value;
    var c := d.children[i];
    HandledExactlyOnce(b, log[m].id);
    HandledExactlyOnce(b, log[n].id);
    HandledExactlyOnce(c, log[n].id);
    var x, y := InnerPiece(b, path);
    var u, w := ChildPiece(d, i);
    var s := Submission(c);
    CountAt([u[0]], 0);
    hide Submission, Occurs, Count, At;
    assert log == x + ([u[0]] + (u[1..] + (s + (w + y))));
    InPiece(x, [u[0]], u[1..] + (s + (w + y)), m);
    assert log == (x + u) + (s + (w + y));
    InPiece(x + u, s, w + y, n);
  }

  /** What becomes of a bio depends on its checks and its queue alone. */
  lemma Outcome(b: Bio, path: seq<nat>, m: nat)
    requires Distinct(b) && At(b, path).Some? && m < |Submission(b)| && Submission(b)[m].id == At(b, path).value.id
    ensures var d := At(b, path).value;
            Submission(b)[m] == if !d.passes then Refused(d.id) else if !d.enters then Failed(d.id) else Made(d.id)
  {
    var log, d := Submission(b), At(b, path).value;
    HandledExactlyOnce(b, d.id);
    var x, y := InnerPiece(b, path);
    var s := Submission(d);
    assert s != [] && s[0] == if !d.passes then Refused(d.id) else if !d.enters then Failed(d.id) else Made(d.id);
    CountAt([s[0]], 0);
    hide Submission, Occurs, Count, At;
    assert log == x + ([s[0]] + (s[1..] + y));
    InPiece(x, [s[0]], s[1..] + y, m);
  }
}
