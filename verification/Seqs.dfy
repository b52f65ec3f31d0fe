/** Equations between sequences that proofs about lists need. */
module Seqs {

  lemma Assoc<T>(a: seq<T>, b: seq<T>, c: seq<T>)
    ensures a + (b + c) == (a + b) + c
  {
  }

  /** Taking the head off a concatenation. */
  lemma Uncons<T>(a: seq<T>, b: seq<T>)
    requires a != []
    ensures a + b != [] && (a + b)[0] == a[0] && (a + b)[1..] == a[1..] + b
  {
  }

  lemma Single<T>(x: T, b: seq<T>)
    ensures ([x] + b)[0] == x && ([x] + b)[1..] == b && [x][1..] == []
  {
  }

  lemma EmptyLeft<T>(b: seq<T>)
    ensures [] + b == b
  {
  }

  /** Around position `k`. */
  lemma Around<T>(s: seq<T>, k: nat)
    requires k < |s|
    ensures s == s[..k] + ([s[k]] + s[k + 1..])
  {
  }

  lemma Regroup<T>(a: seq<T>, b: seq<T>, c: seq<T>, d: seq<T>)
    ensures a + (b + c) + d == a + b + (c + d)
  {
  }

  lemma RegroupAround<T>(a: seq<T>, b: seq<T>, m: seq<T>, c: seq<T>, d: seq<T>)
    ensures a + (b + m + c) + d == (a + b) + m + (c + d)
  {
  }

  /** A middle part that is itself in pieces. */
  lemma Within<T>(pre: seq<T>, a: seq<T>, x: seq<T>, b: seq<T>, post: seq<T>)
    ensures pre + ((a + (x + b)) + post) == (pre + a) + (x + (b + post))
  {
    Assoc(pre, a, x + (b + post));
    Assoc(a, x + b, post);
    Assoc(x, b, post);
  }
}
