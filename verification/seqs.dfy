/**
 Order-preserving selection from a sequence, the shape of JavaScript's
 `Array.prototype.filter`, together with the notion of subsequence it
 produces.
 */
module Seqs {

  /** `a` is obtained from `b` by deleting some elements, keeping the order of the rest. */
  ghost predicate IsSubsequence<T>(a: seq<T>, b: seq<T>)
    decreases |b|
  {
    if a == [] then true
    else if b == [] then false
    else (a[0] == b[0] && IsSubsequence(a[1..], b[1..])) || IsSubsequence(a, b[1..])
  }

  /** The number of elements of `s` that satisfy `p`. */
  function Count<T>(s: seq<T>, p: T -> bool): (n: nat)
    ensures n <= |s|
    ensures n == |s| <==> forall i :: 0 <= i < |s| ==> p(s[i])
    ensures n == 0 <==> forall i :: 0 <= i < |s| ==> !p(s[i])
  {
    if s == [] then 0
    else
      var n := (if p(s[0]) then 1 else 0) + Count(s[1..], p);
      assert forall i :: 1 <= i < |s| ==> s[i] == s[1..][i - 1];
      n
  }

  /**
   `filter`: the elements of `s` that satisfy `p`, in their original order.
   Every kept element satisfies `p`, every element satisfying `p` is kept with
   all its occurrences, and when nothing fails `p` the sequence comes back whole.
   */
  function Keep<T(!new)>(s: seq<T>, p: T -> bool): (r: seq<T>)
    ensures |r| == Count(s, p)
    ensures forall i :: 0 <= i < |r| ==> p(r[i])
    ensures forall x {:trigger x in r} :: x in r <==> x in s && p(x)
    ensures forall x {:trigger multiset(r)[x]} :: multiset(r)[x] == if p(x) then multiset(s)[x] else 0
    ensures IsSubsequence(r, s)
    ensures (forall i :: 0 <= i < |s| ==> p(s[i])) ==> r == s
  {
    if s == [] then []
    else
      var tail := Keep(s[1..], p);
      KeepStep(s, p, tail);
      if p(s[0]) then [s[0]] + tail else tail
  }

  /** The step of `Keep`: a correct selection from the tail extends to one from the whole sequence. */
  lemma KeepStep<T(!new)>(s: seq<T>, p: T -> bool, tail: seq<T>)
    requires s != []
    requires |tail| == Count(s[1..], p)
    requires forall i :: 0 <= i < |tail| ==> p(tail[i])
    requires forall x {:trigger x in tail} :: x in tail <==> x in s[1..] && p(x)
    requires forall x {:trigger multiset(tail)[x]} :: multiset(tail)[x] == if p(x) then multiset(s[1..])[x] else 0
    requires IsSubsequence(tail, s[1..])
    requires (forall i :: 0 <= i < |s[1..]| ==> p(s[1..][i])) ==> tail == s[1..]
    ensures var r := if p(s[0]) then [s[0]] + tail else tail;
      && |r| == Count(s, p)
      && (forall i :: 0 <= i < |r| ==> p(r[i]))
      && (forall x {:trigger x in r} :: x in r <==> x in s && p(x))
      && (forall x {:trigger multiset(r)[x]} :: multiset(r)[x] == if p(x) then multiset(s)[x] else 0)
      && IsSubsequence(r, s)
      && ((forall i :: 0 <= i < |s| ==> p(s[i])) ==> r == s)
  {
    var x, rest := s[0], s[1..];
    assert s == [x] + rest;
    assert multiset(s) == multiset{x} + multiset(rest);
    if p(x) {
      var r := [x] + tail;
      assert r[1..] == tail;
      forall i | 1 <= i < |r| ensures r[i] == tail[i - 1] { }
      assert multiset(r) == multiset{x} + multiset(tail);
      if forall i :: 0 <= i < |s| ==> p(s[i]) {
        forall i | 0 <= i < |rest| ensures p(rest[i]) {
          assert rest[i] == s[i + 1];
        }
      }
    } else {
      SubsequenceOfTail(tail, s);
    }
  }

  /** One step of `Keep`: the head is kept exactly when it satisfies `p`. */
  lemma KeepCons<T(!new)>(x: T, s: seq<T>, p: T -> bool)
    ensures Keep([x] + s, p) == if p(x) then [x] + Keep(s, p) else Keep(s, p)
  {
    assert ([x] + s)[1..] == s;
  }

  /** Dropping the head of the longer sequence keeps a subsequence relation. */
  lemma SubsequenceOfTail<T>(a: seq<T>, b: seq<T>)
    requires b != [] && IsSubsequence(a, b[1..])
    ensures IsSubsequence(a, b)
  {
  }

  /** A subsequence of `s` made only of elements satisfying `p` has at most `Count(s, p)` elements. */
  lemma {:induction false} SubsequenceCountBound<T>(t: seq<T>, s: seq<T>, p: T -> bool)
    requires IsSubsequence(t, s)
    requires forall i :: 0 <= i < |t| ==> p(t[i])
    ensures |t| <= Count(s, p)
    decreases |s|
  {
    if t != [] {
      if t[0] == s[0] && IsSubsequence(t[1..], s[1..]) {
        SubsequenceCountBound(t[1..], s[1..], p);
      } else {
        SubsequenceCountBound(t, s[1..], p);
      }
    }
  }

  /**
   `Keep(s, p)` is the only subsequence of `s` that consists of elements
   satisfying `p` and is as long as the number of such elements in `s`.
   */
  lemma {:induction false} KeepIsUnique<T(!new)>(s: seq<T>, p: T -> bool, t: seq<T>)
    requires IsSubsequence(t, s)
    requires forall i :: 0 <= i < |t| ==> p(t[i])
    requires |t| == Count(s, p)
    ensures t == Keep(s, p)
    decreases |s|
  {
    if s == [] {
      return;
    }
    if t == [] {
      return;
    }
    if p(s[0]) {
      if t[0] == s[0] && IsSubsequence(t[1..], s[1..]) {
        KeepIsUnique(s[1..], p, t[1..]);
      } else {
        SubsequenceCountBound(t, s[1..], p);
        assert false;
      }
    } else {
      assert t[0] != s[0];
      KeepIsUnique(s[1..], p, t);
    }
  }

  /** Two predicates that agree everywhere select the same elements. */
  lemma {:induction false} KeepAgreeing<T(!new)>(s: seq<T>, p: T -> bool, q: T -> bool)
    requires forall x :: p(x) == q(x)
    ensures Keep(s, p) == Keep(s, q)
  {
    if s != [] {
      KeepAgreeing(s[1..], p, q);
    }
  }

  /** When `q` is the negation of `p`, every element is counted by exactly one of them. */
  lemma {:induction false} CountComplement<T>(s: seq<T>, p: T -> bool, q: T -> bool)
    requires forall x :: q(x) == !p(x)
    ensures Count(s, p) + Count(s, q) == |s|
  {
    if s != [] {
      CountComplement(s[1..], p, q);
    }
  }
}
