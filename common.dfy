/** Small value types and sequence facts shared by every part of the model. */
module Common {

  datatype Option<T> = None | Some(value: T)

  datatype Result<T, E> = Ok(value: T) | Err(error: E)

  /** `r` can be obtained from `s` by deleting elements: the order of what is kept is preserved. */
  predicate IsSubsequence<T(==)>(r: seq<T>, s: seq<T>)
    decreases |s|
  {
    if r == [] then true
    else if s == [] then false
    else (r[0] == s[0] && IsSubsequence(r[1..], s[1..])) || IsSubsequence(r, s[1..])
  }

  /** Boolean-mask selection (`df[mask]`, `dropna`): the elements of `s` for which `p` holds, in order. */
  function Keep<T(==,!new)>(s: seq<T>, p: T -> bool): (r: seq<T>)
    ensures |r| <= |s|
    ensures forall x :: multiset(r)[x] == if p(x) then multiset(s)[x] else 0
    ensures forall x :: x in r <==> x in s && p(x)
    ensures IsSubsequence(r, s)
  {
    if s == [] then []
    else
      var rest := Keep(s[1..], p);
      assert s == [s[0]] + s[1..];
      if p(s[0]) then
        var r := [s[0]] + rest;
        assert r[1..] == rest;
        r
      else rest
  }

  /** Selecting with a predicate that every element satisfies changes nothing. */
  lemma {:induction false} KeepAll<T(!new)>(s: seq<T>, p: T -> bool)
    requires forall i :: 0 <= i < |s| ==> p(s[i])
    ensures Keep(s, p) == s
  {
    if s != [] {
      KeepAll(s[1..], p);
    }
  }

  /** Selecting with a predicate that no element satisfies keeps nothing. */
  lemma {:induction false} KeepNone<T(!new)>(s: seq<T>, p: T -> bool)
    requires forall i :: 0 <= i < |s| ==> !p(s[i])
    ensures Keep(s, p) == []
  {
    if s != [] {
      KeepNone(s[1..], p);
    }
  }

  /** Splitting a selection by two mutually exclusive predicates splits its size. */
  lemma {:induction false} KeepSplit<T(!new)>(s: seq<T>, p: T -> bool, q: T -> bool, both: T -> bool)
    requires forall i :: 0 <= i < |s| ==> (both(s[i]) <==> p(s[i]) || q(s[i]))
    requires forall i :: 0 <= i < |s| ==> !(p(s[i]) && q(s[i]))
    ensures |Keep(s, p)| + |Keep(s, q)| == |Keep(s, both)|
  {
    if s != [] {
      KeepSplit(s[1..], p, q, both);
    }
  }

  /** Selecting twice is selecting with the conjunction. */
  lemma {:induction false} KeepKeep<T(!new)>(s: seq<T>, p: T -> bool, q: T -> bool, both: T -> bool)
    requires forall i :: 0 <= i < |s| ==> (both(s[i]) <==> p(s[i]) && q(s[i]))
    ensures Keep(Keep(s, p), q) == Keep(s, both)
  {
    if s != [] {
      KeepKeep(s[1..], p, q, both);
    }
  }

  /** If the first `n` elements fail the predicate, at most `|s| - n` elements are kept. */
  lemma {:induction false} KeepSkipsPrefix<T(!new)>(s: seq<T>, p: T -> bool, n: nat)
    requires n <= |s|
    requires forall i :: 0 <= i < n ==> !p(s[i])
    ensures |Keep(s, p)| <= |s| - n
  {
    if n > 0 {
      KeepSkipsPrefix(s[1..], p, n - 1);
    }
  }

  /** A sequence of `n` copies of `x`. */
  function Repeat<T>(x: T, n: nat): (r: seq<T>)
    ensures |r| == n && forall i :: 0 <= i < n ==> r[i] == x
  {
    if n == 0 then [] else [x] + Repeat(x, n - 1)
  }
}
