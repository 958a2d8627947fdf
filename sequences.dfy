/** The optional value that stands for JavaScript's `null` / `undefined`. */
module Options {
  datatype Option<+T> = None | Some(value: T)
}

/** The array operations the list store applies: `Array.prototype.filter`
    and the pair of `splice` calls that moves one element. */
module Sequences {

  /** `s.filter(keep)`. */
  function Filter<T>(s: seq<T>, keep: T -> bool): (r: seq<T>)
    ensures |r| <= |s|
    ensures forall x :: x in r ==> keep(x)
  {
    if s == [] then []
    else if keep(s[0]) then [s[0]] + Filter(s[1..], keep)
    else Filter(s[1..], keep)
  }

  /** `a` is obtained from `b` by deleting elements: the elements of `a` occur
      in `b` in the same relative order. */
  predicate Subsequence<T(==)>(a: seq<T>, b: seq<T>)
    decreases |b|
  {
    if a == [] then true
    else if b == [] then false
    else (a[0] == b[0] && Subsequence(a[1..], b[1..])) || Subsequence(a, b[1..])
  }

  /** Every element of a subsequence occurs in the sequence. */
  lemma {:induction false} SubsequenceMembers<T>(a: seq<T>, b: seq<T>)
    requires Subsequence(a, b)
    ensures forall x :: x in a ==> x in b
    decreases |b|
  {
    if a != [] {
      if a[0] == b[0] && Subsequence(a[1..], b[1..]) {
        SubsequenceMembers(a[1..], b[1..]);
        assert forall x :: x in a ==> x == a[0] || x in a[1..];
      } else {
        SubsequenceMembers(a, b[1..]);
      }
    }
  }

  /** Filtering keeps exactly the elements the predicate accepts, each as often
      as it occurred, in their original relative order. */
  lemma {:induction false} FilterSpec<T>(s: seq<T>, keep: T -> bool)
    ensures Subsequence(Filter(s, keep), s)
    ensures forall x :: multiset(Filter(s, keep))[x] == if keep(x) then multiset(s)[x] else 0
    ensures forall x :: x in Filter(s, keep) <==> x in s && keep(x)
  {
    if s != [] {
      FilterSpec(s[1..], keep);
      assert s == [s[0]] + s[1..];
      assert multiset(s) == multiset{s[0]} + multiset(s[1..]);
      var r := Filter(s, keep);
      if keep(s[0]) {
        assert r[1..] == Filter(s[1..], keep);
      } else {
        var t := Filter(s[1..], keep);
        if t != [] {
          assert Subsequence(t, s[1..]);
        }
      }
    }
  }

  /** A filter that rejects nothing is the identity. */
  lemma {:induction false} FilterKeepAll<T>(s: seq<T>, keep: T -> bool)
    requires forall i :: 0 <= i < |s| ==> keep(s[i])
    ensures Filter(s, keep) == s
  {
    if s != [] {
      FilterKeepAll(s[1..], keep);
    }
  }

  /** Where `splice(start, 0, x)` inserts into a sequence of length `len`: a
      negative start counts from the end and is clamped at 0, a start past the
      end is clamped to the end. */
  function SpliceStart(start: int, len: nat): (k: nat)
    ensures k <= len
    ensures 0 <= start <= len ==> k == start
  {
    if start < 0 then (if len + start < 0 then 0 else len + start)
    else if start > len then len
    else start
  }

  /** The sequence after `s.splice(from, 1)` followed by `s.splice(to, 0, moved)`:
      remove the element at `from`, then insert it at `to` in what is left. */
  function Moved<T>(s: seq<T>, from: nat, to: int): (r: seq<T>)
    requires from < |s|
    ensures |r| == |s|
    ensures multiset(r) == multiset(s)
    ensures 0 <= to < |s| ==> r[to] == s[from]
  {
    var rest := s[..from] + s[from + 1..];
    var k := SpliceStart(to, |rest|);
    assert s == s[..from] + [s[from]] + s[from + 1..];
    assert multiset(s) == multiset(s[..from]) + multiset{s[from]} + multiset(s[from + 1..]);
    assert rest == rest[..k] + rest[k..];
    assert multiset(rest) == multiset(rest[..k]) + multiset(rest[k..]);
    assert multiset(rest) == multiset(s[..from]) + multiset(s[from + 1..]);
    var r := rest[..k] + [s[from]] + rest[k..];
    assert r == rest[..k] + ([s[from]] + rest[k..]);
    assert multiset(r) == multiset(rest[..k]) + multiset([s[from]] + rest[k..]);
    assert multiset(r) == multiset(rest) + multiset{s[from]};
    r
  }

  /** A move is a remove-then-insert, not a swap: moving forward shifts the
      elements in between one place back, moving backward shifts them one
      place on, and everything outside the range stays where it was. */
  lemma MovedAt<T>(s: seq<T>, from: nat, to: nat)
    requires from < |s| && to < |s|
    ensures forall k :: 0 <= k < |s| && (k < from || k > to) && (k < to || k > from)
              ==> Moved(s, from, to)[k] == s[k]
    ensures from <= to ==> forall k :: from <= k < to ==> Moved(s, from, to)[k] == s[k + 1]
    ensures to <= from ==> forall k :: to < k <= from ==> Moved(s, from, to)[k] == s[k - 1]
    ensures Moved(s, from, to)[to] == s[from]
  {
  }

  /** Moving an element back to where it came from restores the sequence. */
  lemma MoveBack<T>(s: seq<T>, from: nat, to: nat)
    requires from < |s| && to < |s|
    ensures Moved(Moved(s, from, to), to, from) == s
  {
    var rest := s[..from] + s[from + 1..];
    var m := Moved(s, from, to);
    assert m == rest[..to] + [s[from]] + rest[to..];
    assert m[..to] + m[to + 1..] == rest;
    assert rest[..from] == s[..from] && rest[from..] == s[from + 1..];
    assert s == s[..from] + [s[from]] + s[from + 1..];
  }
}
