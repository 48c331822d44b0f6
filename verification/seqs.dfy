/**
  Generic facts about sequences used across the model: list comprehensions
  with a condition (`Keep`), a chain of such comprehensions (`FilterChain`),
  subsequences, duplicate-freedom, `list(set(xs))` and `xs.count(x)`.
 */
module Seqs {

  /** No element occurs twice. */
  predicate NoDup<T(==,!new)>(s: seq<T>) {
    forall i, j :: 0 <= i < j < |s| ==> s[i] != s[j]
  }

  /** `a` is obtained from `b` by deleting elements, keeping the order of the rest. */
  predicate IsSubsequence<T(==,!new)>(a: seq<T>, b: seq<T>)
    decreases |b|
  {
    a == [] || (b != [] && ((a[0] == b[0] && IsSubsequence(a[1..], b[1..])) || IsSubsequence(a, b[1..])))
  }

  /** `[x for x in s if p(x)]`. */
  function Keep<T(==,!new)>(s: seq<T>, p: T -> bool): (r: seq<T>)
    ensures |r| <= |s|
    ensures forall x :: x in r <==> x in s && p(x)
    ensures IsSubsequence(r, s)
    ensures NoDup(s) ==> NoDup(r)
  {
    if s == [] then []
    else
      var rest := Keep(s[1..], p);
      if p(s[0]) then
        assert forall i :: 0 < i < |s| ==> s[i] == s[1..][i - 1];
        assert NoDup(s) ==> s[0] !in s[1..];
        assert ([s[0]] + rest)[1..] == rest;
        [s[0]] + rest
      else
        rest
  }

  /** Keeping every element that satisfies the condition anyway changes nothing. */
  lemma {:induction false} KeepEverything<T(!new)>(s: seq<T>, p: T -> bool)
    requires forall i :: 0 <= i < |s| ==> p(s[i])
    ensures Keep(s, p) == s
  {
    if s != [] {
      KeepEverything(s[1..], p);
    }
  }

  /** Comprehension distributes over appending one element: it is a left-to-right loop. */
  lemma {:induction false} KeepSnoc<T(!new)>(s: seq<T>, x: T, p: T -> bool)
    ensures Keep(s + [x], p) == Keep(s, p) + (if p(x) then [x] else [])
  {
    if s == [] {
      assert [x][1..] == [];
    } else {
      assert (s + [x])[1..] == s[1..] + [x];
      KeepSnoc(s[1..], x, p);
    }
  }

  /** Two comprehensions in a row keep what one comprehension with both conditions keeps. */
  lemma {:induction false} KeepKeep<T(!new)>(s: seq<T>, p: T -> bool, q: T -> bool, pq: T -> bool)
    requires forall x :: pq(x) == (p(x) && q(x))
    ensures Keep(Keep(s, p), q) == Keep(s, pq)
  {
    if s != [] {
      KeepKeep(s[1..], p, q, pq);
      if p(s[0]) {
        assert Keep(s, p)[0] == s[0] && Keep(s, p)[1..] == Keep(s[1..], p);
      }
    }
  }

  /** Every condition of the list holds of `x`. */
  predicate AllHold<T(==,!new)>(ps: seq<T -> bool>, x: T) {
    forall i :: 0 <= i < |ps| ==> ps[i](x)
  }

  /** A condition list that holds of `x` is a head that holds of `x` and a tail that holds of `x`. */
  lemma AllHoldAppend<T(!new)>(ps: seq<T -> bool>, qs: seq<T -> bool>, x: T)
    ensures AllHold(ps + qs, x) <==> AllHold(ps, x) && AllHold(qs, x)
  {
    assert forall i :: 0 <= i < |ps| ==> (ps + qs)[i] == ps[i];
    assert forall i :: |ps| <= i < |ps| + |qs| ==> (ps + qs)[i] == qs[i - |ps|];
    if AllHold(ps, x) && AllHold(qs, x) {
      forall i | 0 <= i < |ps + qs| ensures (ps + qs)[i](x) {
        if i >= |ps| {
          assert qs[i - |ps|](x);
        }
      }
    }
    if AllHold(ps + qs, x) {
      forall i | 0 <= i < |qs| ensures qs[i](x) {
        assert (ps + qs)[|ps| + i] == qs[i];
      }
    }
  }

  /** The comprehensions of `ps` applied one after another, in list order. */
  function FilterChain<T(==,!new)>(s: seq<T>, ps: seq<T -> bool>): (r: seq<T>)
    ensures IsSubsequence(r, s)
    ensures forall x :: x in r <==> x in s && AllHold(ps, x)
    ensures NoDup(s) ==> NoDup(r)
    decreases |ps|
  {
    if ps == [] then
      IsSubsequenceReflexive(s);
      s
    else
      var r := FilterChain(Keep(s, ps[0]), ps[1..]);
      IsSubsequenceTransitive(r, Keep(s, ps[0]), s);
      assert forall x :: AllHold(ps, x) <==> ps[0](x) && AllHold(ps[1..], x) by {
        forall x ensures AllHold(ps, x) <==> ps[0](x) && AllHold(ps[1..], x) {
          assert forall i :: 1 <= i < |ps| ==> ps[i] == ps[1..][i - 1];
        }
      }
      r
  }

  /** A chain of comprehensions is one comprehension with the conjunction of their conditions. */
  lemma {:induction false} FilterChainIsOnePass<T(!new)>(s: seq<T>, ps: seq<T -> bool>, all: T -> bool)
    requires forall x :: all(x) == AllHold(ps, x)
    ensures FilterChain(s, ps) == Keep(s, all)
    decreases |ps|
  {
    if ps == [] {
      KeepEverything(s, all);
    } else {
      var tail := (x: T) => AllHold(ps[1..], x);
      FilterChainIsOnePass(Keep(s, ps[0]), ps[1..], tail);
      forall x ensures all(x) == (ps[0](x) && tail(x)) {
        assert forall i :: 1 <= i < |ps| ==> ps[i] == ps[1..][i - 1];
      }
      KeepKeep(s, ps[0], tail, all);
    }
  }

  /** Every sequence is a subsequence of itself. */
  lemma {:induction false} IsSubsequenceReflexive<T(!new)>(s: seq<T>)
    ensures IsSubsequence(s, s)
  {
    if s != [] {
      IsSubsequenceReflexive(s[1..]);
    }
  }

  /** Being a subsequence is transitive. */
  lemma {:induction false} IsSubsequenceTransitive<T(!new)>(a: seq<T>, b: seq<T>, c: seq<T>)
    requires IsSubsequence(a, b) && IsSubsequence(b, c)
    ensures IsSubsequence(a, c)
    decreases |c|
  {
    if a == [] {
    } else if b[0] == c[0] && IsSubsequence(b[1..], c[1..]) {
      if a[0] == b[0] && IsSubsequence(a[1..], b[1..]) {
        IsSubsequenceTransitive(a[1..], b[1..], c[1..]);
      } else {
        IsSubsequenceTransitive(a, b[1..], c[1..]);
      }
    } else {
      IsSubsequenceTransitive(a, b, c[1..]);
    }
  }

  /** `list(set(s))`, with the order fixed to first occurrence. */
  function Dedup<T(==,!new)>(s: seq<T>): (r: seq<T>)
    ensures NoDup(r)
    ensures forall x :: x in r <==> x in s
  {
    if s == [] then []
    else
      var r := Dedup(s[..|s| - 1]);
      assert s == s[..|s| - 1] + [s[|s| - 1]];
      if s[|s| - 1] in r then r else r + [s[|s| - 1]]
  }

  /** `s.count(x)`. */
  function Count<T(==,!new)>(s: seq<T>, x: T): nat {
    if s == [] then 0 else (if s[0] == x then 1 else 0) + Count(s[1..], x)
  }

  /** An element counted at most once everywhere is exactly a duplicate-free sequence. */
  lemma {:induction false} NoDupIffCountsAtMostOne<T(!new)>(s: seq<T>)
    ensures NoDup(s) <==> forall x :: x in s ==> Count(s, x) <= 1
  {
    if s != [] {
      NoDupIffCountsAtMostOne(s[1..]);
      assert forall i :: 0 < i < |s| ==> s[i] == s[1..][i - 1];
      CountPositiveIffIn(s[1..], s[0]);
      if NoDup(s) {
        forall x | x in s ensures Count(s, x) <= 1 {
          if x != s[0] {
            assert x in s[1..];
          }
        }
      } else {
        var i, j :| 0 <= i < j < |s| && s[i] == s[j];
        if i == 0 {
          assert s[0] in s[1..];
          assert Count(s, s[0]) >= 2;
        } else {
          assert s[1..][i - 1] == s[1..][j - 1];
          assert !NoDup(s[1..]);
          var x :| x in s[1..] && Count(s[1..], x) > 1;
          assert Count(s, x) > 1;
        }
      }
    }
  }

  /** `x` is counted exactly when it occurs. */
  lemma {:induction false} CountPositiveIffIn<T(!new)>(s: seq<T>, x: T)
    ensures Count(s, x) > 0 <==> x in s
  {
    if s != [] {
      CountPositiveIffIn(s[1..], x);
      assert s == [s[0]] + s[1..];
    }
  }

  /** `d[k] = v` for each key and value in turn, starting from an empty dict. */
  function StoreAll<K(==), V>(ks: seq<K>, vs: seq<V>): (m: map<K, V>)
    requires |ks| == |vs|
    ensures m.Keys == set k | k in ks
  {
    if ks == [] then map[]
    else
      var front := ks[..|ks| - 1];
      assert ks == front + [ks[|ks| - 1]];
      StoreAll(front, vs[..|vs| - 1])[ks[|ks| - 1] := vs[|vs| - 1]]
  }

  /** No later key equals key `i`. */
  ghost predicate LastOccurrence<K>(ks: seq<K>, i: int) {
    0 <= i < |ks| && forall j :: i < j < |ks| ==> ks[j] != ks[i]
  }

  /** A key stored several times holds the value stored last. */
  lemma {:induction false} StoreAllLastWins<K, V>(ks: seq<K>, vs: seq<V>, i: int)
    requires |ks| == |vs| && LastOccurrence(ks, i)
    ensures StoreAll(ks, vs)[ks[i]] == vs[i]
  {
    var n := |ks| - 1;
    if i < n {
      var front := ks[..n];
      assert front[i] == ks[i];
      assert LastOccurrence(front, i) by {
        assert forall j :: i < j < n ==> front[j] == ks[j];
      }
      StoreAllLastWins(front, vs[..n], i);
      assert vs[..n][i] == vs[i];
    }
  }
}
