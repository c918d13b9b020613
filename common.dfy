/** Small helpers shared by every part of the model: an Option type, the
    character classes the source's regular expressions use, and first-match
    lookup and filtering over sequences (the store's `findOne`, `find` and
    `filter`). */
module Common {

  datatype Option<T> = None | Some(value: T)

  predicate IsDigit(c: char) { '0' <= c <= '9' }

  /** `[A-Za-z]` in the source's regular expressions. */
  predicate IsLetter(c: char) { 'a' <= c <= 'z' || 'A' <= c <= 'Z' }

  function LowerChar(c: char): (r: char)
    ensures 'A' <= c <= 'Z' ==> 'a' <= r <= 'z'
    ensures !('A' <= c <= 'Z') ==> r == c
  {
    if 'A' <= c <= 'Z' then (c as int + 32) as char else c
  }

  /** `String.prototype.toLowerCase`, restricted to ASCII letters. */
  function ToLower(s: string): (r: string)
    ensures |r| == |s|
    ensures forall i :: 0 <= i < |s| ==> r[i] == LowerChar(s[i])
  {
    seq(|s|, i requires 0 <= i < |s| => LowerChar(s[i]))
  }

  /** Index of the first element satisfying `p`, as `Array.prototype.find`
      and a store's `findOne` return the first match. */
  function FirstWhere<T>(s: seq<T>, p: T -> bool): (r: Option<nat>)
    ensures r.Some? ==> r.value < |s| && p(s[r.value])
    ensures r.Some? ==> forall k :: 0 <= k < r.value ==> !p(s[k])
    ensures r.None? ==> forall k :: 0 <= k < |s| ==> !p(s[k])
  {
    if s == [] then None
    else if p(s[0]) then Some(0)
    else match FirstWhere(s[1..], p)
      case None => None
      case Some(k) => Some(k + 1)
  }

  /** `Array.prototype.filter`. */
  function Filter<T>(s: seq<T>, p: T -> bool): (r: seq<T>)
    ensures |r| <= |s|
    ensures forall i :: 0 <= i < |r| ==> r[i] in s && p(r[i])
    ensures forall i :: 0 <= i < |s| && p(s[i]) ==> s[i] in r
  {
    if s == [] then []
    else Filter(s[..|s| - 1], p) + (if p(s[|s| - 1]) then [s[|s| - 1]] else [])
  }

  lemma FilterAppend<T>(a: seq<T>, b: seq<T>, p: T -> bool)
    ensures Filter(a + b, p) == Filter(a, p) + Filter(b, p)
    decreases |b|
  {
    if b == [] {
      assert a + b == a;
    } else {
      var b' := b[..|b| - 1];
      assert (a + b)[..|a + b| - 1] == a + b';
      FilterAppend(a, b', p);
    }
  }

  /** Filtering by a predicate and by its negation splits a sequence into
      two parts that together hold exactly its elements. */
  lemma {:induction false} FilterPartition<T>(s: seq<T>, p: T -> bool)
    ensures multiset(Filter(s, p)) + multiset(Filter(s, Not(p))) == multiset(s)
  {
    var q := Not(p);
    if s != [] {
      var s', last := s[..|s| - 1], s[|s| - 1];
      FilterPartition(s', p);
      var fp, fq := Filter(s', p), Filter(s', q);
      assert s == s' + [last];
      assert multiset(s) == multiset(s') + multiset{last};
      if p(last) {
        assert Filter(s, p) == fp + [last];
        assert Filter(s, q) == fq;
      } else {
        assert Filter(s, p) == fp;
        assert Filter(s, q) == fq + [last];
      }
    }
  }

  function Not<T>(p: T -> bool): T -> bool { x => !p(x) }

  /** True when no element occurs twice. */
  predicate NoDuplicates<T(==)>(s: seq<T>) {
    forall i, j :: 0 <= i < j < |s| ==> s[i] != s[j]
  }

  /** `n` copies of `x`. */
  function Repeat<T>(x: T, n: nat): (r: seq<T>)
    ensures |r| == n
    ensures forall i :: 0 <= i < n ==> r[i] == x
  {
    if n == 0 then [] else Repeat(x, n - 1) + [x]
  }

  /** The writes a pass queues for the elements `f` changes: each element's
      index and its new value, in order. */
  function Pending<T(==)>(xs: seq<T>, f: T -> T): (ups: seq<(nat, T)>)
    ensures |ups| <= |xs|
    ensures forall m :: 0 <= m < |ups| ==> ups[m].0 < |xs| && ups[m].1 == f(xs[ups[m].0])
  {
    if xs == [] then []
    else
      var prev := Pending(xs[..|xs| - 1], f);
      var last := xs[|xs| - 1];
      if f(last) != last then prev + [(|xs| - 1, f(last))] else prev
  }

  /** The queue lists exactly the indices of the elements `f` changes, each
      once and in increasing order. */
  lemma PendingMembers<T>(xs: seq<T>, f: T -> T)
    ensures Increasing(Pending(xs, f)) && OnlyChanged(xs, f, Pending(xs, f))
    ensures Queued(xs, f, Pending(xs, f))
  {
    PendingIncreasing(xs, f);
    PendingComplete(xs, f);
  }

  /** The indices of the writes increase strictly. */
  predicate Increasing<T>(ups: seq<(nat, T)>) {
    forall m, m' :: 0 <= m < m' < |ups| ==> ups[m].0 < ups[m'].0
  }

  /** Every write is at an index whose element `f` changes. */
  predicate OnlyChanged<T(==)>(xs: seq<T>, f: T -> T, ups: seq<(nat, T)>) {
    forall m :: 0 <= m < |ups| ==> ups[m].0 < |xs| && f(xs[ups[m].0]) != xs[ups[m].0]
  }

  lemma {:induction false} PendingIncreasing<T>(xs: seq<T>, f: T -> T)
    ensures Increasing(Pending(xs, f)) && OnlyChanged(xs, f, Pending(xs, f))
  {
    if xs != [] {
      var n := |xs| - 1;
      PendingIncreasing(xs[..n], f);
      var prev := Pending(xs[..n], f);
      var ups := Pending(xs, f);
      assert ups == prev + if f(xs[n]) != xs[n] then [(n, f(xs[n]))] else [];
      forall m | 0 <= m < |ups|
        ensures ups[m].0 < |xs| && f(xs[ups[m].0]) != xs[ups[m].0]
      {
        if m < |prev| {
          assert ups[m] == prev[m];
          assert xs[prev[m].0] == xs[..n][prev[m].0];
        } else {
          assert ups[m] == (n, f(xs[n]));
        }
      }
      forall m, m' | 0 <= m < m' < |ups|
        ensures ups[m].0 < ups[m'].0
      {
        assert ups[m] == prev[m];
        if m' < |prev| {
          assert ups[m'] == prev[m'];
        } else {
          assert ups[m'].0 == n;
        }
      }
    }
  }

  /** Every index whose element `f` changes has a queued write. */
  predicate Queued<T(==)>(xs: seq<T>, f: T -> T, ups: seq<(nat, T)>) {
    forall k :: 0 <= k < |xs| && f(xs[k]) != xs[k] ==> exists m :: 0 <= m < |ups| && ups[m].0 == k
  }

  lemma {:induction false} PendingComplete<T>(xs: seq<T>, f: T -> T)
    ensures Queued(xs, f, Pending(xs, f))
  {
    if xs != [] {
      var n := |xs| - 1;
      PendingComplete(xs[..n], f);
      var prev := Pending(xs[..n], f);
      var ups := Pending(xs, f);
      assert ups == prev + if f(xs[n]) != xs[n] then [(n, f(xs[n]))] else [];
      forall k | 0 <= k < |xs| && f(xs[k]) != xs[k]
        ensures exists m :: 0 <= m < |ups| && ups[m].0 == k
      {
        if k < n {
          assert xs[..n][k] == xs[k];
          var m :| 0 <= m < |prev| && prev[m].0 == k;
          assert ups[m] == prev[m];
        } else {
          assert ups[|prev|].0 == k;
        }
      }
    }
  }

  /** The queued writes, applied in order: each one replaces the element at
      its index. */
  function Overwrite<T>(xs: seq<T>, ups: seq<(nat, T)>): (ys: seq<T>)
    ensures |ys| == |xs|
  {
    if ups == [] then xs
    else
      var ys := Overwrite(xs, ups[..|ups| - 1]);
      var (i, v) := ups[|ups| - 1];
      if i < |ys| then ys[i := v] else ys
  }

  /** The queue over one more element. */
  lemma PendingSnoc<T>(xs: seq<T>, f: T -> T, k: nat)
    requires k < |xs|
    ensures Pending(xs[..k + 1], f)
         == Pending(xs[..k], f) + if f(xs[k]) != xs[k] then [(k, f(xs[k]))] else []
  {
    assert xs[..k + 1][..k] == xs[..k];
  }

  /** The writes applied up to one more. */
  lemma OverwriteSnoc<T>(xs: seq<T>, ups: seq<(nat, T)>, n: nat)
    requires n < |ups|
    ensures Overwrite(xs, ups[..n + 1])
         == var ys := Overwrite(xs, ups[..n]);
            if ups[n].0 < |ys| then ys[ups[n].0 := ups[n].1] else ys
  {
    assert ups[..n + 1][..n] == ups[..n];
  }

  /** Applying the writes queued for the first `k` elements replaces each
      of them by its image and leaves the rest alone. */
  lemma {:induction false} OverwritePending<T>(xs: seq<T>, f: T -> T, k: nat)
    requires k <= |xs|
    ensures forall m :: 0 <= m < |xs| ==> Overwrite(xs, Pending(xs[..k], f))[m] == (if m < k then f(xs[m]) else xs[m])
  {
    if k > 0 {
      OverwritePending(xs, f, k - 1);
      var prev := Pending(xs[..k - 1], f);
      assert xs[..k][..k - 1] == xs[..k - 1];
      if f(xs[k - 1]) != xs[k - 1] {
        var ups := prev + [(k - 1, f(xs[k - 1]))];
        assert ups[..|ups| - 1] == prev;
      }
    }
  }

  /** A pass whose function changes no element queues nothing. */
  lemma {:induction false} NothingPending<T>(xs: seq<T>, f: T -> T)
    requires forall m :: 0 <= m < |xs| ==> f(xs[m]) == xs[m]
    ensures Pending(xs, f) == []
  {
    if xs != [] {
      NothingPending(xs[..|xs| - 1], f);
    }
  }
}
