// Rearranged sequences: what mapping, repetition and sorting make of them.
module Permutations {
  /** Every element's contribution, side by side. */
  function FlatMap<S, T>(s: seq<S>, f: S -> seq<T>): seq<T> {
    if s == [] then [] else FlatMap(s[..|s| - 1], f) + f(s[|s| - 1])
  }

  lemma {:induction false} FlatMapMembers<S, T>(s: seq<S>, f: S -> seq<T>, x: T)
    ensures x in FlatMap(s, f) <==> exists i :: 0 <= i < |s| && x in f(s[i])
  {
    if s != [] {
      var init := s[..|s| - 1];
      FlatMapMembers(init, f, x);
      if x in FlatMap(init, f) {
        var i :| 0 <= i < |init| && x in f(init[i]);
        assert x in f(s[i]);
      }
      if i :| 0 <= i < |s| && x in f(s[i]) {
        assert i == |s| - 1 || x in f(init[i]);
      }
    }
  }

  lemma FlatMapSnoc<S, T>(s: seq<S>, i: nat, f: S -> seq<T>)
    requires i < |s|
    ensures FlatMap(s[..i + 1], f) == FlatMap(s[..i], f) + f(s[i])
  {
    assert s[..i + 1][..i] == s[..i];
  }

  /** A prefix contributes a part of what the whole contributes. */
  lemma {:induction false} FlatMapPrefix<S, T>(s: seq<S>, n: nat, f: S -> seq<T>)
    requires n <= |s|
    ensures FlatMap(s[..n], f) <= FlatMap(s, f)
  {
    if n == |s| {
      assert s[..n] == s;
    } else {
      FlatMapPrefix(s[..|s| - 1], n, f);
      assert s[..|s| - 1][..n] == s[..n];
    }
  }

  lemma {:induction false} FlatMapConcat<S, T>(s: seq<S>, t: seq<S>, f: S -> seq<T>)
    ensures FlatMap(s + t, f) == FlatMap(s, f) + FlatMap(t, f)
  {
    if t == [] {
      assert s + t == s;
    } else {
      var init := t[..|t| - 1];
      FlatMapConcat(s, init, f);
      assert (s + t)[..|s + t| - 1] == s + init;
    }
  }

  lemma FlatMapMiddle<S, T>(before: seq<S>, x: S, after: seq<S>, f: S -> seq<T>)
    ensures multiset(FlatMap(before + [x] + after, f)) == multiset(FlatMap(before + after, f)) + multiset(f(x))
  {
    FlatMapConcat(before + [x], after, f);
    FlatMapConcat(before, after, f);
    assert (before + [x])[..|before|] == before;
    assert FlatMap(before + [x], f) == FlatMap(before, f) + f(x);
  }

  lemma RemoveAt<S>(t: seq<S>, k: nat)
    requires k < |t|
    ensures t == t[..k] + [t[k]] + t[k + 1..]
    ensures multiset(t[..k] + t[k + 1..]) == multiset(t) - multiset{t[k]}
  {
    assert t == t[..k] + [t[k]] + t[k + 1..];
  }

  lemma SameSize<S>(s: seq<S>, t: seq<S>)
    requires multiset(s) == multiset(t)
    ensures |s| == |t|
  {
    assert |multiset(s)| == |s| && |multiset(t)| == |t|;
  }

  /** Rearranging the elements rearranges what they contribute. */
  lemma {:induction false} FlatMapPermutes<S, T>(s: seq<S>, t: seq<S>, f: S -> seq<T>)
    requires multiset(s) == multiset(t)
    ensures multiset(FlatMap(s, f)) == multiset(FlatMap(t, f))
    decreases |s|
  {
    SameSize(s, t);
    if s != [] {
      var x := s[|s| - 1];
      var init := s[..|s| - 1];
      assert s == init + [x];
      assert x in multiset(t);
      var k :| 0 <= k < |t| && t[k] == x;
      RemoveAt(t, k);
      assert multiset(s) == multiset(init) + multiset{x};
      FlatMapPermutes(init, t[..k] + t[k + 1..], f);
      FlatMapMiddle(t[..k], x, t[k + 1..], f);
    }
  }

  /* ---------- repetition ---------- */

  predicate NoRepeats<T(==)>(s: seq<T>) {
    forall i, j :: 0 <= i < j < |s| ==> s[i] != s[j]
  }

  lemma {:induction false} NoRepeatsCount<T>(s: seq<T>)
    ensures NoRepeats(s) <==> forall x :: multiset(s)[x] <= 1
  {
    if s != [] {
      var init, last := s[..|s| - 1], s[|s| - 1];
      assert s == init + [last];
      NoRepeatsCount(init);
      if NoRepeats(s) {
        assert last !in init;
        assert last !in multiset(init);
      } else if NoRepeats(init) {
        var i :| 0 <= i < |init| && s[i] == last;
        assert last in init;
        assert multiset(s)[last] >= 2;
      } else {
        var x :| multiset(init)[x] > 1;
        assert multiset(s)[x] > 1;
      }
    }
  }

  /** A part of a list without repetitions has none. */
  lemma PartNoRepeats<T>(s: seq<T>, t: seq<T>)
    requires multiset(s) <= multiset(t) && NoRepeats(t)
    ensures NoRepeats(s) && forall x :: x in s ==> x in t
  {
    NoRepeatsCount(s);
    NoRepeatsCount(t);
    forall x | x in s
      ensures x in t
    {
      assert x in multiset(s);
    }
  }

  lemma {:induction false} SetSize<T>(s: seq<T>, all: set<T>)
    requires NoRepeats(s) && forall x :: x in s <==> x in all
    ensures |s| == |all|
  {
    if s != [] {
      var init, last := s[..|s| - 1], s[|s| - 1];
      assert s == init + [last];
      SetSize(init, all - {last});
    }
  }

  lemma NoRepeatsPermutes<T>(s: seq<T>, t: seq<T>)
    requires multiset(s) == multiset(t)
    ensures NoRepeats(s) <==> NoRepeats(t)
  {
    NoRepeatsCount(s);
    NoRepeatsCount(t);
  }

  /* ---------- sorting ---------- */

  /** Any two elements compare, and comparing is transitive. */
  ghost predicate IsOrder<T(!new)>(upTo: (T, T) -> bool) {
    && (forall x, y :: upTo(x, y) || upTo(y, x))
    && (forall x, y, z :: upTo(x, y) && upTo(y, z) ==> upTo(x, z))
  }

  predicate InOrder<T>(s: seq<T>, upTo: (T, T) -> bool) {
    forall i, j :: 0 <= i < j < |s| ==> upTo(s[i], s[j])
  }

  predicate Leads<T>(x: T, s: seq<T>, upTo: (T, T) -> bool) {
    forall i :: 0 <= i < |s| ==> upTo(x, s[i])
  }

  /** Stands for the library sorts. */
  function Sorted<T>(s: seq<T>, upTo: (T, T) -> bool): seq<T> {
    if s == [] then [] else Insert(s[0], Sorted(s[1..], upTo), upTo)
  }

  function Insert<T>(x: T, s: seq<T>, upTo: (T, T) -> bool): seq<T> {
    if s == [] || upTo(x, s[0]) then [x] + s else [s[0]] + Insert(x, s[1..], upTo)
  }

  lemma {:induction false} InsertKeepsMembers<T>(x: T, s: seq<T>, upTo: (T, T) -> bool)
    ensures multiset(Insert(x, s, upTo)) == multiset([x] + s)
  {
    if s != [] && !upTo(x, s[0]) {
      InsertKeepsMembers(x, s[1..], upTo);
      assert s == [s[0]] + s[1..];
    }
  }

  lemma {:induction false} InsertKeepsLeader<T>(x: T, s: seq<T>, upTo: (T, T) -> bool, leader: T)
    requires Leads(leader, s, upTo) && upTo(leader, x)
    ensures Leads(leader, Insert(x, s, upTo), upTo)
  {
    if s != [] && !upTo(x, s[0]) {
      InsertKeepsLeader(x, s[1..], upTo, leader);
    }
  }

  lemma InOrderTail<T>(s: seq<T>, upTo: (T, T) -> bool)
    requires s != []
    ensures InOrder(s, upTo) <==> Leads(s[0], s[1..], upTo) && InOrder(s[1..], upTo)
  {
    assert forall i :: 0 <= i < |s| - 1 ==> s[1..][i] == s[i + 1];
  }

  lemma {:induction false} InsertKeepsOrder<T(!new)>(x: T, s: seq<T>, upTo: (T, T) -> bool)
    requires IsOrder(upTo) && InOrder(s, upTo)
    ensures InOrder(Insert(x, s, upTo), upTo)
  {
    var r := Insert(x, s, upTo);
    if s != [] {
      InOrderTail(s, upTo);
      if !upTo(x, s[0]) {
        InsertKeepsOrder(x, s[1..], upTo);
        InsertKeepsLeader(x, s[1..], upTo, s[0]);
        assert r[1..] == Insert(x, s[1..], upTo);
      } else {
        assert r[1..] == s;
      }
      InOrderTail(r, upTo);
    }
  }

  lemma {:induction false} SortedIsInOrder<T(!new)>(s: seq<T>, upTo: (T, T) -> bool)
    requires IsOrder(upTo)
    ensures InOrder(Sorted(s, upTo), upTo) && multiset(Sorted(s, upTo)) == multiset(s)
  {
    if s != [] {
      SortedIsInOrder(s[1..], upTo);
      InsertKeepsOrder(s[0], Sorted(s[1..], upTo), upTo);
      InsertKeepsMembers(s[0], Sorted(s[1..], upTo), upTo);
      assert s == [s[0]] + s[1..];
    }
  }

  /* ---------- the order of strings ---------- */

  /** Strictly before in the order of their characters. */
  predicate Less(a: string, b: string) {
    b != "" && (a == "" || a[0] < b[0] || (a[0] == b[0] && Less(a[1..], b[1..])))
  }

  /** A proper prefix comes first, and otherwise the first difference decides. */
  lemma {:induction false} LessIsLexicographic(a: string, b: string)
    ensures Less(a, b) <==>
            a < b || exists k :: 0 <= k < |a| && k < |b| && a[..k] == b[..k] && a[k] < b[k]
  {
    if a != "" && b != "" {
      LessIsLexicographic(a[1..], b[1..]);
      if a[0] < b[0] {
        assert a[..0] == b[..0];
      } else if a[0] == b[0] {
        assert a == [a[0]] + a[1..] && b == [b[0]] + b[1..];
        if k :| 0 <= k < |a[1..]| && k < |b[1..]| && a[1..][..k] == b[1..][..k] && a[1..][k] < b[1..][k] {
          assert a[..k + 1] == [a[0]] + a[1..][..k] && b[..k + 1] == [b[0]] + b[1..][..k];
          assert a[k + 1] < b[k + 1];
        }
        if k :| 0 <= k < |a| && k < |b| && a[..k] == b[..k] && a[k] < b[k] {
          assert a[1..][..k - 1] == a[..k][1..] && b[1..][..k - 1] == b[..k][1..];
          assert a[1..][k - 1] < b[1..][k - 1];
        }
      }
    }
  }

  lemma {:induction false} LessIsStrict(a: string)
    ensures !Less(a, a)
  {
    if a != "" {
      LessIsStrict(a[1..]);
    }
  }

  lemma {:induction false} LessIsTransitive(a: string, b: string, c: string)
    requires Less(a, b) && Less(b, c)
    ensures Less(a, c)
  {
    if a != "" && a[0] == b[0] == c[0] {
      LessIsTransitive(a[1..], b[1..], c[1..]);
    }
  }

  lemma {:induction false} LessIsTotal(a: string, b: string)
    ensures a == b || Less(a, b) || Less(b, a)
  {
    if a != "" && b != "" && a[0] == b[0] {
      LessIsTotal(a[1..], b[1..]);
      assert a == [a[0]] + a[1..] && b == [b[0]] + b[1..];
    }
  }
}
