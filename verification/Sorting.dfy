/** Sorting by a key order, as the language's built-in stable sort does it, and the
    code-point order of strings. */
module Sorting {
  import opened Graphs

  ghost predicate TotalPreorder<T(!new)>(leq: (T, T) -> bool) {
    (forall a, b :: leq(a, b) || leq(b, a)) &&
    (forall a, b, c :: leq(a, b) && leq(b, c) ==> leq(a, c))
  }

  ghost predicate SortedBy<T(!new)>(s: seq<T>, leq: (T, T) -> bool) {
    forall i, j :: 0 <= i < j < |s| ==> leq(s[i], s[j])
  }

  /** Puts x before the first element it may precede. */
  function InsertBy<T>(x: T, s: seq<T>, leq: (T, T) -> bool): (r: seq<T>)
    ensures multiset(r) == multiset(s) + multiset{x}
    ensures |r| == |s| + 1
  {
    if s == [] then [x]
    else if leq(x, s[0]) then [x] + s
    else
      assert s == [s[0]] + s[1..];
      [s[0]] + InsertBy(x, s[1..], leq)
  }

  function SortBy<T>(s: seq<T>, leq: (T, T) -> bool): (r: seq<T>)
    ensures multiset(r) == multiset(s)
    ensures |r| == |s|
  {
    if s == [] then []
    else
      assert s == [s[0]] + s[1..];
      InsertBy(s[0], SortBy(s[1..], leq), leq)
  }

  lemma SameElements<T>(a: seq<T>, b: seq<T>)
    requires multiset(a) == multiset(b)
    ensures forall x :: x in a <==> x in b
  {
    forall x ensures x in a <==> x in b {
      assert x in a <==> x in multiset(a);
      assert x in b <==> x in multiset(b);
    }
  }

  lemma {:induction false} InsertSorted<T(!new)>(x: T, s: seq<T>, leq: (T, T) -> bool)
    requires TotalPreorder(leq) && SortedBy(s, leq)
    ensures SortedBy(InsertBy(x, s, leq), leq)
  {
    if s != [] && !leq(x, s[0]) {
      InsertSorted(x, s[1..], leq);
      var tail := InsertBy(x, s[1..], leq);
      forall j | 0 <= j < |tail| ensures leq(s[0], tail[j]) {
        assert tail[j] in multiset(tail);
        assert tail[j] in multiset(s[1..]) || tail[j] == x;
      }
    }
  }

  lemma {:induction false} SortSorted<T(!new)>(s: seq<T>, leq: (T, T) -> bool)
    requires TotalPreorder(leq)
    ensures SortedBy(SortBy(s, leq), leq)
  {
    if s != [] {
      SortSorted(s[1..], leq);
      InsertSorted(s[0], SortBy(s[1..], leq), leq);
    }
  }

  // ---------- filtering ----------

  /** The elements that satisfy p, in their order. */
  function Filter<T(!new)>(s: seq<T>, p: T -> bool): (r: seq<T>)
    ensures forall x :: x in r <==> x in s && p(x)
    ensures |r| <= |s|
  {
    if s == [] then []
    else
      assert s == [s[0]] + s[1..];
      if p(s[0]) then [s[0]] + Filter(s[1..], p) else Filter(s[1..], p)
  }

  lemma {:induction false} FilterAppend<T(!new)>(s: seq<T>, x: T, p: T -> bool)
    ensures Filter(s + [x], p) == if p(x) then Filter(s, p) + [x] else Filter(s, p)
  {
    if s == [] {
      assert [] + [x] == [x] && [x][1..] == [];
    } else {
      FilterAppend(s[1..], x, p);
      assert (s + [x])[1..] == s[1..] + [x];
    }
  }

  lemma {:induction false} FilterKeepsDistinct<T(!new)>(s: seq<T>, p: T -> bool)
    requires Distinct(s)
    ensures Distinct(Filter(s, p))
    decreases |s|
  {
    if s != [] {
      DistinctCons(s[0], s[1..]);
      assert s == [s[0]] + s[1..];
      FilterKeepsDistinct(s[1..], p);
      DistinctCons(s[0], Filter(s[1..], p));
    }
  }

  /** The elements that sort together with k. */
  function Alike<T>(leq: (T, T) -> bool, k: T): T -> bool {
    (x: T) => leq(k, x) && leq(x, k)
  }

  lemma {:induction false} InsertStable<T(!new)>(x: T, s: seq<T>, leq: (T, T) -> bool, k: T)
    requires TotalPreorder(leq)
    ensures Filter(InsertBy(x, s, leq), Alike(leq, k)) == Filter([x] + s, Alike(leq, k))
  {
    assert ([x] + s)[1..] == s;
    if s != [] && !leq(x, s[0]) {
      InsertStable(x, s[1..], leq, k);
      assert ([x] + s[1..])[1..] == s[1..];
    }
  }

  /** Elements with equal keys keep their order. */
  lemma {:induction false} SortStable<T(!new)>(s: seq<T>, leq: (T, T) -> bool, k: T)
    requires TotalPreorder(leq)
    ensures Filter(SortBy(s, leq), Alike(leq, k)) == Filter(s, Alike(leq, k))
  {
    if s != [] {
      SortStable(s[1..], leq, k);
      InsertStable(s[0], SortBy(s[1..], leq), leq, k);
      assert ([s[0]] + SortBy(s[1..], leq))[1..] == SortBy(s[1..], leq);
    }
  }

  /** x stands at an earlier position of s than y. */
  ghost predicate Before<T(!new)>(s: seq<T>, x: T, y: T) {
    exists a, b :: 0 <= a < b < |s| && s[a] == x && s[b] == y
  }

  lemma {:induction false} FilterKeepsOrder<T(!new)>(s: seq<T>, p: T -> bool)
    ensures forall x, y :: Before(Filter(s, p), x, y) ==> Before(s, x, y)
  {
    if s != [] {
      FilterKeepsOrder(s[1..], p);
      var r, tail := Filter(s, p), Filter(s[1..], p);
      forall x, y | Before(r, x, y) ensures Before(s, x, y) {
        var a, b :| 0 <= a < b < |r| && r[a] == x && r[b] == y;
        if r == tail {
          assert Before(tail, x, y);
        } else if a > 0 {
          assert tail[a - 1] == x && tail[b - 1] == y;
          assert Before(tail, x, y);
        } else {
          assert tail[b - 1] == y && y in tail;
          var c :| 0 <= c < |s[1..]| && s[1..][c] == y;
          assert s[0] == x && s[c + 1] == y;
        }
        if Before(s[1..], x, y) {
          var c, d :| 0 <= c < d < |s[1..]| && s[1..][c] == x && s[1..][d] == y;
          assert s[c + 1] == x && s[d + 1] == y;
        }
      }
    }
  }

  /** And keeps all of the order there is. */
  lemma {:induction false} FilterBefore<T(!new)>(s: seq<T>, p: T -> bool, x: T, y: T)
    requires Before(s, x, y) && p(x) && p(y)
    ensures Before(Filter(s, p), x, y)
  {
    var a, b :| 0 <= a < b < |s| && s[a] == x && s[b] == y;
    var tail := Filter(s[1..], p);
    assert s[1..][b - 1] == y;
    if a > 0 {
      assert s[1..][a - 1] == x;
      FilterBefore(s[1..], p, x, y);
      var c, d :| 0 <= c < d < |tail| && tail[c] == x && tail[d] == y;
      if p(s[0]) {
        assert Filter(s, p)[c + 1] == x && Filter(s, p)[d + 1] == y;
      }
    } else {
      assert y in tail;
      var d :| 0 <= d < |tail| && tail[d] == y;
      assert Filter(s, p)[0] == x && Filter(s, p)[d + 1] == y;
    }
  }

  /** Where a sorted sequence puts x before y, x sorts first, or they sort together and stood so before. */
  lemma SortedBefore<T(!new)>(s: seq<T>, leq: (T, T) -> bool, i: nat, j: nat)
    requires TotalPreorder(leq) && i < j < |s|
    ensures var r := SortBy(s, leq);
            leq(r[i], r[j]) && (leq(r[j], r[i]) ==> Before(s, r[i], r[j]))
  {
    var r := SortBy(s, leq);
    SortSorted(s, leq);
    if leq(r[j], r[i]) {
      var p := Alike(leq, r[i]);
      SortStable(s, leq, r[i]);
      hide SortBy, Filter;
      assert Before(r, r[i], r[j]);
      FilterBefore(r, p, r[i], r[j]);
      FilterKeepsOrder(s, p);
    }
  }

  // ---------- strings ----------

  /** Lexicographic order by code point. */
  predicate StringLeq(a: string, b: string) {
    a == [] || (b != [] && (a[0] < b[0] || (a[0] == b[0] && StringLeq(a[1..], b[1..]))))
  }

  lemma {:induction false} StringTotal(a: string, b: string)
    ensures StringLeq(a, b) || StringLeq(b, a)
    ensures StringLeq(a, b) && StringLeq(b, a) ==> a == b
  {
    if a != [] && b != [] && a[0] == b[0] {
      StringTotal(a[1..], b[1..]);
      assert a == [a[0]] + a[1..] && b == [b[0]] + b[1..];
    }
  }

  /** b continues a, or has the greater character where they first differ. */
  ghost predicate Ascends(a: string, b: string) {
    exists k :: 0 <= k <= |a| && k < |b| && a[..k] == b[..k] && (k == |a| || a[k] < b[k])
  }

  lemma AscendsCons(x: char, a: string, b: string)
    ensures Ascends([x] + a, [x] + b) <==> Ascends(a, b)
  {
    var c, d := [x] + a, [x] + b;
    forall k | 0 <= k <= |a| && k < |b| ensures c[..k + 1] == d[..k + 1] <==> a[..k] == b[..k] {
      assert c[..k + 1] == [x] + a[..k] && d[..k + 1] == [x] + b[..k];
      assert c[..k + 1][1..] == a[..k] && d[..k + 1][1..] == b[..k];
    }
    if k :| 0 <= k <= |a| && k < |b| && a[..k] == b[..k] && (k == |a| || a[k] < b[k]) {
      assert c[..k + 1] == d[..k + 1];
    }
    if k :| 0 <= k <= |c| && k < |d| && c[..k] == d[..k] && (k == |c| || c[k] < d[k]) {
      assert a[..k - 1] == b[..k - 1];
    }
  }

  lemma AscendsHead(a: string, b: string)
    requires a == [] || b == [] || a[0] != b[0]
    ensures Ascends(a, b) <==> b != [] && (a == [] || a[0] < b[0])
  {
    assert a[..0] == b[..0];
    forall k | 0 < k <= |a| && k < |b| ensures a[..k] != b[..k] {
      assert a[..k][0] != b[..k][0];
    }
  }

  lemma {:induction false} StringLeqIff(a: string, b: string)
    ensures StringLeq(a, b) <==> a == b || Ascends(a, b)
  {
    if a == [] || b == [] || a[0] != b[0] {
      AscendsHead(a, b);
    } else {
      assert a == [a[0]] + a[1..] && b == [b[0]] + b[1..];
      AscendsCons(a[0], a[1..], b[1..]);
      StringLeqIff(a[1..], b[1..]);
      hide Ascends;
    }
  }

  lemma {:induction false} StringTransitive(a: string, b: string, c: string)
    requires StringLeq(a, b) && StringLeq(b, c)
    ensures StringLeq(a, c)
  {
    if a != [] && a[0] == b[0] == c[0] {
      StringTransitive(a[1..], b[1..], c[1..]);
    }
  }

  lemma StringOrder()
    ensures TotalPreorder(StringLeq)
    ensures forall a, b :: StringLeq(a, b) && StringLeq(b, a) ==> a == b
  {
    forall a: string, b: string ensures StringLeq(a, b) || StringLeq(b, a)
      ensures StringLeq(a, b) && StringLeq(b, a) ==> a == b
    {
      StringTotal(a, b);
    }
    forall a: string, b: string, c: string | StringLeq(a, b) && StringLeq(b, c) ensures StringLeq(a, c) {
      StringTransitive(a, b, c);
    }
  }
}
