/** Strings as the Go code uses them: the byte-wise order of `sort.Strings` and
    `strings.Join`.  The main result is that joining a sorted list of ids identifies
    the list up to order, as long as no id contains the separator. */
module Strings {
  import Sorting

  /** The lexicographic order. */
  predicate Leq(a: string, b: string) {
    a == [] || (b != [] && (a[0] < b[0] || (a[0] == b[0] && Leq(a[1..], b[1..]))))
  }

  lemma {:induction false} LeqTotal(a: string, b: string)
    ensures Leq(a, b) || Leq(b, a)
  {
    if a != [] && b != [] && a[0] == b[0] {
      LeqTotal(a[1..], b[1..]);
    }
  }

  lemma {:induction false} LeqAntisymmetric(a: string, b: string)
    requires Leq(a, b) && Leq(b, a)
    ensures a == b
  {
    if a != [] {
      LeqAntisymmetric(a[1..], b[1..]);
      assert a == [a[0]] + a[1..] && b == [b[0]] + b[1..];
    }
  }

  lemma {:induction false} LeqTransitive(a: string, b: string, c: string)
    requires Leq(a, b) && Leq(b, c)
    ensures Leq(a, c)
  {
    if a != [] && a[0] == b[0] == c[0] {
      LeqTransitive(a[1..], b[1..], c[1..]);
    }
  }

  lemma LeqIsOrder()
    ensures Sorting.TotalPreorder(Leq)
    ensures Sorting.Antisymmetric(Leq)
  {
    forall a, b ensures Leq(a, b) || Leq(b, a) { LeqTotal(a, b); }
    forall a, b, c | Leq(a, b) && Leq(b, c) ensures Leq(a, c) { LeqTransitive(a, b, c); }
    forall a, b | Leq(a, b) && Leq(b, a) ensures a == b { LeqAntisymmetric(a, b); }
  }

  /** The first text ends, or has the smaller character, where the two first differ. */
  ghost predicate Precedes(a: string, b: string) {
    exists k :: 0 <= k <= |a| && k < |b| && a[..k] == b[..k] && (k == |a| || a[k] < b[k])
  }

  /** Byte order puts a text before the texts it precedes, and no other. */
  lemma {:induction false} LeqMeans(a: string, b: string)
    ensures Leq(a, b) <==> a == b || Precedes(a, b)
  {
    if a == [] || b == [] {
      if a == [] && b != [] {
        assert a[..0] == b[..0];
      }
    } else if a[0] != b[0] {
      assert a[..0] == b[..0];
    } else {
      LeqMeans(a[1..], b[1..]);
      TailPrecedes(a, b);
      assert a == [a[0]] + a[1..] && b == [b[0]] + b[1..];
    }
  }

  lemma TailPrecedes(a: string, b: string)
    requires a != [] && b != [] && a[0] == b[0]
    ensures Precedes(a, b) <==> Precedes(a[1..], b[1..])
  {
    if Precedes(a, b) {
      var k :| 0 <= k <= |a| && k < |b| && a[..k] == b[..k] && (k == |a| || a[k] < b[k]);
      assert k > 0;
      assert a[1..][..k - 1] == a[..k][1..] && b[1..][..k - 1] == b[..k][1..];
    }
    if Precedes(a[1..], b[1..]) {
      var k :| 0 <= k <= |a[1..]| && k < |b[1..]| && a[1..][..k] == b[1..][..k]
               && (k == |a[1..]| || a[1..][k] < b[1..][k]);
      assert a[..k + 1] == [a[0]] + a[1..][..k] && b[..k + 1] == [b[0]] + b[1..][..k];
    }
  }

  /** `sort.Strings` on a copy of the list. */
  function Sort(xs: seq<string>): (r: seq<string>)
    ensures multiset(r) == multiset(xs)
  {
    Sorting.Sort(Leq, xs)
  }

  /** `strings.Join`. */
  function Join(xs: seq<string>, sep: string): string {
    if xs == [] then ""
    else if |xs| == 1 then xs[0]
    else xs[0] + sep + Join(xs[1..], sep)
  }

  lemma JoinPair(a: string, b: string, sep: string)
    ensures Join([a, b], sep) == a + sep + b
  {
    assert [a, b][1..] == [b];
  }

  lemma SeparatorAt(a: string, s: string, sep: char)
    ensures sep in a + [sep] + s
  {
    assert (a + [sep] + s)[|a|] == sep;
  }

  /** The text before the first separator is determined by the whole. */
  lemma FirstSeparator(a: string, s: string, b: string, t: string, sep: char)
    requires sep !in a && sep !in b
    requires a + [sep] + s == b + [sep] + t
    ensures a == b && s == t
  {
    var whole := a + [sep] + s;
    assert whole[|a|] == sep && whole[|b|] == sep;
    assert whole[..|a|] == a && whole[..|b|] == b;
    assert forall i | 0 <= i < |a| :: whole[i] == a[i];
    assert forall i | 0 <= i < |b| :: whole[i] == b[i];
    assert |a| == |b|;
    assert s == whole[|a| + 1..] && t == whole[|b| + 1..];
  }

  lemma {:induction false} JoinInjective(xs: seq<string>, ys: seq<string>, sep: char)
    requires xs != [] && ys != []
    requires forall x | x in xs :: sep !in x
    requires forall y | y in ys :: sep !in y
    requires Join(xs, [sep]) == Join(ys, [sep])
    ensures xs == ys
  {
    if |xs| > 1 {
      SeparatorAt(xs[0], Join(xs[1..], [sep]), sep);
    }
    if |ys| > 1 {
      SeparatorAt(ys[0], Join(ys[1..], [sep]), sep);
    }
    assert xs[0] in xs && ys[0] in ys;
    if |xs| > 1 && |ys| > 1 {
      FirstSeparator(xs[0], Join(xs[1..], [sep]), ys[0], Join(ys[1..], [sep]), sep);
      JoinInjective(xs[1..], ys[1..], sep);
      assert xs == [xs[0]] + xs[1..] && ys == [ys[0]] + ys[1..];
    }
  }

  /** Sorting and joining separator-free names loses their order and nothing else. */
  lemma JoinSorted(xs: seq<string>, ys: seq<string>, sep: char)
    requires xs != [] && ys != []
    requires forall x | x in xs :: sep !in x
    requires forall y | y in ys :: sep !in y
    ensures Join(Sort(xs), [sep]) == Join(Sort(ys), [sep]) <==> multiset(xs) == multiset(ys)
  {
    LeqIsOrder();
    Sorting.SortSorted(Leq, xs);
    Sorting.SortSorted(Leq, ys);
    if multiset(xs) == multiset(ys) {
      Sorting.SortedUnique(Leq, Sort(xs), Sort(ys));
    }
    if Join(Sort(xs), [sep]) == Join(Sort(ys), [sep]) {
      Sorting.SameMembers(xs, Sort(xs));
      Sorting.SameMembers(ys, Sort(ys));
      JoinInjective(Sort(xs), Sort(ys), sep);
    }
  }

  ghost predicate IsListing(xs: seq<string>, members: set<string>) {
    && Sorting.IsSorted(Leq, xs) && Sorting.Distinct(xs)
    && forall x :: x in xs <==> x in members
  }

  /** The members of a set, collected in any order and sorted. */
  method Listing(members: set<string>) returns (xs: seq<string>)
    ensures IsListing(xs, members)
  {
    var listed: seq<string> := [];
    var todo := members;
    while todo != {}
      invariant todo <= members && Sorting.Distinct(listed)
      invariant forall x :: x in listed <==> x in members - todo
    {
      var x :| x in todo;
      assert x !in listed;
      listed := listed + [x];
      todo := todo - {x};
    }
    xs := Sort(listed);
    LeqIsOrder();
    Sorting.SortSorted(Leq, listed);
    Sorting.SortDistinct(Leq, listed);
    Sorting.SameMembers(listed, xs);
  }
}
