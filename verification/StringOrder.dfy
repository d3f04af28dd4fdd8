/** Strings in code-point order, and the sorting and joining that the repository
    applies to lists of concept ids. */
module StringOrder {

  ghost predicate Distinct<T>(s: seq<T>) {
    forall i, j | 0 <= i < j < |s| :: s[i] != s[j]
  }

  function Elements<T>(s: seq<T>): set<T> {
    set x | x in s
  }

  lemma ElementsSnoc<T>(s: seq<T>, x: T)
    ensures Elements(s + [x]) == Elements(s) + {x}
  {
    assert (s + [x])[|s|] == x;
    assert forall y | y in s :: y in s + [x];
  }

  // The places named by `at`, in order, and what stands there: a part of the list in its order.
  ghost predicate TakenAt<T>(s: seq<T>, r: seq<T>, at: seq<nat>) {
    && |at| == |r|
    && (forall k | 0 <= k < |at| :: at[k] < |s| && r[k] == s[at[k]])
    && (forall j, k | 0 <= j < k < |at| :: at[j] < at[k])
  }

  ghost predicate KeptAt<T(!new)>(s: seq<T>, at: seq<nat>, keep: T -> bool) {
    forall i: nat | i < |s| :: i in at <==> keep(s[i])
  }

  // Exactly the items to keep, in their order and as often as they stand there.
  ghost predicate Keeps<T(!new)>(s: seq<T>, r: seq<T>, keep: T -> bool) {
    exists at :: TakenAt(s, r, at) && KeptAt(s, at, keep)
  }

  function Shifted(at: seq<nat>): (r: seq<nat>)
    ensures |r| == |at| && forall k | 0 <= k < |at| :: r[k] == at[k] + 1
  {
    seq(|at|, k requires 0 <= k < |at| => at[k] + 1)
  }

  lemma ShiftedHas(at: seq<nat>, i: nat)
    ensures i in Shifted(at) <==> i > 0 && i - 1 in at
  {
    if i > 0 && i - 1 in at {
      var k :| 0 <= k < |at| && at[k] == i - 1;
      assert Shifted(at)[k] == i;
    }
  }

  lemma TakenBehind<T>(x: T, s: seq<T>, r: seq<T>, at: seq<nat>)
    requires TakenAt(s, r, at)
    ensures TakenAt([x] + s, r, Shifted(at)) && TakenAt([x] + s, [x] + r, [0] + Shifted(at))
  {
  }

  lemma KeptBehind<T(!new)>(x: T, s: seq<T>, at: seq<nat>, keep: T -> bool)
    requires KeptAt(s, at, keep)
    ensures KeptAt([x] + s, if keep(x) then [0] + Shifted(at) else Shifted(at), keep)
  {
    var all := [x] + s;
    forall i: nat | i < |all| ensures (i == 0 && keep(x)) || i in Shifted(at) <==> keep(all[i]) {
      ShiftedHas(at, i);
      if i > 0 { assert all[i] == s[i - 1]; }
    }
  }

  // One more item in front, kept or not.
  lemma KeepsOneMore<T(!new)>(x: T, s: seq<T>, r: seq<T>, keep: T -> bool)
    requires Keeps(s, r, keep)
    ensures Keeps([x] + s, if keep(x) then [x] + r else r, keep)
  {
    var at :| TakenAt(s, r, at) && KeptAt(s, at, keep);
    TakenBehind(x, s, r, at);
    KeptBehind(x, s, at, keep);
  }

  lemma TakenOneMore<T>(s: seq<T>, r: seq<T>, x: T, at: seq<nat>)
    requires TakenAt(s, r, at)
    ensures TakenAt(s + [x], r, at) && TakenAt(s + [x], r + [x], at + [|s|])
  {
    forall k | 0 <= k < |at| ensures at[k] < |s| && (s + [x])[at[k]] == r[k] {
      assert at[k] < |s| && r[k] == s[at[k]];
    }
  }

  lemma KeptOneMore<T(!new)>(s: seq<T>, r: seq<T>, x: T, at: seq<nat>, keep: T -> bool)
    requires TakenAt(s, r, at) && KeptAt(s, at, keep)
    ensures KeptAt(s + [x], if keep(x) then at + [|s|] else at, keep)
  {
    EndOfTaken(s, r, at);
    var all := s + [x];
    forall i: nat | i < |all| ensures i in at || (i == |s| && keep(x)) <==> keep(all[i]) {
      if i < |s| { assert all[i] == s[i]; }
    }
  }

  // One more item behind, kept or not.
  lemma KeepsOneMoreBehind<T(!new)>(s: seq<T>, r: seq<T>, x: T, keep: T -> bool)
    requires Keeps(s, r, keep)
    ensures Keeps(s + [x], if keep(x) then r + [x] else r, keep)
  {
    var at: seq<nat> :| TakenAt(s, r, at) && KeptAt(s, at, keep);
    TakenOneMore(s, r, x, at);
    KeptOneMore(s, r, x, at, keep);
  }

  lemma EndOfTaken<T>(s: seq<T>, r: seq<T>, at: seq<nat>)
    requires TakenAt(s, r, at)
    ensures |s| !in at
  {
  }

  lemma KeepsNothing<T(!new)>(keep: T -> bool)
    ensures Keeps([], [], keep)
  {
    assert TakenAt<T>([], [], []);
  }

  // Lexicographic order on code points.
  predicate Leq(a: string, b: string) {
    a == [] || (b != [] && (a[0] < b[0] || (a[0] == b[0] && Leq(a[1..], b[1..]))))
  }

  lemma {:induction false} LeqTotal(a: string, b: string)
    ensures Leq(a, b) || Leq(b, a)
  {
    if a != [] && b != [] && a[0] == b[0] {
      LeqTotal(a[1..], b[1..]);
    }
  }

  lemma {:induction false} LeqAntisymmetric(a: string, b: string)
    requires Leq(a, b) && Leq(b, a)
    ensures a == b
  {
    if a != [] && b != [] {
      LeqAntisymmetric(a[1..], b[1..]);
      assert a == [a[0]] + a[1..] && b == [b[0]] + b[1..];
    }
  }

  lemma {:induction false} LeqTransitive(a: string, b: string, c: string)
    requires Leq(a, b) && Leq(b, c)
    ensures Leq(a, c)
  {
    if a != [] && a[0] == b[0] && b[0] == c[0] {
      LeqTransitive(a[1..], b[1..], c[1..]);
    }
  }

  ghost predicate Sorted(s: seq<string>) {
    forall i, j | 0 <= i < j < |s| :: Leq(s[i], s[j])
  }

  function Insert(x: string, s: seq<string>): seq<string> {
    if s == [] then [x]
    else if Leq(x, s[0]) then [x] + s
    else [s[0]] + Insert(x, s[1..])
  }

  function Sort(s: seq<string>): seq<string> {
    if s == [] then [] else Insert(s[0], Sort(s[1..]))
  }

  lemma {:induction false} InsertKeepsOrder(x: string, s: seq<string>)
    requires Sorted(s)
    ensures Sorted(Insert(x, s))
    ensures multiset(Insert(x, s)) == multiset([x]) + multiset(s)
  {
    if s == [] {
    } else if Leq(x, s[0]) {
      forall j | 0 <= j < |s| ensures Leq(x, s[j]) {
        if j > 0 { LeqTransitive(x, s[0], s[j]); }
      }
    } else {
      LeqTotal(x, s[0]);
      var rest := Insert(x, s[1..]);
      InsertKeepsOrder(x, s[1..]);
      assert s == [s[0]] + s[1..];
      forall j | 0 <= j < |rest| ensures Leq(s[0], rest[j]) {
        assert rest[j] in multiset(rest);
        assert rest[j] == x || rest[j] in s[1..];
      }
    }
  }

  lemma {:induction false} SortIsSorted(s: seq<string>)
    ensures Sorted(Sort(s))
    ensures multiset(Sort(s)) == multiset(s)
  {
    if s != [] {
      SortIsSorted(s[1..]);
      InsertKeepsOrder(s[0], Sort(s[1..]));
      assert s == [s[0]] + s[1..];
    }
  }

  lemma SameMultisetSameElements<T>(a: seq<T>, b: seq<T>)
    requires multiset(a) == multiset(b)
    ensures |a| == |b| && forall x :: x in a <==> x in b
  {
    assert |a| == |multiset(a)| == |multiset(b)| == |b|;
    forall x ensures x in a <==> x in b {
      assert x in a <==> x in multiset(a);
      assert x in b <==> x in multiset(b);
    }
  }

  lemma FirstIsLeast(a: seq<string>, x: string)
    requires Sorted(a) && x in a
    ensures Leq(a[0], x)
  {
    var i :| 0 <= i < |a| && a[i] == x;
    if i == 0 { LeqTotal(x, x); }
  }

  lemma MultisetTail<T>(s: seq<T>)
    requires s != []
    ensures s == [s[0]] + s[1..]
    ensures multiset(s[1..]) == multiset(s) - multiset{s[0]}
  {
    assert s == [s[0]] + s[1..];
  }

  lemma {:induction false} SortedIsUnique(a: seq<string>, b: seq<string>)
    requires Sorted(a) && Sorted(b) && multiset(a) == multiset(b)
    ensures a == b
  {
    SameMultisetSameElements(a, b);
    if a != [] {
      FirstIsLeast(b, a[0]);
      FirstIsLeast(a, b[0]);
      LeqAntisymmetric(a[0], b[0]);
      MultisetTail(a);
      MultisetTail(b);
      SortedIsUnique(a[1..], b[1..]);
    }
  }

  // Two duplicate-free lists of the same elements are permutations of each other.
  lemma {:induction false} DistinctSameMultiset<T>(a: seq<T>, b: seq<T>)
    requires Distinct(a) && Distinct(b)
    requires forall x :: x in a <==> x in b
    ensures multiset(a) == multiset(b)
  {
    DistinctCounts(a);
    DistinctCounts(b);
    forall x ensures multiset(a)[x] == multiset(b)[x] {
      assert x in a <==> x in b;
    }
  }

  lemma {:induction false} DistinctCounts<T>(a: seq<T>)
    requires Distinct(a)
    ensures forall x :: multiset(a)[x] == if x in a then 1 else 0
  {
    if a != [] {
      var rest := a[1..];
      DistinctCounts(rest);
      assert a == [a[0]] + rest;
      forall x ensures multiset(a)[x] == if x in a then 1 else 0 {
        assert multiset(a) == multiset([a[0]]) + multiset(rest);
      }
    }
  }

  // join(separator)
  function Join(parts: seq<string>, separator: string): string {
    if parts == [] then ""
    else if |parts| == 1 then parts[0]
    else parts[0] + separator + Join(parts[1..], separator)
  }

  // The text before the first occurrence of c.
  function UpTo(s: string, c: char): string {
    if s == [] || s[0] == c then [] else [s[0]] + UpTo(s[1..], c)
  }

  lemma {:induction false} UpToStops(x: string, c: char, rest: string)
    requires c !in x
    requires rest == [] || rest[0] == c
    ensures UpTo(x + rest, c) == x
  {
    if x == [] {
      assert x + rest == rest;
    } else {
      assert (x + rest)[1..] == x[1..] + rest;
      UpToStops(x[1..], c, rest);
    }
  }

  lemma JoinStartsWithFirst(a: seq<string>, c: char)
    requires a != [] && c !in a[0]
    ensures UpTo(Join(a, [c]), c) == a[0]
    ensures |a| == 1 ==> Join(a, [c]) == a[0]
    ensures |a| > 1 ==> |Join(a, [c])| > |a[0]| && Join(a, [c])[|a[0]| + 1..] == Join(a[1..], [c])
  {
    var rest := if |a| == 1 then "" else [c] + Join(a[1..], [c]);
    assert Join(a, [c]) == a[0] + rest;
    UpToStops(a[0], c, rest);
  }

  // When no part contains the separator character, a joined non-empty list can
  // be read back: joining is injective.
  lemma {:induction false} JoinInjective(a: seq<string>, b: seq<string>, c: char)
    requires a != [] && b != []
    requires forall x | x in a :: c !in x
    requires forall x | x in b :: c !in x
    requires Join(a, [c]) == Join(b, [c])
    ensures a == b
  {
    JoinStartsWithFirst(a, c);
    JoinStartsWithFirst(b, c);
    assert a == [a[0]] + a[1..] && b == [b[0]] + b[1..];
    if |a| > 1 {
      JoinInjective(a[1..], b[1..], c);
    }
  }
}
