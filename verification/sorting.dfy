/**
 A stable insertion sort driven by a JavaScript-style comparator: a negative
 result places the first argument before the second, a positive one after it,
 and zero keeps the two in their input order (`Array.prototype.sort` has been
 stable since ECMAScript 2019).
 */
module Sorting {

  /** Swapping `a` and `b` negates the comparison. */
  ghost predicate AntisymmetricAt<T>(cmp: (T, T) -> real, a: T, b: T)
  {
    cmp(a, b) == -cmp(b, a)
  }

  /** "Not after" chains from `a` through `b` to `c`. */
  ghost predicate TransitiveAt<T>(cmp: (T, T) -> real, a: T, b: T, c: T)
  {
    cmp(a, b) <= 0.0 && cmp(b, c) <= 0.0 ==> cmp(a, c) <= 0.0
  }

  /**
   `cmp` is a consistent comparator (a total preorder) on the elements of `s`.
   The quantifiers fire only on the `...At` predicates, so proofs instantiate
   them on purpose (through `Antisym` and `Trans` below).
   */
  ghost predicate Consistent<T>(cmp: (T, T) -> real, s: seq<T>)
  {
    && (forall a, b {:trigger AntisymmetricAt(cmp, a, b)} | a in s && b in s :: AntisymmetricAt(cmp, a, b))
    && (forall a, b, c {:trigger TransitiveAt(cmp, a, b, c)} | a in s && b in s && c in s :: TransitiveAt(cmp, a, b, c))
  }

  lemma Antisym<T>(cmp: (T, T) -> real, s: seq<T>, a: T, b: T)
    requires Consistent(cmp, s) && a in s && b in s
    ensures cmp(a, b) == -cmp(b, a)
  {
    assert AntisymmetricAt(cmp, a, b);
  }

  lemma Trans<T>(cmp: (T, T) -> real, s: seq<T>, a: T, b: T, c: T)
    requires Consistent(cmp, s) && a in s && b in s && c in s
    requires cmp(a, b) <= 0.0 && cmp(b, c) <= 0.0
    ensures cmp(a, c) <= 0.0
  {
    assert TransitiveAt(cmp, a, b, c);
  }

  /** No element of `s` should come before an earlier one. */
  ghost predicate Sorted<T>(cmp: (T, T) -> real, s: seq<T>)
  {
    forall i, j | 0 <= i < j < |s| :: cmp(s[i], s[j]) <= 0.0
  }

  /** Inserts `a` into `l` before the first element it does not compare after. */
  function Insert<T>(cmp: (T, T) -> real, a: T, l: seq<T>): (r: seq<T>)
    ensures multiset(r) == multiset(l) + multiset{a}
    ensures |r| == |l| + 1
  {
    if l == [] then [a]
    else if cmp(a, l[0]) <= 0.0 then [a] + l
    else
      assert l == [l[0]] + l[1..];
      [l[0]] + Insert(cmp, a, l[1..])
  }

  lemma ConsistentSub<T>(cmp: (T, T) -> real, s: seq<T>, t: seq<T>)
    requires Consistent(cmp, s)
    requires multiset(t) <= multiset(s)
    ensures Consistent(cmp, t)
  {
    forall a | a in t ensures a in s {
      assert a in multiset(t);
    }
    forall a, b | a in t && b in t ensures AntisymmetricAt(cmp, a, b) {
      Antisym(cmp, s, a, b);
    }
    forall a, b, c | a in t && b in t && c in t ensures TransitiveAt(cmp, a, b, c) {
      if cmp(a, b) <= 0.0 && cmp(b, c) <= 0.0 {
        Trans(cmp, s, a, b, c);
      }
    }
  }

  /** `a` goes in front of a sorted `l` whose head it does not compare after. */
  lemma InsertSortedFront<T>(cmp: (T, T) -> real, a: T, l: seq<T>)
    requires Consistent(cmp, [a] + l) && Sorted(cmp, l)
    requires l != [] && cmp(a, l[0]) <= 0.0
    ensures Sorted(cmp, [a] + l)
  {
    var r := [a] + l;
    forall i, j | 0 <= i < j < |r|
      ensures cmp(r[i], r[j]) <= 0.0
    {
      if i == 0 && j > 1 {
        assert r[j] == l[j - 1] && l[0] == r[1];
        assert cmp(l[0], l[j - 1]) <= 0.0;
        Trans(cmp, r, a, l[0], l[j - 1]);
      } else if i > 0 {
        assert r[i] == l[i - 1] && r[j] == l[j - 1];
      }
    }
  }

  /** The head of `l`, which `a` compares after, stays in front of everything `a` is inserted among. */
  lemma HeadStaysFirst<T>(cmp: (T, T) -> real, a: T, l: seq<T>, rest: seq<T>)
    requires Consistent(cmp, [a] + l) && Sorted(cmp, l)
    requires l != [] && cmp(a, l[0]) > 0.0
    requires Sorted(cmp, rest) && multiset(rest) == multiset(l[1..]) + multiset{a}
    ensures Sorted(cmp, [l[0]] + rest)
  {
    var r := [l[0]] + rest;
    Antisym(cmp, [a] + l, l[0], a);
    forall i, j | 0 <= i < j < |r|
      ensures cmp(r[i], r[j]) <= 0.0
    {
      if i == 0 {
        assert r[j] == rest[j - 1];
        assert rest[j - 1] in multiset(rest);
        if rest[j - 1] != a {
          assert rest[j - 1] in multiset(l[1..]);
          var k :| 0 <= k < |l[1..]| && l[1..][k] == rest[j - 1];
          assert l[k + 1] == rest[j - 1];
        }
      } else {
        assert r[i] == rest[i - 1] && r[j] == rest[j - 1];
      }
    }
  }

  lemma {:induction false} InsertSorted<T>(cmp: (T, T) -> real, a: T, l: seq<T>)
    requires Consistent(cmp, [a] + l) && Sorted(cmp, l)
    ensures Sorted(cmp, Insert(cmp, a, l))
  {
    if l == [] {
    } else if cmp(a, l[0]) <= 0.0 {
      InsertSortedFront(cmp, a, l);
    } else {
      assert l == [l[0]] + l[1..];
      ConsistentSub(cmp, [a] + l, [a] + l[1..]);
      assert Sorted(cmp, l[1..]);
      InsertSorted(cmp, a, l[1..]);
      HeadStaysFirst(cmp, a, l, Insert(cmp, a, l[1..]));
    }
  }

  /** Stable insertion sort: the first element goes in front of every element it ties with. */
  function Sort<T>(cmp: (T, T) -> real, s: seq<T>): (r: seq<T>)
    ensures multiset(r) == multiset(s)
    ensures |r| == |s|
  {
    if s == [] then []
    else
      assert s == [s[0]] + s[1..];
      Insert(cmp, s[0], Sort(cmp, s[1..]))
  }

  /** Under a consistent comparator the result is sorted. */
  lemma {:induction false} SortSorted<T>(cmp: (T, T) -> real, s: seq<T>)
    requires Consistent(cmp, s)
    ensures Sorted(cmp, Sort(cmp, s))
  {
    if s != [] {
      var rest := Sort(cmp, s[1..]);
      assert s == [s[0]] + s[1..];
      ConsistentSub(cmp, s, s[1..]);
      SortSorted(cmp, s[1..]);
      ConsistentSub(cmp, s, [s[0]] + rest);
      InsertSorted(cmp, s[0], rest);
    }
  }

  /** The elements of `s`, in order, that tie with `x`. */
  function Ties<T>(cmp: (T, T) -> real, x: T, s: seq<T>): (r: seq<T>)
    ensures |r| <= |s|
  {
    if s == [] then []
    else Tie(cmp, x, s[0]) + Ties(cmp, x, s[1..])
  }

  function Tie<T>(cmp: (T, T) -> real, x: T, t: T): seq<T>
  {
    if cmp(t, x) == 0.0 then [t] else []
  }

  lemma TiesCons<T>(cmp: (T, T) -> real, x: T, h: T, t: seq<T>)
    ensures Ties(cmp, x, [h] + t) == Tie(cmp, x, h) + Ties(cmp, x, t)
  {
    assert ([h] + t)[1..] == t;
  }

  /** `a` and `b` cannot both tie with `x` when `a` compares strictly after `b`. */
  lemma TieSwap<T>(cmp: (T, T) -> real, x: T, a: T, b: T, t: seq<T>)
    requires Consistent(cmp, [x, a, b])
    requires cmp(a, b) > 0.0
    ensures Tie(cmp, x, b) + (Tie(cmp, x, a) + t) == Tie(cmp, x, a) + (Tie(cmp, x, b) + t)
  {
    if cmp(a, x) == 0.0 && cmp(b, x) == 0.0 {
      Antisym(cmp, [x, a, b], x, b);
      Trans(cmp, [x, a, b], a, x, b);
    } else if cmp(a, x) == 0.0 {
      assert Tie(cmp, x, b) == [];
    } else {
      assert Tie(cmp, x, a) == [];
    }
  }

  /** The step of `InsertTies` where `a` moves past the head of `l`. */
  lemma InsertTiesBehind<T>(cmp: (T, T) -> real, x: T, a: T, l: seq<T>, rest: seq<T>)
    requires l != [] && cmp(a, l[0]) > 0.0 && Consistent(cmp, [x, a, l[0]])
    requires Ties(cmp, x, rest) == Tie(cmp, x, a) + Ties(cmp, x, l[1..])
    ensures Ties(cmp, x, [l[0]] + rest) == Tie(cmp, x, a) + Ties(cmp, x, l)
  {
    assert l == [l[0]] + l[1..];
    TiesCons(cmp, x, l[0], rest);
    TiesCons(cmp, x, l[0], l[1..]);
    TieSwap(cmp, x, a, l[0], Ties(cmp, x, l[1..]));
  }

  lemma {:induction false} InsertTies<T>(cmp: (T, T) -> real, x: T, a: T, l: seq<T>)
    requires Consistent(cmp, [x, a] + l)
    ensures Ties(cmp, x, Insert(cmp, a, l)) == Tie(cmp, x, a) + Ties(cmp, x, l)
  {
    if l == [] {
      assert Insert(cmp, a, l) == [a] + [];
      TiesCons(cmp, x, a, []);
    } else if cmp(a, l[0]) <= 0.0 {
      assert Insert(cmp, a, l) == [a] + l;
      TiesCons(cmp, x, a, l);
    } else {
      var rest := Insert(cmp, a, l[1..]);
      assert Insert(cmp, a, l) == [l[0]] + rest;
      assert l == [l[0]] + l[1..];
      ConsistentSub(cmp, [x, a] + l, [x, a] + l[1..]);
      InsertTies(cmp, x, a, l[1..]);
      ConsistentSub(cmp, [x, a] + l, [x, a, l[0]]);
      InsertTiesBehind(cmp, x, a, l, rest);
    }
  }

  /**
   Stability: for any `x` the comparator treats consistently, the elements
   tying with `x` appear in the output in the order they had in the input.
   */
  lemma {:induction false} SortStable<T>(cmp: (T, T) -> real, x: T, s: seq<T>)
    requires Consistent(cmp, [x] + s)
    ensures Ties(cmp, x, Sort(cmp, s)) == Ties(cmp, x, s)
  {
    if s != [] {
      var rest := Sort(cmp, s[1..]);
      assert s == [s[0]] + s[1..];
      ConsistentSub(cmp, [x] + s, [x] + s[1..]);
      SortStable(cmp, x, s[1..]);
      ConsistentSub(cmp, [x] + s, [x, s[0]] + rest);
      InsertTies(cmp, x, s[0], rest);
      TiesCons(cmp, x, s[0], s[1..]);
    }
  }

  /** The head of a sorted sequence is inserted back in front of its tail. */
  lemma InsertLeast<T>(cmp: (T, T) -> real, s: seq<T>)
    requires Sorted(cmp, s) && s != []
    ensures Insert(cmp, s[0], s[1..]) == s
  {
    if |s| > 1 {
      assert cmp(s[0], s[1]) <= 0.0;
      assert s[1..][0] == s[1];
    }
    assert s == [s[0]] + s[1..];
  }

  /** Sorting an already sorted sequence leaves it unchanged. */
  lemma {:induction false} SortOfSorted<T>(cmp: (T, T) -> real, s: seq<T>)
    requires Sorted(cmp, s)
    ensures Sort(cmp, s) == s
  {
    if s != [] {
      SortedTail(cmp, s);
      SortOfSorted(cmp, s[1..]);
      InsertLeast(cmp, s);
    }
  }

  /** Re-sorting a sorted result changes nothing. */
  lemma SortIdempotent<T>(cmp: (T, T) -> real, s: seq<T>)
    requires Consistent(cmp, s)
    ensures Sort(cmp, Sort(cmp, s)) == Sort(cmp, s)
  {
    SortSorted(cmp, s);
    SortOfSorted(cmp, Sort(cmp, s));
  }

  /** A consistent comparator ties every element with itself. */
  lemma TieReflexive<T>(cmp: (T, T) -> real, s: seq<T>, a: T)
    requires Consistent(cmp, s) && a in s
    ensures cmp(a, a) == 0.0
  {
    Antisym(cmp, s, a, a);
  }

  /** In a sorted sequence the head compares not after any element. */
  lemma HeadIsLeast<T>(cmp: (T, T) -> real, p: seq<T>, b: T)
    requires Consistent(cmp, p) && Sorted(cmp, p) && p != [] && b in p
    ensures cmp(p[0], b) <= 0.0
  {
    var k :| 0 <= k < |p| && p[k] == b;
    if k == 0 {
      TieReflexive(cmp, p, b);
    }
  }

  /** The heads of two sorted permutations of each other tie. */
  lemma HeadsTie<T>(cmp: (T, T) -> real, p: seq<T>, q: seq<T>)
    requires Consistent(cmp, p) && Sorted(cmp, p) && Sorted(cmp, q) && p != []
    requires multiset(p) == multiset(q)
    ensures q != [] && cmp(q[0], p[0]) == 0.0
  {
    assert |q| == |multiset(q)| == |p|;
    assert p[0] in multiset(q) && q[0] in multiset(p);
    HeadIsLeast(cmp, p, q[0]);
    ConsistentSub(cmp, p, q);
    HeadIsLeast(cmp, q, p[0]);
    Antisym(cmp, p, p[0], q[0]);
  }

  /** Sequences whose heads tie with the first head, and whose tie classes agree, share that head. */
  lemma SameHead<T>(cmp: (T, T) -> real, p: seq<T>, q: seq<T>)
    requires p != [] && q != []
    requires cmp(p[0], p[0]) == 0.0 && cmp(q[0], p[0]) == 0.0
    requires Ties(cmp, p[0], p) == Ties(cmp, p[0], q)
    ensures p[0] == q[0]
  {
    assert p == [p[0]] + p[1..] && q == [q[0]] + q[1..];
    TiesCons(cmp, p[0], p[0], p[1..]);
    TiesCons(cmp, p[0], q[0], q[1..]);
    assert Ties(cmp, p[0], p)[0] == p[0];
  }

  /** Dropping a common head keeps every tie class in the same order. */
  lemma TiesOfTails<T>(cmp: (T, T) -> real, x: T, p: seq<T>, q: seq<T>)
    requires p != [] && q != [] && p[0] == q[0]
    requires Ties(cmp, x, p) == Ties(cmp, x, q)
    ensures Ties(cmp, x, p[1..]) == Ties(cmp, x, q[1..])
  {
    assert p == [p[0]] + p[1..] && q == [q[0]] + q[1..];
    TiesCons(cmp, x, p[0], p[1..]);
    TiesCons(cmp, x, p[0], q[1..]);
    PrefixCancel(Tie(cmp, x, p[0]), Ties(cmp, x, p[1..]), Ties(cmp, x, q[1..]));
  }

  lemma PrefixCancel<T>(a: seq<T>, b: seq<T>, c: seq<T>)
    requires a + b == a + c
    ensures b == c
  {
    assert b == (a + b)[|a|..];
    assert c == (a + c)[|a|..];
  }

  /** Dropping a common head keeps the two sequences permutations of each other. */
  lemma TailsPermuted<T>(p: seq<T>, q: seq<T>)
    requires p != [] && q != [] && p[0] == q[0] && multiset(p) == multiset(q)
    ensures multiset(p[1..]) == multiset(q[1..])
  {
    var h := p[0];
    assert multiset(p) == multiset([h]) + multiset(p[1..]) by {
      assert p == [h] + p[1..];
    }
    assert multiset(q) == multiset([h]) + multiset(q[1..]) by {
      assert q == [h] + q[1..];
    }
    assert multiset(p[1..]) == multiset(p) - multiset([h]);
    assert multiset(q[1..]) == multiset(q) - multiset([h]);
  }

  lemma TailsTiesAgree<T>(cmp: (T, T) -> real, p: seq<T>, q: seq<T>)
    requires p != [] && q != [] && p[0] == q[0]
    requires forall x | x in p :: Ties(cmp, x, p) == Ties(cmp, x, q)
    ensures forall x | x in p[1..] :: Ties(cmp, x, p[1..]) == Ties(cmp, x, q[1..])
  {
    forall x | x in p[1..]
      ensures Ties(cmp, x, p[1..]) == Ties(cmp, x, q[1..])
    {
      assert x in p;
      TiesOfTails(cmp, x, p, q);
    }
  }

  lemma SortedTail<T>(cmp: (T, T) -> real, s: seq<T>)
    requires Sorted(cmp, s) && s != []
    ensures Sorted(cmp, s[1..])
  {
    forall i, j | 0 <= i < j < |s[1..]| ensures cmp(s[1..][i], s[1..][j]) <= 0.0 {
      assert s[1..][i] == s[i + 1] && s[1..][j] == s[j + 1];
    }
  }

  lemma TailConsistentSorted<T>(cmp: (T, T) -> real, s: seq<T>)
    requires Consistent(cmp, s) && Sorted(cmp, s) && s != []
    ensures Consistent(cmp, s[1..]) && Sorted(cmp, s[1..])
  {
    assert s == [s[0]] + s[1..];
    ConsistentSub(cmp, s, s[1..]);
    SortedTail(cmp, s);
  }

  /**
   A sorted arrangement is determined by its elements and by the order of
   every tie class: two sorted permutations of each other whose tie classes
   appear in the same order are equal.
   */
  lemma {:induction false} SortedUnique<T>(cmp: (T, T) -> real, p: seq<T>, q: seq<T>)
    requires Consistent(cmp, p) && Sorted(cmp, p) && Sorted(cmp, q)
    requires multiset(p) == multiset(q)
    requires forall x | x in p :: Ties(cmp, x, p) == Ties(cmp, x, q)
    ensures p == q
  {
    if p == [] {
      assert |q| == |multiset(q)| == 0;
    } else {
      HeadsTie(cmp, p, q);
      TieReflexive(cmp, p, p[0]);
      assert p[0] in p;
      SameHead(cmp, p, q);
      TailsPermuted(p, q);
      TailsTiesAgree(cmp, p, q);
      TailConsistentSorted(cmp, p);
      SortedTail(cmp, q);
      SortedUnique(cmp, p[1..], q[1..]);
      assert p == [p[0]] + p[1..] && q == [q[0]] + q[1..];
    }
  }
}
