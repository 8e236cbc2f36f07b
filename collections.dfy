/** Sequence and set helpers standing for the Python built-ins the scripts use:
    `set(xs)` (Elems), `sorted(list)` (Sort) and `tuple(sorted(a_set))` (SortedElems),
    plus the bookkeeping facts about them that the model's proofs need. */
module Collections {

  /** An alternative (candidate) is a non-negative integer, as in `range(num_alts)`. */
  type Alt = nat

  datatype Option<T> = None | Some(value: T)

  datatype Result<T, E> = Ok(value: T) | Err(error: E)

  /** The set of entries of a list: Python's `set(xs)`. */
  function Elems<T>(s: seq<T>): set<T>
  {
    set x | x in s
  }

  predicate NoDup<T(==)>(s: seq<T>)
  {
    forall i, j | 0 <= i < j < |s| :: s[i] != s[j]
  }

  predicate Sorted(s: seq<Alt>)
  {
    forall i, j | 0 <= i < j < |s| :: s[i] <= s[j]
  }

  predicate Increasing(s: seq<Alt>)
  {
    forall i, j | 0 <= i < j < |s| :: s[i] < s[j]
  }

  /** Python's `sum` over a list of counts. */
  function Sum(s: seq<nat>): nat
  {
    if s == [] then 0 else s[0] + Sum(s[1..])
  }

  /** Python's slice `s[:n]`, which is the whole list when `n` is too large. */
  function Take<T>(s: seq<T>, n: nat): (r: seq<T>)
    ensures |r| == if n <= |s| then n else |s|
  {
    if n <= |s| then s[..n] else s
  }

  /** `[(x,) + c for c in cs]`: x put in front of every list. */
  function Prepend<T>(x: T, cs: seq<seq<T>>): (r: seq<seq<T>>)
    ensures |r| == |cs|
    ensures forall i | 0 <= i < |cs| :: r[i] == [x] + cs[i]
  {
    seq(|cs|, i requires 0 <= i < |cs| => [x] + cs[i])
  }

  /** `itertools.chain(*lists)`. */
  function Concat<T>(ss: seq<seq<T>>): seq<T>
  {
    if ss == [] then [] else ss[0] + Concat(ss[1..])
  }

  lemma {:induction false} ConcatMember<T>(ss: seq<seq<T>>, x: T)
    ensures x in Concat(ss) <==> exists i :: 0 <= i < |ss| && x in ss[i]
  {
    if ss != [] {
      ConcatMember(ss[1..], x);
      if x in Concat(ss[1..]) {
        var i :| 0 <= i < |ss[1..]| && x in ss[1..][i];
        assert x in ss[i + 1];
      }
      if exists i :: 0 <= i < |ss| && x in ss[i] {
        var i :| 0 <= i < |ss| && x in ss[i];
        if i > 0 { assert x in ss[1..][i - 1]; }
      }
    }
  }

  lemma {:induction false} NoDupCard<T>(s: seq<T>)
    requires NoDup(s)
    ensures |Elems(s)| == |s|
  {
    if s != [] {
      NoDupCard(s[1..]);
      assert Elems(s) == {s[0]} + Elems(s[1..]);
      assert s[0] !in Elems(s[1..]);
    }
  }

  lemma {:induction false} ElemsCard<T>(s: seq<T>)
    ensures |Elems(s)| <= |s|
  {
    if s != [] {
      ElemsCard(s[1..]);
      assert Elems(s) == {s[0]} + Elems(s[1..]);
    }
  }

  lemma SubsetCard<T>(a: set<T>, b: set<T>)
    requires a <= b
    ensures |a| <= |b|
    ensures |a| == |b| ==> a == b
  {
    assert b == a + (b - a);
    assert |b| == |a| + |b - a|;
    if |a| == |b| {
      assert b - a == {};
    }
  }

  /** Two duplicate-free lists hold the same multiset iff they hold the same elements. */
  lemma NoDupMultiset<T>(a: seq<T>, b: seq<T>)
    requires NoDup(a) && NoDup(b)
    ensures multiset(a) == multiset(b) <==> Elems(a) == Elems(b)
  {
    if Elems(a) == Elems(b) {
      forall x ensures multiset(a)[x] == multiset(b)[x] {
        assert x in a <==> x in Elems(a);
        assert x in b <==> x in Elems(b);
        NoDupCount(a, x);
        NoDupCount(b, x);
      }
      assert multiset(a) == multiset(b);
    }
    if multiset(a) == multiset(b) {
      forall x ensures x in a <==> x in b {
        assert x in a <==> x in multiset(a);
        assert x in b <==> x in multiset(b);
      }
    }
  }

  lemma {:induction false} NoDupCount<T>(s: seq<T>, x: T)
    requires NoDup(s)
    ensures multiset(s)[x] == if x in s then 1 else 0
  {
    if s != [] {
      NoDupCount(s[1..], x);
      assert s == [s[0]] + s[1..];
      assert multiset(s) == multiset{s[0]} + multiset(s[1..]);
      assert s[0] !in s[1..];
    }
  }

  // ---------------------------------------------------------------------------
  // sorted(list)

  lemma SortedCons(h: Alt, t: seq<Alt>)
    requires Sorted(t)
    requires forall i | 0 <= i < |t| :: h <= t[i]
    ensures Sorted([h] + t)
  {
    var s := [h] + t;
    forall i, j | 0 <= i < j < |s| ensures s[i] <= s[j] {
      assert s[j] == t[j - 1];
      if i > 0 { assert s[i] == t[i - 1]; }
    }
  }

  lemma IncreasingCons(h: Alt, t: seq<Alt>)
    requires Increasing(t)
    requires forall i | 0 <= i < |t| :: h < t[i]
    ensures Increasing([h] + t)
  {
    var s := [h] + t;
    forall i, j | 0 <= i < j < |s| ensures s[i] < s[j] {
      assert s[j] == t[j - 1];
      if i > 0 { assert s[i] == t[i - 1]; }
    }
  }

  function Insert(x: Alt, s: seq<Alt>): (r: seq<Alt>)
    ensures multiset(r) == multiset([x] + s)
  {
    if s == [] || x <= s[0] then [x] + s
    else
      assert s == [s[0]] + s[1..];
      [s[0]] + Insert(x, s[1..])
  }

  lemma {:induction false} InsertSorted(x: Alt, s: seq<Alt>)
    requires Sorted(s)
    ensures Sorted(Insert(x, s))
  {
    if s == [] || x <= s[0] {
      SortedCons(x, s);
    } else {
      var rest := Insert(x, s[1..]);
      InsertSorted(x, s[1..]);
      forall i | 0 <= i < |rest| ensures s[0] <= rest[i] {
        assert rest[i] in multiset(rest);
        assert rest[i] in multiset([x] + s[1..]);
        assert rest[i] == x || rest[i] in s[1..];
      }
      SortedCons(s[0], rest);
    }
  }

  /** Python's `sorted` on a list of alternatives (insertion sort; a sorted
      permutation is unique, see SortedUnique). */
  function Sort(s: seq<Alt>): (r: seq<Alt>)
    ensures Sorted(r)
    ensures multiset(r) == multiset(s)
  {
    if s == [] then []
    else
      assert s == [s[0]] + s[1..];
      InsertSorted(s[0], Sort(s[1..]));
      Insert(s[0], Sort(s[1..]))
  }

  lemma SortedHeadIsMin(a: seq<Alt>, y: Alt)
    requires Sorted(a)
    requires y in multiset(a)
    ensures a != [] && a[0] <= y
  {
    assert y in a;
    var i :| 0 <= i < |a| && a[i] == y;
    assert a[0] <= a[i];
  }

  lemma {:induction false} SortedUnique(a: seq<Alt>, b: seq<Alt>)
    requires Sorted(a) && Sorted(b)
    requires multiset(a) == multiset(b)
    ensures a == b
  {
    if a != [] {
      assert a[0] in a;
      SortedHeadIsMin(b, a[0]);
      assert b[0] in b;
      SortedHeadIsMin(a, b[0]);
      assert a == [a[0]] + a[1..];
      assert b == [b[0]] + b[1..];
      assert a[0] == b[0];
      assert multiset(a) == multiset{a[0]} + multiset(a[1..]);
      assert multiset(b) == multiset{b[0]} + multiset(b[1..]);
      forall x ensures multiset(a[1..])[x] == multiset(b[1..])[x] {
        assert multiset(a)[x] == multiset{a[0]}[x] + multiset(a[1..])[x];
        assert multiset(b)[x] == multiset{b[0]}[x] + multiset(b[1..])[x];
      }
      assert multiset(a[1..]) == multiset(b[1..]);
      SortedUnique(a[1..], b[1..]);
    } else {
      assert |multiset(b)| == 0;
    }
  }

  /** `sorted(a) == sorted(b)` compares the two lists as multisets. */
  lemma SortEquality(a: seq<Alt>, b: seq<Alt>)
    ensures Sort(a) == Sort(b) <==> multiset(a) == multiset(b)
  {
    if multiset(a) == multiset(b) {
      SortedUnique(Sort(a), Sort(b));
    }
  }

  lemma RepeatCount<T>(s: seq<T>, i: nat, j: nat)
    requires i < j < |s| && s[i] == s[j]
    ensures multiset(s)[s[i]] >= 2
  {
    assert s == s[..j] + s[j..];
    assert multiset(s) == multiset(s[..j]) + multiset(s[j..]);
    assert s[i] in s[..j];
    assert s[j] in s[j..];
  }

  lemma MultisetNoDup<T>(a: seq<T>, b: seq<T>)
    requires multiset(a) == multiset(b)
    requires NoDup(b)
    ensures NoDup(a)
  {
    forall i, j | 0 <= i < j < |a| ensures a[i] != a[j] {
      if a[i] == a[j] {
        RepeatCount(a, i, j);
        NoDupCount(b, a[i]);
      }
    }
  }

  lemma SortElems(s: seq<Alt>)
    ensures Elems(Sort(s)) == Elems(s)
    ensures |Sort(s)| == |s|
    ensures NoDup(s) ==> Increasing(Sort(s))
  {
    var r := Sort(s);
    forall x ensures x in r <==> x in s {
      assert x in r <==> x in multiset(r);
      assert x in s <==> x in multiset(s);
    }
    assert |r| == |multiset(r)| == |multiset(s)| == |s|;
    if NoDup(s) {
      MultisetNoDup(r, s);
    }
  }

  // ---------------------------------------------------------------------------
  // tuple(sorted(a_set))

  /** m is the least element of s. */
  predicate IsMin(m: Alt, s: set<Alt>)
  {
    m in s && forall y | y in s :: m <= y
  }

  lemma MinUnique(s: set<Alt>, m: Alt, n: Alt)
    requires IsMin(m, s) && IsMin(n, s)
    ensures m == n
  {
    assert m <= n && n <= m;
  }

  lemma MinExists(s: set<Alt>)
    requires s != {}
    ensures exists m :: IsMin(m, s)
    decreases |s|
  {
    var x :| x in s;
    var rest := s - {x};
    assert s == rest + {x};
    if rest == {} {
      assert s == {x};
      assert IsMin(x, s);
    } else {
      MinExists(rest);
      var m :| IsMin(m, rest);
      MinOfInsert(rest, x, m);
    }
  }

  lemma MinOfInsert(rest: set<Alt>, x: Alt, m: Alt)
    requires IsMin(m, rest)
    ensures exists w :: IsMin(w, rest + {x})
  {
    var w := if x < m then x else m;
    forall y | y in rest + {x} ensures w <= y {
      if y in rest {
        assert m <= y;
      }
    }
    assert IsMin(w, rest + {x});
  }

  /** The elements of a finite set of alternatives in increasing order. */
  function SortedElems(s: set<Alt>): seq<Alt>
    decreases |s|
  {
    if s == {} then []
    else
      MinExists(s);
      var m :| IsMin(m, s);
      [m] + SortedElems(s - {m})
  }

  /** `tuple(sorted(s))` lists each element of s once, in increasing order. */
  lemma {:induction false} SortedElemsSpec(s: set<Alt>)
    ensures Increasing(SortedElems(s))
    ensures Elems(SortedElems(s)) == s
    ensures |SortedElems(s)| == |s|
    decreases |s|
  {
    if s != {} {
      MinExists(s);
      var m :| IsMin(m, s);
      assert SortedElems(s) == [m] + SortedElems(s - {m});
      SortedElemsSpec(s - {m});
      SortedElemsStep(s, m, SortedElems(s - {m}));
    }
  }

  lemma SortedElemsStep(s: set<Alt>, m: Alt, rest: seq<Alt>)
    requires IsMin(m, s)
    requires Increasing(rest) && Elems(rest) == s - {m} && |rest| == |s - {m}|
    ensures Increasing([m] + rest) && Elems([m] + rest) == s && |[m] + rest| == |s|
  {
    forall i | 0 <= i < |rest| ensures m < rest[i] {
      assert rest[i] in Elems(rest);
    }
    IncreasingCons(m, rest);
    assert Elems([m] + rest) == {m} + Elems(rest);
  }

  /** An increasing list is determined by its set of elements. */
  lemma IncreasingUnique(a: seq<Alt>, b: seq<Alt>)
    requires Increasing(a) && Increasing(b)
    requires Elems(a) == Elems(b)
    ensures a == b
  {
    NoDupMultiset(a, b);
    SortedUnique(a, b);
  }

  /** A set with one element is a singleton. */
  lemma Singleton<T>(s: set<T>)
    requires |s| == 1
    ensures exists x :: s == {x}
  {
    var x :| x in s;
    assert |s - {x}| == 0;
    assert s == {x};
  }

  /** `range(n)`. */
  function Range(n: nat): (r: seq<Alt>)
    ensures |r| == n
    ensures forall i | 0 <= i < n :: r[i] == i
  {
    seq(n, i requires 0 <= i < n => i)
  }

  lemma RangeFacts(n: nat)
    ensures Increasing(Range(n))
    ensures forall x: Alt :: x in Range(n) <==> x < n
  {
    forall x: Alt | x < n ensures x in Range(n) {
      assert Range(n)[x] == x;
    }
    forall x: Alt | x in Range(n) ensures x < n {
      var i :| 0 <= i < n && Range(n)[i] == x;
    }
  }

  lemma SortedElemsNoDup(s: set<Alt>)
    ensures NoDup(SortedElems(s))
  {
    SortedElemsSpec(s);
  }

  /** All subsets of a finite set. */
  function Subsets<T>(e: set<T>): set<set<T>>
  {
    set s | s <= e
  }

  /** The image of a set under a map is no larger than the set. */
  lemma {:induction false} ImageCard<T, U>(s: set<T>, f: T -> U)
    ensures |set x | x in s :: f(x)| <= |s|
  {
    if s != {} {
      var x :| x in s;
      ImageCard(s - {x}, f);
      assert (set y | y in s :: f(y)) <= (set y | y in s - {x} :: f(y)) + {f(x)};
      SubsetCard(set y | y in s :: f(y), (set y | y in s - {x} :: f(y)) + {f(x)});
    }
  }

  /** Adding one element to a set changes its overlap with M by at most that
      element. */
  lemma OverlapInsert(E: set<Alt>, M: set<Alt>, a: Alt)
    ensures |(E + {a}) * M| == |E * M| + (if a in M && a !in E then 1 else 0)
  {
    if a in M && a !in E {
      assert (E + {a}) * M == E * M + {a};
    } else {
      assert (E + {a}) * M == E * M;
    }
  }

  function Pow(b: nat, e: nat): nat
  {
    if e == 0 then 1 else b * Pow(b, e - 1)
  }

  lemma {:induction false} PowMonotone(b: nat, d: nat, e: nat)
    requires b >= 1 && d <= e
    ensures 1 <= Pow(b, d) <= Pow(b, e)
    decreases e
  {
    if e > 0 {
      if d < e {
        PowMonotone(b, d, e - 1);
      } else {
        PowMonotone(b, d - 1, e - 1);
      }
      assert Pow(b, e) == b * Pow(b, e - 1);
    }
  }
}
