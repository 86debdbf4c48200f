/** Generic facts about sequences used by the list-building loops of the model. */
module Seqs {
  import opened Outcomes

  /** `[f(x) for x in s]`. */
  function Map<A, B>(f: A -> B, s: seq<A>): (r: seq<B>)
    ensures |r| == |s|
    ensures forall i {:trigger r[i]} :: 0 <= i < |s| ==> r[i] == f(s[i])
  {
    if s == [] then [] else [f(s[0])] + Map(f, s[1..])
  }

  lemma MapAppend<A, B>(f: A -> B, a: seq<A>, b: seq<A>)
    ensures Map(f, a + b) == Map(f, a) + Map(f, b)
  {
  }

  /** Removing the element at `j` takes exactly that element out of the multiset. */
  lemma RemoveAt<T>(s: seq<T>, j: nat)
    requires j < |s|
    ensures multiset(s) == multiset{s[j]} + multiset(s[..j] + s[j + 1..])
  {
    assert s == s[..j] + [s[j]] + s[j + 1..];
  }

  lemma {:induction false} MapRemoveAt<A, B>(f: A -> B, s: seq<A>, j: nat)
    requires j < |s|
    ensures multiset(Map(f, s)) == multiset{f(s[j])} + multiset(Map(f, s[..j] + s[j + 1..]))
  {
    if j == 0 {
      assert s[..0] + s[1..] == s[1..];
    } else {
      var t := s[1..];
      MapRemoveAt(f, t, j - 1);
      var rest := t[..j - 1] + t[j..];
      assert s[..j] + s[j + 1..] == [s[0]] + rest;
      assert t[j - 1] == s[j];
      assert Map(f, [s[0]] + rest) == [f(s[0])] + Map(f, rest);
    }
  }

  /** Permutations of each other have the same length. */
  lemma PermutationLength<T>(a: seq<T>, b: seq<T>)
    requires multiset(a) == multiset(b)
    ensures |a| == |b|
  {
    assert |multiset(a)| == |a| && |multiset(b)| == |b|;
  }

  /** Mapping a permutation gives a permutation of the mapped sequence. */
  lemma {:induction false} MapPermutation<A, B>(f: A -> B, a: seq<A>, b: seq<A>)
    requires multiset(a) == multiset(b)
    ensures multiset(Map(f, a)) == multiset(Map(f, b))
    decreases |a|
  {
    if a == [] {
      assert b == [] by { assert |multiset(b)| == 0; }
    } else {
      var x := a[0];
      assert x in multiset(b);
      var j :| 0 <= j < |b| && b[j] == x;
      var b' := b[..j] + b[j + 1..];
      RemoveAt(a, 0);
      RemoveAt(b, j);
      assert a[..0] + a[1..] == a[1..];
      MultisetCancel(x, multiset(a[1..]), multiset(b'));
      MapPermutation(f, a[1..], b');
      MapRemoveAt(f, a, 0);
      MapRemoveAt(f, b, j);
    }
  }

  /** Mapping the two parts of a split of `s` separately gives a permutation of mapping `s`. */
  lemma MapSplit<A, B>(f: A -> B, a: seq<A>, b: seq<A>, s: seq<A>)
    requires multiset(a) + multiset(b) == multiset(s)
    ensures multiset(Map(f, a) + Map(f, b)) == multiset(Map(f, s))
  {
    MapAppend(f, a, b);
    MapPermutation(f, a + b, s);
  }

  /** When `f` gives no value on `b`, the values `f` gives on `a` are those it gives on
      `s`, of which `a` and `b` are a split. */
  lemma SomesSplit<A, B>(f: A -> Option<B>, a: seq<A>, b: seq<A>, s: seq<A>)
    requires multiset(a) + multiset(b) == multiset(s)
    requires forall i :: 0 <= i < |b| ==> f(b[i]).None?
    ensures multiset(Somes(Map(f, a))) == multiset(Somes(Map(f, s)))
  {
    SomesOfNones(Map(f, b));
    MapSplit(f, a, b, s);
    SomesAppend(Map(f, a), Map(f, b));
    SomesPermutation(Map(f, a) + Map(f, b), Map(f, s));
  }

  lemma MultisetCancel<T>(x: T, p: multiset<T>, q: multiset<T>)
    requires multiset{x} + p == multiset{x} + q
    ensures p == q
  {
    forall y ensures p[y] == q[y] {
      assert (multiset{x} + p)[y] == (multiset{x} + q)[y];
    }
  }

  /** `[v for v in s if v is not None]`: the present values, in order. */
  function Somes<T>(s: seq<Option<T>>): (r: seq<T>)
    ensures |r| <= |s|
  {
    if s == [] then [] else (if s[0].Some? then [s[0].value] else []) + Somes(s[1..])
  }

  lemma {:induction false} SomesAppend<T>(a: seq<Option<T>>, b: seq<Option<T>>)
    ensures Somes(a + b) == Somes(a) + Somes(b)
  {
    if a != [] {
      assert (a + b)[1..] == a[1..] + b;
      SomesAppend(a[1..], b);
    } else {
      assert a + b == b;
    }
  }

  /** The present value of `x`, if any, as a sequence. */
  function Opt<T>(x: Option<T>): seq<T> {
    if x.Some? then [x.value] else []
  }

  lemma SomesCons<T>(x: Option<T>, s: seq<Option<T>>)
    ensures Somes([x] + s) == Opt(x) + Somes(s)
  {
    assert ([x] + s)[1..] == s;
  }

  /** Dropping the absent values commutes with taking out the element at `j`. */
  lemma SomesRemoveAt<T>(b: seq<Option<T>>, j: nat)
    requires j < |b|
    ensures multiset(Somes(b)) == multiset(Opt(b[j])) + multiset(Somes(b[..j] + b[j + 1..]))
  {
    var front, x, back := b[..j], b[j], b[j + 1..];
    calc {
      multiset(Somes(b));
      { SplitAt(b, j); }
      multiset(Somes(front + ([x] + back)));
      { SomesAppend(front, [x] + back); SomesCons(x, back); }
      multiset(Somes(front) + (Opt(x) + Somes(back)));
      { MultisetMiddle(Somes(front), Opt(x), Somes(back)); }
      multiset(Opt(x)) + multiset(Somes(front) + Somes(back));
      { SomesAppend(front, back); }
      multiset(Opt(x)) + multiset(Somes(front + back));
    }
  }

  lemma TakeAll<T>(s: seq<T>)
    ensures s[..|s|] == s
  {
  }

  lemma TakeSnoc<T>(s: seq<T>, k: nat)
    requires k < |s|
    ensures s[..k + 1] == s[..k] + [s[k]]
  {
  }

  lemma InitLast<T>(s: seq<T>)
    requires s != []
    ensures s == s[..|s| - 1] + [s[|s| - 1]]
  {
  }

  lemma HeadTail<T>(s: seq<T>)
    requires s != []
    ensures s == [s[0]] + s[1..]
  {
  }

  lemma Assoc<T>(a: seq<T>, b: seq<T>, c: seq<T>)
    ensures a + (b + c) == (a + b) + c
  {
  }

  lemma SplitAt<T>(s: seq<T>, j: nat)
    requires j < |s|
    ensures s == s[..j] + ([s[j]] + s[j + 1..])
  {
    assert s[j..] == [s[j]] + s[j + 1..];
    assert s == s[..j] + s[j..];
  }

  lemma MultisetMiddle<T>(a: seq<T>, m: seq<T>, c: seq<T>)
    ensures multiset(a + (m + c)) == multiset(m) + multiset(a + c)
  {
    calc {
      multiset(a + (m + c));
      multiset(a) + (multiset(m) + multiset(c));
      multiset(m) + (multiset(a) + multiset(c));
      multiset(m) + multiset(a + c);
    }
  }

  /** Dropping the absent values of two permutations of each other leaves permutations. */
  lemma {:induction false} SomesPermutation<T>(a: seq<Option<T>>, b: seq<Option<T>>)
    requires multiset(a) == multiset(b)
    ensures multiset(Somes(a)) == multiset(Somes(b))
    decreases |a|
  {
    if a == [] {
      assert b == [] by { assert |multiset(b)| == 0; }
    } else {
      var x := a[0];
      assert x in multiset(b);
      var j :| 0 <= j < |b| && b[j] == x;
      var b' := b[..j] + b[j + 1..];
      RemoveAt(a, 0);
      RemoveAt(b, j);
      assert a[..0] + a[1..] == a[1..];
      MultisetCancel(x, multiset(a[1..]), multiset(b'));
      SomesPermutation(a[1..], b');
      SomesRemoveAt(a, 0);
      SomesRemoveAt(b, j);
    }
  }

  lemma {:induction false} SomesOfNones<T>(s: seq<Option<T>>)
    requires forall i :: 0 <= i < |s| ==> s[i].None?
    ensures Somes(s) == []
  {
    if s != [] {
      SomesOfNones(s[1..]);
    }
  }

  /** Every element of `s` is distinct. */
  ghost predicate Distinct<T>(s: seq<T>) {
    forall i, j :: 0 <= i < j < |s| ==> s[i] != s[j]
  }
}
