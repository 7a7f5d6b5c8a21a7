/** Facts about sequences that several components share. */
module Sequences {

  datatype Option<+T> = None | Some(value: T)

  function Min(a: int, b: int): int { if a < b then a else b }

  /** The concatenation of a sequence of sequences. */
  function Flatten<T>(parts: seq<seq<T>>): seq<T> {
    if parts == [] then [] else parts[0] + Flatten(parts[1..])
  }

  lemma Associative<T>(a: seq<T>, b: seq<T>, c: seq<T>)
    ensures (a + b) + c == a + (b + c)
  {
  }

  lemma {:induction false} FlattenAppend<T>(a: seq<seq<T>>, b: seq<seq<T>>)
    ensures Flatten(a + b) == Flatten(a) + Flatten(b)
  {
    if a == [] {
      assert a + b == b;
    } else {
      FlattenAppend(a[1..], b);
      assert (a + b)[1..] == a[1..] + b;
      Associative(a[0], Flatten(a[1..]), Flatten(b));
    }
  }

  lemma FlattenSnoc<T>(a: seq<seq<T>>, x: seq<T>)
    ensures Flatten(a + [x]) == Flatten(a) + x
  {
    FlattenAppend(a, [x]);
    FlattenOne(x);
  }

  lemma FlattenOne<T>(x: seq<T>)
    ensures Flatten([x]) == x
  {
    assert Flatten([x]) == x + Flatten([]);
  }

  /** The total of `f` over a sequence. */
  function Sum<T>(f: T -> int, s: seq<T>): int {
    if s == [] then 0 else f(s[0]) + Sum(f, s[1..])
  }

  function Identity(): int -> int { (x: int) => x }

  lemma {:induction false} SumAppend<T>(f: T -> int, a: seq<T>, b: seq<T>)
    ensures Sum(f, a + b) == Sum(f, a) + Sum(f, b)
  {
    if a == [] {
      assert a + b == b;
    } else {
      SumAppend(f, a[1..], b);
      assert (a + b)[1..] == a[1..] + b;
    }
  }

  /** Changing one entry changes the total by the difference. */
  lemma {:induction false} SumUpdate<T>(f: T -> int, s: seq<T>, i: nat, x: T)
    requires i < |s|
    ensures Sum(f, s[i := x]) == Sum(f, s) - f(s[i]) + f(x)
  {
    if i == 0 {
      assert s[0 := x][1..] == s[1..];
    } else {
      SumUpdate(f, s[1..], i - 1, x);
      assert s[i := x][1..] == s[1..][i - 1 := x];
    }
  }

  lemma {:induction false} SumNonNegative<T>(f: T -> int, s: seq<T>)
    requires forall x :: x in s ==> f(x) >= 0
    ensures Sum(f, s) >= 0
    ensures forall x :: x in s ==> f(x) <= Sum(f, s)
  {
    if s != [] {
      SumNonNegative(f, s[1..]);
    }
  }

  lemma {:induction false} SumZero<T>(f: T -> int, s: seq<T>)
    requires forall x :: x in s ==> f(x) == 0
    ensures Sum(f, s) == 0
  {
    if s != [] {
      SumZero(f, s[1..]);
    }
  }

  lemma {:induction false} SumSame<T>(f: T -> int, g: T -> int, s: seq<T>)
    requires forall x :: x in s ==> f(x) == g(x)
    ensures Sum(f, s) == Sum(g, s)
  {
    if s != [] {
      SumSame(f, g, s[1..]);
    }
  }

  /** The elements that satisfy `p`, in order. */
  function Filter<T>(p: T -> bool, s: seq<T>): seq<T> {
    if s == [] then [] else (if p(s[0]) then [s[0]] else []) + Filter(p, s[1..])
  }

  lemma {:induction false} FilterAppend<T>(p: T -> bool, a: seq<T>, b: seq<T>)
    ensures Filter(p, a + b) == Filter(p, a) + Filter(p, b)
  {
    if a == [] {
      assert a + b == b;
    } else {
      assert (a + b)[1..] == a[1..] + b;
      FilterAppend(p, a[1..], b);
      Associative(if p(a[0]) then [a[0]] else [], Filter(p, a[1..]), Filter(p, b));
    }
  }

  lemma FilterSnoc<T>(p: T -> bool, a: seq<T>, x: T)
    ensures Filter(p, a + [x]) == if p(x) then Filter(p, a) + [x] else Filter(p, a)
  {
    FilterAppend(p, a, [x]);
    assert [x][1..] == [];
  }

  /** Two complementary filters share out the sequence. */
  lemma {:induction false} FilterPartition<T>(p: T -> bool, q: T -> bool, s: seq<T>)
    requires forall x :: x in s ==> p(x) != q(x)
    ensures multiset(s) == multiset(Filter(p, s)) + multiset(Filter(q, s))
  {
    if s != [] {
      assert s == [s[0]] + s[1..];
      FilterPartition(p, q, s[1..]);
    }
  }

  /** Two positions that hold the same value count twice. */
  lemma CountTwice<T>(s: seq<T>, i: nat, j: nat)
    requires i < j < |s| && s[i] == s[j]
    ensures multiset(s)[s[i]] >= 2
  {
    assert s == s[..j] + s[j..];
    assert s[i] in s[..j] by { assert s[..j][i] == s[i]; }
    assert s[j] in s[j..] by { assert s[j..][0] == s[j]; }
  }

  function RemoveAt<T>(s: seq<T>, i: nat): seq<T>
    requires i < |s|
  {
    s[..i] + s[i + 1..]
  }

  lemma RemoveAtMultiset<T>(s: seq<T>, i: nat)
    requires i < |s|
    ensures multiset(s) == multiset(RemoveAt(s, i)) + multiset{s[i]}
  {
    assert s == s[..i] + ([s[i]] + s[i + 1..]);
  }

  lemma SumRemoveAt<T>(f: T -> int, s: seq<T>, i: nat)
    requires i < |s|
    ensures Sum(f, s) == Sum(f, RemoveAt(s, i)) + f(s[i])
  {
    assert s == s[..i] + s[i..];
    assert s[i..][1..] == s[i + 1..];
    SumAppend(f, s[..i], s[i..]);
    SumAppend(f, s[..i], s[i + 1..]);
  }

  /** A total does not depend on the order. */
  lemma {:induction false} SumPermuted<T>(f: T -> int, a: seq<T>, b: seq<T>)
    requires multiset(a) == multiset(b)
    ensures Sum(f, a) == Sum(f, b)
    decreases |a|
  {
    if a == [] {
      assert |b| == |multiset(b)| == 0;
    } else {
      assert a[0] in multiset(b);
      var i :| 0 <= i < |b| && b[i] == a[0];
      RemoveAtMultiset(a, 0);
      RemoveAtMultiset(b, i);
      assert RemoveAt(a, 0) == a[1..];
      assert multiset(a[1..]) == multiset(a) - multiset{a[0]} == multiset(RemoveAt(b, i));
      SumPermuted(f, a[1..], RemoveAt(b, i));
      SumRemoveAt(f, b, i);
    }
  }
}
