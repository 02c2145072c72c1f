/** Generic sequence helpers shared by the proxy's subscriber list, the log
    registry and the line framer. */
module Seqs {
  import opened Wrappers

  /** Concatenation of a list of sequences, in order. */
  function Flatten<T>(ss: seq<seq<T>>): seq<T>
  {
    if ss == [] then [] else ss[0] + Flatten(ss[1..])
  }

  lemma {:induction false} FlattenAppend<T>(a: seq<seq<T>>, b: seq<seq<T>>)
    ensures Flatten(a + b) == Flatten(a) + Flatten(b)
  {
    if a == [] {
      assert a + b == b;
    } else {
      assert (a + b)[1..] == a[1..] + b;
      FlattenAppend(a[1..], b);
    }
  }

  /** `f` applied to every element, in order. */
  function Apply<A, B>(f: A -> B, s: seq<A>): (r: seq<B>)
    ensures |r| == |s|
    decreases |s|
  {
    if s == [] then [] else Apply(f, s[..|s| - 1]) + [f(s[|s| - 1])]
  }

  lemma {:induction false} ApplyAppend<A, B>(f: A -> B, a: seq<A>, b: seq<A>)
    ensures Apply(f, a + b) == Apply(f, a) + Apply(f, b)
    decreases |b|
  {
    if b != [] {
      var init := b[..|b| - 1];
      assert (a + b)[..|a + b| - 1] == a + init;
      ApplyAppend(f, a, init);
    } else {
      assert a + b == a;
    }
  }

  /** No element occurs twice. */
  predicate NoDuplicates<T(==)>(s: seq<T>)
  {
    forall i, j :: 0 <= i < j < |s| ==> s[i] != s[j]
  }

  /** `s` with every occurrence of `x` dropped; the other elements keep their order. */
  function Without<T(==)>(s: seq<T>, x: T): (r: seq<T>)
    ensures x !in r
    ensures forall i :: 0 <= i < |s| && s[i] != x ==> s[i] in r
    ensures forall i :: 0 <= i < |r| ==> r[i] in s
    ensures x !in s ==> r == s
    ensures |r| <= |s|
  {
    if s == [] then []
    else if s[0] == x then Without(s[1..], x)
    else [s[0]] + Without(s[1..], x)
  }

  /** Python's `list.remove`: drops the first occurrence of `x`. */
  function RemoveFirst<T(==)>(s: seq<T>, x: T): (r: seq<T>)
    requires x in s
    ensures |r| == |s| - 1
  {
    if s[0] == x then s[1..] else [s[0]] + RemoveFirst(s[1..], x)
  }

  /** Removing the first occurrence does not change what remains once every
      occurrence is gone; this is what makes a remove-while-present loop
      compute `Without`. */
  lemma {:induction false} WithoutRemoveFirst<T>(s: seq<T>, x: T)
    requires x in s
    ensures Without(RemoveFirst(s, x), x) == Without(s, x)
  {
    if s[0] != x {
      WithoutRemoveFirst(s[1..], x);
      assert ([s[0]] + RemoveFirst(s[1..], x))[1..] == RemoveFirst(s[1..], x);
    }
  }

  /** Dropping elements keeps a list free of duplicates. */
  lemma {:induction false} WithoutKeepsNoDuplicates<T>(s: seq<T>, x: T)
    requires NoDuplicates(s)
    ensures NoDuplicates(Without(s, x))
  {
    if s != [] {
      WithoutKeepsNoDuplicates(s[1..], x);
      if s[0] != x {
        assert s[0] !in s[1..];
      }
    }
  }

  /** Applies a partial conversion to each element in order, stopping at
      the first element it refuses; the failure carries that index. */
  function MapAll<A, B>(f: A -> Option<B>, xs: seq<A>): Result<seq<B>, nat>
  {
    if xs == [] then Success([])
    else match f(xs[0])
      case None => Failure(0)
      case Some(y) =>
        match MapAll(f, xs[1..])
        case Success(ys) => Success([y] + ys)
        case Failure(k) => Failure(k + 1)
  }

  /** A converted prefix leaves the rest to decide the outcome. */
  /** A list whose first element maps: that element heads the mapped rest. */
  lemma MapAllCons<A, B>(f: A -> Option<B>, xs: seq<A>)
    requires xs != [] && f(xs[0]).Some?
    ensures MapAll(f, xs) ==
      match MapAll(f, xs[1..])
      case Success(ys) => Success([f(xs[0]).value] + ys)
      case Failure(k) => Failure(k + 1)
  {
  }

  lemma {:induction false} MapAllAppend<A, B>(f: A -> Option<B>, a: seq<A>, b: seq<A>)
    requires MapAll(f, a).Success?
    ensures MapAll(f, a + b) ==
      match MapAll(f, b)
      case Success(q) => Success(MapAll(f, a).value + q)
      case Failure(k) => Failure(|a| + k)
  {
    if a == [] {
      assert a + b == b;
      if MapAll(f, b).Success? {
        assert MapAll(f, a).value + MapAll(f, b).value == MapAll(f, b).value;
      }
    } else {
      var y := f(a[0]).value;
      assert (a + b)[0] == a[0] && (a + b)[1..] == a[1..] + b;
      MapAllAppend(f, a[1..], b);
      MapAllCons(f, a);
      MapAllCons(f, a + b);
      hide MapAll;
      var rest := MapAll(f, a[1..]).value;
      match MapAll(f, b)
      case Success(q) =>
        assert [y] + (rest + q) == ([y] + rest) + q;
      case Failure(k) =>
    }
  }

  /** One turn of a convert-each loop: the next element either extends the
      converted prefix or is where the whole conversion fails. */
  lemma MapAllStep<A, B>(f: A -> Option<B>, xs: seq<A>, i: nat)
    requires i < |xs| && MapAll(f, xs[..i]).Success?
    ensures f(xs[i]).Some? ==> MapAll(f, xs[..i + 1]) == Success(MapAll(f, xs[..i]).value + [f(xs[i]).value])
    ensures f(xs[i]).None? ==> MapAll(f, xs) == Failure(i)
  {
    if f(xs[i]).Some? {
      assert xs[..i + 1] == xs[..i] + [xs[i]];
      MapAllSingle(f, xs[i]);
      MapAllAppend(f, xs[..i], [xs[i]]);
    } else {
      assert xs[..i] + xs[i..] == xs;
      assert xs[i..][0] == xs[i];
      MapAllAppend(f, xs[..i], xs[i..]);
    }
  }

  lemma MapAllSingle<A, B>(f: A -> Option<B>, x: A)
    requires f(x).Some?
    ensures MapAll(f, [x]) == Success([f(x).value])
  {
    assert [x][1..] == [];
    assert [f(x).value] + [] == [f(x).value];
  }

  /** What a successful conversion means: one result per element, each the
      conversion of its element. */
  lemma {:induction false} MapAllMeaning<A, B>(f: A -> Option<B>, xs: seq<A>)
    requires MapAll(f, xs).Success?
    ensures |MapAll(f, xs).value| == |xs|
    ensures forall i :: 0 <= i < |xs| ==> f(xs[i]) == Some(MapAll(f, xs).value[i])
  {
    if xs != [] {
      MapAllMeaning(f, xs[1..]);
    }
  }

  /** A failed conversion names an element that the conversion refuses. */
  lemma {:induction false} MapAllFailure<A, B>(f: A -> Option<B>, xs: seq<A>)
    requires MapAll(f, xs).Failure?
    ensures MapAll(f, xs).error < |xs| && f(xs[MapAll(f, xs).error]).None?
  {
    if f(xs[0]).Some? {
      MapAllFailure(f, xs[1..]);
    }
  }
}
