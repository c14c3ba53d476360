/**
 List comprehensions over Dafny sequences, `[f(x) for x in xs]` and
 `[x for x in xs if p(x)]`, defined over the first `n` elements so that a loop
 that builds the list one element at a time can be proved against them.
 */
module Lists {
  import opened Wrappers

  /** `[f(x) for x in xs[:n]]`. */
  function MapPrefix<A, B>(f: A -> B, xs: seq<A>, n: nat): (r: seq<B>)
    requires n <= |xs|
    ensures |r| == n
  {
    if n == 0 then [] else MapPrefix(f, xs, n - 1) + [f(xs[n - 1])]
  }

  /** `[f(x) for x in xs]`. */
  function Map<A, B>(f: A -> B, xs: seq<A>): (r: seq<B>)
    ensures |r| == |xs|
  {
    MapPrefix(f, xs, |xs|)
  }

  /** Element `i` of the mapped list is `f` of element `i`. */
  lemma {:induction false} MapPrefixAt<A, B>(f: A -> B, xs: seq<A>, n: nat, i: nat)
    requires i < n <= |xs|
    ensures MapPrefix(f, xs, n)[i] == f(xs[i])
  {
    if i < n - 1 {
      MapPrefixAt(f, xs, n - 1, i);
    }
  }

  lemma MapAt<A, B>(f: A -> B, xs: seq<A>, i: nat)
    requires i < |xs|
    ensures Map(f, xs)[i] == f(xs[i])
  {
    MapPrefixAt(f, xs, |xs|, i);
  }

  /** `[x for x in xs[:n] if p(x)]`. */
  function FilterPrefix<A>(p: A -> bool, xs: seq<A>, n: nat): (r: seq<A>)
    requires n <= |xs|
    ensures |r| <= n
  {
    if n == 0 then []
    else if p(xs[n - 1]) then FilterPrefix(p, xs, n - 1) + [xs[n - 1]]
    else FilterPrefix(p, xs, n - 1)
  }

  /** `[x for x in xs if p(x)]`. */
  function Filter<A>(p: A -> bool, xs: seq<A>): (r: seq<A>)
    ensures |r| <= |xs|
  {
    FilterPrefix(p, xs, |xs|)
  }

  /** The filtered list holds exactly the elements of `xs[:n]` that satisfy `p`. */
  lemma {:induction false} FilterPrefixMembers<A>(p: A -> bool, xs: seq<A>, n: nat)
    requires n <= |xs|
    ensures forall x :: x in FilterPrefix(p, xs, n) <==> x in xs[..n] && p(x)
  {
    if n > 0 {
      FilterPrefixMembers(p, xs, n - 1);
      assert xs[..n] == xs[..n - 1] + [xs[n - 1]];
    }
  }

  lemma FilterMembers<A>(p: A -> bool, xs: seq<A>)
    ensures forall x :: x in Filter(p, xs) <==> x in xs && p(x)
  {
    FilterPrefixMembers(p, xs, |xs|);
    assert xs[..|xs|] == xs;
  }

  /** The first element of `xs` that satisfies `p`. */
  function FindFirst<A>(p: A -> bool, xs: seq<A>): (r: Option<A>)
    ensures r.Some? ==> r.value in xs && p(r.value)
  {
    if xs == [] then None
    else if p(xs[0]) then Some(xs[0])
    else FindFirst(p, xs[1..])
  }

  /** The element found is the first in list order that satisfies `p`; there
      is none only when no element does. */
  lemma {:induction false} FindFirstSpec<A>(p: A -> bool, xs: seq<A>)
    ensures FindFirst(p, xs).None? <==> forall i :: 0 <= i < |xs| ==> !p(xs[i])
    ensures FindFirst(p, xs).Some? ==>
              exists i :: 0 <= i < |xs| && xs[i] == FindFirst(p, xs).value
                          && forall j :: 0 <= j < i ==> !p(xs[j])
  {
    if xs != [] && !p(xs[0]) {
      FindFirstSpec(p, xs[1..]);
      if FindFirst(p, xs).Some? {
        var i :| 0 <= i < |xs[1..]| && xs[1..][i] == FindFirst(p, xs[1..]).value
                 && forall j :: 0 <= j < i ==> !p(xs[1..][j]);
        assert xs[i + 1] == xs[1..][i];
        assert forall j :: 1 <= j < i + 1 ==> xs[j] == xs[1..][j - 1];
      }
      forall i | 0 <= i < |xs| && FindFirst(p, xs).None? ensures !p(xs[i]) {
        if i > 0 {
          assert xs[i] == xs[1..][i - 1];
        }
      }
    }
  }

  /** `{f(x) for x in xs[:n] if keep(f(x))}`. */
  function SetPrefix<A, B>(f: A -> B, keep: B -> bool, xs: seq<A>, n: nat): set<B>
    requires n <= |xs|
  {
    if n == 0 then {}
    else SetPrefix(f, keep, xs, n - 1) + (if keep(f(xs[n - 1])) then {f(xs[n - 1])} else {})
  }

  /** `for x in xs: y = f(x); if keep(y): s.add(y)`, on the set `s`. */
  method AddImages<A, B>(s: set<B>, xs: seq<A>, f: A -> B, keep: B -> bool) returns (result: set<B>)
    ensures result == s + SetPrefix(f, keep, xs, |xs|)
  {
    result := s;
    var k := 0;
    while k < |xs|
      invariant k <= |xs|
      invariant result == s + SetPrefix(f, keep, xs, k)
    {
      var y := f(xs[k]);
      if keep(y) {
        result := result + {y};
      }
      k := k + 1;
    }
  }

  /** The set holds exactly the kept images of the first `n` elements. */
  lemma {:induction false} SetPrefixMembers<A, B>(f: A -> B, keep: B -> bool, xs: seq<A>, n: nat, y: B)
    requires n <= |xs|
    ensures y in SetPrefix(f, keep, xs, n) <==> keep(y) && exists i :: 0 <= i < n && f(xs[i]) == y
  {
    if n > 0 {
      SetPrefixMembers(f, keep, xs, n - 1, y);
      if f(xs[n - 1]) == y && keep(y) {
        assert y in SetPrefix(f, keep, xs, n);
      }
    }
  }

  /** `set().union(*(g(x) for x in xs[:n]))`. */
  function UnionPrefix<A, B>(g: A -> set<B>, xs: seq<A>, n: nat): set<B>
    requires n <= |xs|
  {
    if n == 0 then {} else UnionPrefix(g, xs, n - 1) + g(xs[n - 1])
  }

  lemma {:induction false} UnionPrefixMembers<A, B>(g: A -> set<B>, xs: seq<A>, n: nat, y: B)
    requires n <= |xs|
    ensures y in UnionPrefix(g, xs, n) <==> exists i :: 0 <= i < n && y in g(xs[i])
  {
    if n > 0 {
      UnionPrefixMembers(g, xs, n - 1, y);
      if y in g(xs[n - 1]) {
        assert y in UnionPrefix(g, xs, n);
      }
    }
  }

  /** `xs` lists the elements of `s`, each once, in some order. */
  predicate Enumerates<A(==)>(xs: seq<A>, s: set<A>) {
    && |xs| == |s|
    && (forall i :: 0 <= i < |xs| ==> xs[i] in s)
    && (forall x :: x in s ==> x in xs)
    && (forall i, j :: 0 <= i < j < |xs| ==> xs[i] != xs[j])
  }

  /** `ys` is `f` applied to the elements of `s` listed in some order. */
  ghost predicate MapsInSomeOrder<A(!new), B>(f: A -> B, s: set<A>, ys: seq<B>) {
    exists order :: Enumerates(order, s) && ys == Map(f, order)
  }

  /** Whatever the order, there is one image per element of `s`, and the
      images are exactly those of `s`. */
  lemma MapsInSomeOrderSpec<A(!new), B>(f: A -> B, s: set<A>, ys: seq<B>)
    requires MapsInSomeOrder(f, s, ys)
    ensures |ys| == |s|
    ensures forall y :: y in ys <==> exists x :: x in s && y == f(x)
  {
    var order :| Enumerates(order, s) && ys == Map(f, order);
    MapImages(f, order, s);
  }

  /** Mapping a list that holds exactly the elements of `s` gives exactly the
      images of `s`. */
  lemma MapImages<A, B>(f: A -> B, xs: seq<A>, s: set<A>)
    requires forall x :: x in xs <==> x in s
    ensures forall y :: y in Map(f, xs) <==> exists x :: x in s && y == f(x)
  {
    forall y ensures y in Map(f, xs) <==> exists x :: x in s && y == f(x) {
      if y in Map(f, xs) {
        var i :| 0 <= i < |xs| && Map(f, xs)[i] == y;
        MapAt(f, xs, i);
        assert xs[i] in s;
      }
      if exists x :: x in s && y == f(x) {
        var x :| x in s && y == f(x);
        var i :| 0 <= i < |xs| && xs[i] == x;
        MapAt(f, xs, i);
      }
    }
  }

  /** `[f(x) for x in xs[:n] if keep(f(x))]`. */
  function KeepMapPrefix<A, B>(f: A -> B, keep: B -> bool, xs: seq<A>, n: nat): (r: seq<B>)
    requires n <= |xs|
    ensures |r| <= n
  {
    if n == 0 then []
    else KeepMapPrefix(f, keep, xs, n - 1) + (if keep(f(xs[n - 1])) then [f(xs[n - 1])] else [])
  }

  /** Every element of the list is kept. */
  lemma {:induction false} KeepMapPrefixKept<A, B>(f: A -> B, keep: B -> bool, xs: seq<A>, n: nat)
    requires n <= |xs|
    ensures forall i :: 0 <= i < |KeepMapPrefix(f, keep, xs, n)| ==> keep(KeepMapPrefix(f, keep, xs, n)[i])
  {
    if n > 0 {
      KeepMapPrefixKept(f, keep, xs, n - 1);
      var before := KeepMapPrefix(f, keep, xs, n - 1);
      var r := KeepMapPrefix(f, keep, xs, n);
      forall i | 0 <= i < |r| ensures keep(r[i]) {
        if i < |before| {
          assert r[i] == before[i];
        }
      }
    }
  }

  /** The list is empty exactly when no image of the first `n` elements is kept. */
  lemma {:induction false} KeepMapPrefixEmpty<A, B>(f: A -> B, keep: B -> bool, xs: seq<A>, n: nat)
    requires n <= |xs|
    ensures KeepMapPrefix(f, keep, xs, n) == [] <==> forall i :: 0 <= i < n ==> !keep(f(xs[i]))
  {
    if n > 0 {
      KeepMapPrefixEmpty(f, keep, xs, n - 1);
    }
  }

  /** The list holds exactly the kept images of the first `n` elements. */
  lemma {:induction false} KeepMapPrefixMembers<A, B>(f: A -> B, keep: B -> bool, xs: seq<A>, n: nat, y: B)
    requires n <= |xs|
    ensures y in KeepMapPrefix(f, keep, xs, n) <==> keep(y) && exists i :: 0 <= i < n && f(xs[i]) == y
  {
    if n > 0 {
      KeepMapPrefixMembers(f, keep, xs, n - 1, y);
      if keep(y) && f(xs[n - 1]) == y {
        assert y in KeepMapPrefix(f, keep, xs, n);
      }
    }
  }

  /** The last `Some` among `f(xs[0])`, ..., `f(xs[n - 1])`; `None` when there is none. */
  function LastSome<A, B>(f: A -> Option<B>, xs: seq<A>, n: nat): Option<B>
    requires n <= |xs|
  {
    if n == 0 then None
    else if f(xs[n - 1]).Some? then f(xs[n - 1])
    else LastSome(f, xs, n - 1)
  }

  /** `LastSome` is `None` exactly when every image is, and otherwise the image
      of the last element whose image is not `None`. */
  lemma {:induction false} LastSomeSpec<A, B>(f: A -> Option<B>, xs: seq<A>, n: nat)
    requires n <= |xs|
    ensures LastSome(f, xs, n).None? <==> forall j :: 0 <= j < n ==> f(xs[j]).None?
    ensures LastSome(f, xs, n).Some? ==>
              exists j :: 0 <= j < n && LastSome(f, xs, n) == f(xs[j]) && forall k :: j < k < n ==> f(xs[k]).None?
  {
    if n > 0 && f(xs[n - 1]).None? {
      LastSomeSpec(f, xs, n - 1);
      if LastSome(f, xs, n - 1).Some? {
        var j :| 0 <= j < n - 1 && LastSome(f, xs, n - 1) == f(xs[j]) && forall k :: j < k < n - 1 ==> f(xs[k]).None?;
        assert forall k :: j < k < n ==> f(xs[k]).None?;
      }
    }
  }

  /** When `xs[j]` is the last of the first `n` elements with an image, that
      image is `LastSome`. */
  lemma {:induction false} LastSomeIs<A, B>(f: A -> Option<B>, xs: seq<A>, j: nat, n: nat)
    requires j < n <= |xs|
    requires f(xs[j]).Some? && forall k :: j < k < n ==> f(xs[k]).None?
    ensures LastSome(f, xs, n) == f(xs[j])
  {
    if j < n - 1 {
      LastSomeIs(f, xs, j, n - 1);
    }
  }

  /** `R(xs[j], ys[j], j)` holds at every index below `n`. */
  ghost predicate Related<A, B>(R: (A, B, nat) -> bool, xs: seq<A>, ys: seq<B>, n: nat)
    requires n <= |xs| && n <= |ys|
  {
    forall j :: 0 <= j < n ==> R(xs[j], ys[j], j)
  }

  /** Extending `ys` by an element related to `xs[n]` extends the relation by one index. */
  lemma RelatedSnoc<A, B>(R: (A, B, nat) -> bool, xs: seq<A>, ys: seq<B>, y: B, n: nat)
    requires n < |xs| && n == |ys|
    requires Related(R, xs, ys, n) && R(xs[n], y, n)
    ensures Related(R, xs, ys + [y], n + 1)
  {
    forall j | 0 <= j < n + 1
      ensures R(xs[j], (ys + [y])[j], j)
    {
      if j < n {
        assert (ys + [y])[j] == ys[j];
      }
    }
  }

  /** Replacing `ys[n]` by an element related to `xs[n]` extends the relation by one index. */
  lemma RelatedUpdate<A, B>(R: (A, B, nat) -> bool, xs: seq<A>, ys: seq<B>, y: B, n: nat)
    requires n < |xs| && n < |ys|
    requires Related(R, xs, ys, n) && R(xs[n], y, n)
    ensures Related(R, xs, ys[n := y], n + 1)
  {
  }

  /** `[f(i) for i in range(n) if keep(i)]`. */
  function Gather<B>(keep: nat -> bool, f: nat --> B, n: nat): (r: seq<B>)
    requires forall i :: 0 <= i < n && keep(i) ==> f.requires(i)
    ensures |r| <= n
  {
    if n == 0 then []
    else Gather(keep, f, n - 1) + (if keep(n - 1) then [f(n - 1)] else [])
  }

  /** The gathered list holds exactly the images of the kept indices. */
  lemma {:induction false} GatherMembers<B>(keep: nat -> bool, f: nat --> B, n: nat, x: B)
    requires forall i :: 0 <= i < n && keep(i) ==> f.requires(i)
    ensures x in Gather(keep, f, n) <==> exists i :: 0 <= i < n && keep(i) && x == f(i)
  {
    if n > 0 {
      GatherMembers(keep, f, n - 1, x);
      if keep(n - 1) && x == f(n - 1) {
        assert x in Gather(keep, f, n);
      }
    }
  }

  /** Every gathered element satisfies `P` when every kept index's image does. */
  lemma {:induction false} GatherAll<B>(keep: nat -> bool, f: nat --> B, n: nat, P: B -> bool)
    requires forall i :: 0 <= i < n && keep(i) ==> f.requires(i) && P(f(i))
    ensures forall x :: x in Gather(keep, f, n) ==> P(x)
  {
    if n > 0 {
      GatherAll(keep, f, n - 1, P);
    }
  }

  /** `xs[0] + xs[1] + ... + xs[n-1]` with each `x` replaced by the list `part(x)`. */
  function Flatten<A, B>(part: A -> seq<B>, xs: seq<A>, n: nat): seq<B>
    requires n <= |xs|
  {
    if n == 0 then [] else Flatten(part, xs, n - 1) + part(xs[n - 1])
  }

  /** The concatenation holds exactly the members of the first `n` parts. */
  lemma {:induction false} FlattenMembers<A, B>(part: A -> seq<B>, xs: seq<A>, n: nat, y: B)
    requires n <= |xs|
    ensures y in Flatten(part, xs, n) <==> exists i :: 0 <= i < n && y in part(xs[i])
  {
    if n > 0 {
      FlattenMembers(part, xs, n - 1, y);
      if y in part(xs[n - 1]) {
        assert y in Flatten(part, xs, n);
      }
    }
  }

  /** A loop whose body runs an inner loop over `part(x)` is that inner loop
      run over the flattened parts, its state carried from one part to the next. */
  lemma {:induction false} RunFlatten<S, A, B>(outer: (S, A) -> Option<S>, inner: (S, B) -> Option<S>,
                                               part: A -> seq<B>, xs: seq<A>, n: nat, s: S)
    requires n <= |xs|
    requires forall t, x :: outer(t, x) == RunPrefix(inner, part(x), |part(x)|, t)
    ensures RunPrefix(outer, xs, n, s) == RunPrefix(inner, Flatten(part, xs, n), |Flatten(part, xs, n)|, s)
  {
    if n == 0 {
      assert Flatten(part, xs, 0) == [];
    } else {
      RunFlatten(outer, inner, part, xs, n - 1, s);
      var before := Flatten(part, xs, n - 1);
      RunAppend(inner, before, part(xs[n - 1]), |part(xs[n - 1])|, s);
      assert Flatten(part, xs, n) == before + part(xs[n - 1]);
    }
  }

  /** A loop whose body may raise: the state after the body has run on the
      first `n` elements, or `None` once it has raised. */
  function RunPrefix<S, A>(step: (S, A) -> Option<S>, xs: seq<A>, n: nat, s: S): Option<S>
    requires n <= |xs|
  {
    if n == 0 then Some(s)
    else match RunPrefix(step, xs, n - 1, s)
      case None => None
      case Some(t) => step(t, xs[n - 1])
  }

  /** Once the body has raised, the loop never recovers. */
  lemma {:induction false} RunFailedStays<S, A>(step: (S, A) -> Option<S>, xs: seq<A>, i: nat, j: nat, s: S)
    requires i <= j <= |xs| && RunPrefix(step, xs, i, s).None?
    ensures RunPrefix(step, xs, j, s).None?
    decreases j - i
  {
    if i < j {
      RunFailedStays(step, xs, i, j - 1, s);
    }
  }

  /** Running over a longer list agrees with running over its prefix. */
  lemma {:induction false} RunPrefixOfLonger<S, A>(step: (S, A) -> Option<S>, xs: seq<A>, ys: seq<A>, m: nat, s: S)
    requires m <= |xs|
    ensures RunPrefix(step, xs + ys, m, s) == RunPrefix(step, xs, m, s)
  {
    if m > 0 {
      RunPrefixOfLonger(step, xs, ys, m - 1, s);
      assert (xs + ys)[m - 1] == xs[m - 1];
    }
  }

  /** Running over `xs + ys` runs over `xs`, then over `ys` from where that left off. */
  lemma {:induction false} RunAppend<S, A>(step: (S, A) -> Option<S>, xs: seq<A>, ys: seq<A>, k: nat, s: S)
    requires k <= |ys|
    ensures RunPrefix(step, xs + ys, |xs| + k, s) ==
              match RunPrefix(step, xs, |xs|, s)
              case None => None
              case Some(t) => RunPrefix(step, ys, k, t)
  {
    if k == 0 {
      RunPrefixOfLonger(step, xs, ys, |xs|, s);
    } else {
      RunAppend(step, xs, ys, k - 1, s);
      assert (xs + ys)[|xs| + k - 1] == ys[k - 1];
    }
  }
}
