/**
 What the complexity walk means: it agrees with the operation in which every fragment spread has
 been replaced by the fragment's own selections, and it succeeds exactly when that is possible.
 */
module GraphqlInlining {
  import opened Base
  import opened GraphqlSyntax
  import opened GraphqlWalker

  // ----- Full inlining -----

  /** `sels` with spreads replaced by the fragments they name, to a nesting of `k` spreads. */
  ghost function Unfold(doc: Document, sels: seq<Selection>, k: nat): seq<Selection>
    decreases k, sels, 1
  {
    if sels == [] then [] else Unfold(doc, Init(sels), k) + [UnfoldOne(doc, Last(sels), k)]
  }

  ghost function UnfoldOne(doc: Document, s: Selection, k: nat): Selection
    decreases k, s, 0
  {
    match s
    case Field(name, args, selections) => Field(name, args, Unfold(doc, selections, k))
    case Inline(inner) => Inline(Unfold(doc, inner, k))
    case Spread(name) =>
      if k == 0 || name !in doc.fragments then s
      else Inline(Unfold(doc, doc.fragments[name], k - 1))
  }

  ghost predicate SpreadFree(sels: seq<Selection>)
    decreases sels, 1
  {
    sels == [] || (SpreadFree(Init(sels)) && SpreadFreeOne(Last(sels)))
  }

  ghost predicate SpreadFreeOne(s: Selection)
    decreases s, 0
  {
    match s
    case Field(_, _, selections) => SpreadFree(selections)
    case Inline(inner) => SpreadFree(inner)
    case Spread(_) => false
  }

  // ----- Measures of an inlined operation, in exact arithmetic -----

  /** The deepest chain of nested fields. */
  ghost function Nesting(sels: seq<Selection>): nat
    decreases sels, 1
  {
    if sels == [] then 0 else Max(Nesting(Init(sels)), NestingOne(Last(sels)))
  }

  ghost function NestingOne(s: Selection): nat
    decreases s, 0
  {
    match s
    case Field(_, _, selections) => 1 + Nesting(selections)
    case Inline(inner) => Nesting(inner)
    case Spread(_) => 0
  }

  /** The cost with unbounded integers. */
  ghost function ExactCost(env: Env, sels: seq<Selection>): nat
    decreases sels, 1
  {
    if sels == [] then 0 else ExactCost(env, Init(sels)) + ExactCostOne(env, Last(sels))
  }

  ghost function ExactCostOne(env: Env, s: Selection): nat
    decreases s, 0
  {
    match s
    case Field(name, args, selections) => OwnCost(env, name) + Multiplier(env, args) * ExactCost(env, selections)
    case Inline(inner) => ExactCost(env, inner)
    case Spread(_) => 0
  }

  /** The field names of the operation's own level, in document order. */
  ghost function RootNames(sels: seq<Selection>): seq<string>
    decreases sels, 1
  {
    if sels == [] then [] else RootNames(Init(sels)) + RootNamesOne(Last(sels))
  }

  ghost function RootNamesOne(s: Selection): seq<string>
    decreases s, 0
  {
    match s
    case Field(name, _, _) => [name]
    case Inline(inner) => RootNames(inner)
    case Spread(_) => []
  }

  // ----- The spread graph -----

  /** Every fragment name spread somewhere in `sels`, at any depth. */
  ghost function Spreads(sels: seq<Selection>): set<string>
    decreases sels, 1
  {
    if sels == [] then {} else Spreads(Init(sels)) + SpreadsOne(Last(sels))
  }

  ghost function SpreadsOne(s: Selection): set<string>
    decreases s, 0
  {
    match s
    case Field(_, _, selections) => Spreads(selections)
    case Inline(inner) => Spreads(inner)
    case Spread(name) => {name}
  }

  /** `p[1]` is spread in fragment `p[0]`, `p[2]` in fragment `p[1]`, and so on. */
  ghost predicate Chain(doc: Document, p: seq<string>) {
    forall i :: 0 <= i < |p| - 1 ==> p[i] in doc.fragments && p[i + 1] in Spreads(doc.fragments[p[i]])
  }

  /** A way of following spreads out of `sels`. */
  ghost predicate SpreadPath(doc: Document, sels: seq<Selection>, p: seq<string>) {
    p != [] && p[0] in Spreads(sels) && Chain(doc, p)
  }

  ghost predicate AllReachableDefined(doc: Document, sels: seq<Selection>) {
    forall p :: SpreadPath(doc, sels, p) ==> Last(p) in doc.fragments
  }

  /** No path of spreads meets the same fragment twice (section 5.5.2.2 of the GraphQL specification). */
  ghost predicate Acyclic(doc: Document, sels: seq<Selection>) {
    forall p :: SpreadPath(doc, sels, p) ==> Distinct(p)
  }

  // ----- A successful walk measures the inlined operation -----

  /** The measure of a spread-free selection set whose fields sit at `level`. */
  ghost function MeasureOf(env: Env, sels: seq<Selection>, level: nat): Measure
    requires level >= 1
  {
    Measure(level - 1 + Nesting(sels), Clip(ExactCost(env, sels)), RootNames(sels))
  }

  ghost function MeasureOfOne(env: Env, s: Selection, level: nat): Measure
    requires level >= 1
  {
    Measure(level - 1 + NestingOne(s), Clip(ExactCostOne(env, s)), RootNamesOne(s))
  }

  lemma ClipAdd(a: nat, b: nat)
    ensures SatAdd(Clip(a), Clip(b)) == Clip(a + b)
  {}

  lemma ClipMul(m: U64, c: nat)
    requires m >= 1
    ensures SatMul(m, Clip(c)) == Clip(m * c)
  {
    if c > U64_MAX {
      MulAtLeast(m, c);
      MulAtLeast(m, U64_MAX);
    }
  }

  lemma MulAtLeast(m: nat, c: nat)
    requires m >= 1
    ensures m * c >= c
  {
    assert m * c == c + (m - 1) * c;
  }

  lemma UnfoldSnoc(doc: Document, sels: seq<Selection>, k: nat)
    requires sels != []
    ensures var tree := Unfold(doc, sels, k);
            tree != [] && Init(tree) == Unfold(doc, Init(sels), k) && Last(tree) == UnfoldOne(doc, Last(sels), k)
  {
  }

  lemma WalkSnoc(env: Env, sels: seq<Selection>, level: nat, stack: seq<string>)
    requires sels != [] && WalkSpec(env, sels, level, stack).Ok?
    ensures WalkSpec(env, Init(sels), level, stack).Ok? && VisitSpec(env, Last(sels), level, stack).Ok?
    ensures WalkSpec(env, sels, level, stack).value ==
              Join(WalkSpec(env, Init(sels), level, stack).value, VisitSpec(env, Last(sels), level, stack).value)
  {
  }

  lemma MeasureSnoc(env: Env, tree: seq<Selection>, level: nat)
    requires level >= 1 && tree != []
    requires SpreadFree(Init(tree)) && SpreadFreeOne(Last(tree))
    ensures SpreadFree(tree)
    ensures MeasureOf(env, tree, level) ==
              Join(MeasureOf(env, Init(tree), level), MeasureOfOne(env, Last(tree), level))
  {
    ClipAdd(ExactCost(env, Init(tree)), ExactCostOne(env, Last(tree)));
  }

  /** The last selection of a set joins the measure of those before it. */
  lemma WalkMeasuresSnoc(env: Env, sels: seq<Selection>, level: nat, stack: seq<string>, k: nat)
    requires level >= 1 && sels != [] && WalkSpec(env, sels, level, stack).Ok?
    requires WalkSpec(env, Init(sels), level, stack).Ok? && VisitSpec(env, Last(sels), level, stack).Ok?
    requires SpreadFree(Unfold(env.doc, Init(sels), k)) && SpreadFreeOne(UnfoldOne(env.doc, Last(sels), k))
    requires WalkSpec(env, Init(sels), level, stack).value == MeasureOf(env, Unfold(env.doc, Init(sels), k), level)
    requires var one := UnfoldOne(env.doc, Last(sels), k);
             VisitSpec(env, Last(sels), level, stack).value == MeasureOfOne(env, one, level)
    ensures SpreadFree(Unfold(env.doc, sels, k))
    ensures WalkSpec(env, sels, level, stack).value == MeasureOf(env, Unfold(env.doc, sels, k), level)
  {
    WalkSnoc(env, sels, level, stack);
    UnfoldSnoc(env.doc, sels, k);
    MeasureSnoc(env, Unfold(env.doc, sels, k), level);
  }

  lemma {:induction false} WalkMeasuresInlined(env: Env, sels: seq<Selection>, level: nat, stack: seq<string>)
    requires level >= 1
    requires WalkSpec(env, sels, level, stack).Ok?
    ensures var tree := Unfold(env.doc, sels, Unvisited(env, stack));
            SpreadFree(tree) && WalkSpec(env, sels, level, stack).value == MeasureOf(env, tree, level)
    decreases Unvisited(env, stack), sels, 1
  {
    if sels != [] {
      WalkSnoc(env, sels, level, stack);
      WalkMeasuresInlined(env, Init(sels), level, stack);
      VisitMeasuresInlined(env, Last(sels), level, stack);
      WalkMeasuresSnoc(env, sels, level, stack, Unvisited(env, stack));
    }
  }

  lemma {:induction false} VisitMeasuresInlined(env: Env, s: Selection, level: nat, stack: seq<string>)
    requires level >= 1
    requires VisitSpec(env, s, level, stack).Ok?
    ensures var one := UnfoldOne(env.doc, s, Unvisited(env, stack));
            && SpreadFreeOne(one)
            && VisitSpec(env, s, level, stack).value == MeasureOfOne(env, one, level)
    decreases Unvisited(env, stack), s, 0
  {
    match s
    case Field(name, args, selections) =>
      WalkMeasuresInlined(env, selections, level + 1, stack);
      var cost := ExactCost(env, Unfold(env.doc, selections, Unvisited(env, stack)));
      ClipMul(Multiplier(env, args), cost);
      ClipAdd(OwnCost(env, name), Multiplier(env, args) * cost);
    case Inline(inner) =>
      WalkMeasuresInlined(env, inner, level, stack);
    case Spread(name) =>
      EnterFragment(env, stack, name);
      WalkMeasuresInlined(env, env.doc.fragments[name], level, stack + [name]);
  }

  // ----- A failed walk has met an undefined or a repeated fragment -----

  /** The path of spreads that the walk was following when it reported `e`. */
  ghost predicate Witness(doc: Document, sels: seq<Selection>, stack: seq<string>, e: WalkError, p: seq<string>) {
    && SpreadPath(doc, sels, p)
    && Last(p) == e.name
    && match e
       case UnknownFragment(name) => name !in doc.fragments
       case FragmentCycle(name) => name in stack || name in Init(p)
  }

  lemma {:induction false} WalkErrorWitness(env: Env, sels: seq<Selection>, level: nat, stack: seq<string>)
    returns (p: seq<string>)
    requires WalkSpec(env, sels, level, stack).Err?
    ensures Witness(env.doc, sels, stack, WalkSpec(env, sels, level, stack).error, p)
    decreases Unvisited(env, stack), sels, 1
  {
    if WalkSpec(env, Init(sels), level, stack).Err? {
      p := WalkErrorWitness(env, Init(sels), level, stack);
    } else {
      p := VisitErrorWitness(env, Last(sels), level, stack);
    }
  }

  lemma {:induction false} VisitErrorWitness(env: Env, s: Selection, level: nat, stack: seq<string>)
    returns (p: seq<string>)
    requires VisitSpec(env, s, level, stack).Err?
    ensures p != [] && p[0] in SpreadsOne(s)
    ensures Witness(env.doc, [s], stack, VisitSpec(env, s, level, stack).error, p)
    decreases Unvisited(env, stack), s, 0
  {
    assert Spreads([s]) == SpreadsOne(s) by { assert Init([s]) == []; }
    match s
    case Field(name, args, selections) =>
      p := WalkErrorWitness(env, selections, level + 1, stack);
    case Inline(inner) =>
      p := WalkErrorWitness(env, inner, level, stack);
    case Spread(name) =>
      if name in stack || name !in env.doc.fragments {
        p := [name];
      } else {
        EnterFragment(env, stack, name);
        var q := WalkErrorWitness(env, env.doc.fragments[name], level, stack + [name]);
        p := [name] + q;
        assert Init(p) == [name] + Init(q);
      }
  }

  // ----- Inlining that ends bounds every path of spreads -----

  lemma {:induction false} SpreadUnfolds(doc: Document, sels: seq<Selection>, k: nat, name: string)
    requires SpreadFree(Unfold(doc, sels, k)) && name in Spreads(sels)
    ensures k >= 1 && name in doc.fragments && SpreadFree(Unfold(doc, doc.fragments[name], k - 1))
    decreases sels, 1
  {
    var tree := Unfold(doc, sels, k);
    assert Init(tree) == Unfold(doc, Init(sels), k) && Last(tree) == UnfoldOne(doc, Last(sels), k);
    if name in Spreads(Init(sels)) {
      SpreadUnfolds(doc, Init(sels), k, name);
    } else {
      SpreadUnfoldsOne(doc, Last(sels), k, name);
    }
  }

  lemma {:induction false} SpreadUnfoldsOne(doc: Document, s: Selection, k: nat, name: string)
    requires SpreadFreeOne(UnfoldOne(doc, s, k)) && name in SpreadsOne(s)
    ensures k >= 1 && name in doc.fragments && SpreadFree(Unfold(doc, doc.fragments[name], k - 1))
    decreases s, 0
  {
    match s
    case Field(_, _, selections) => SpreadUnfolds(doc, selections, k, name);
    case Inline(inner) => SpreadUnfolds(doc, inner, k, name);
    case Spread(_) =>
  }

  lemma ChainStep(doc: Document, p: seq<string>, i: nat)
    requires Chain(doc, p) && 0 < i < |p|
    ensures p[i - 1] in doc.fragments && p[i] in Spreads(doc.fragments[p[i - 1]])
  {
    var j := i - 1;
    assert p[j + 1] == p[i];
  }

  /** Each step along a path of spreads uses up one level of inlining. */
  lemma {:induction false} PathUnfolds(doc: Document, sels: seq<Selection>, k: nat, p: seq<string>, i: nat)
    requires SpreadFree(Unfold(doc, sels, k)) && SpreadPath(doc, sels, p) && i < |p|
    ensures i < k && p[i] in doc.fragments && SpreadFree(Unfold(doc, doc.fragments[p[i]], k - 1 - i))
    decreases i
  {
    if i == 0 {
      SpreadUnfolds(doc, sels, k, p[0]);
    } else {
      PathUnfolds(doc, sels, k, p, i - 1);
      ChainStep(doc, p, i);
      SpreadUnfolds(doc, doc.fragments[p[i - 1]], k - i, p[i]);
    }
  }

  lemma PathBounded(doc: Document, sels: seq<Selection>, k: nat, p: seq<string>)
    requires SpreadFree(Unfold(doc, sels, k)) && SpreadPath(doc, sels, p)
    ensures |p| <= k && Last(p) in doc.fragments
  {
    PathUnfolds(doc, sels, k, p, |p| - 1);
  }

  /** A path that repeats a fragment can be made as long as one likes. */
  lemma {:induction false} PumpCycle(doc: Document, sels: seq<Selection>, p: seq<string>, i: nat, j: nat, n: nat)
    returns (q: seq<string>)
    requires SpreadPath(doc, sels, p) && i < j < |p| && p[i] == p[j]
    ensures SpreadPath(doc, sels, q) && |q| > n && Last(q) == p[j]
    decreases n
  {
    if n == 0 {
      q := p[..j + 1];
    } else {
      var shorter := PumpCycle(doc, sels, p, i, j, n - 1);
      q := shorter + p[i + 1..j + 1];
      forall x | 0 <= x < |q| - 1 ensures q[x] in doc.fragments && q[x + 1] in Spreads(doc.fragments[q[x]]) {
        if x >= |shorter| - 1 {
          var y := x - (|shorter| - 1);
          assert q[x] == p[i + y] && q[x + 1] == p[i + y + 1];
        }
      }
    }
  }

  lemma InlinableIsSound(doc: Document, sels: seq<Selection>, k: nat)
    requires SpreadFree(Unfold(doc, sels, k))
    ensures AllReachableDefined(doc, sels) && Acyclic(doc, sels)
  {
    forall p | SpreadPath(doc, sels, p) ensures Last(p) in doc.fragments && Distinct(p) {
      PathBounded(doc, sels, k, p);
      if !Distinct(p) {
        var i, j :| 0 <= i < j < |p| && p[i] == p[j];
        var q := PumpCycle(doc, sels, p, i, j, k);
        PathBounded(doc, sels, k, q);
      }
    }
  }

  // ----- Main results -----

  /** Once inlining has removed every spread, inlining deeper changes nothing. */
  lemma {:induction false} UnfoldStable(doc: Document, sels: seq<Selection>, k: nat, n: nat)
    requires SpreadFree(Unfold(doc, sels, k)) && k <= n
    ensures Unfold(doc, sels, n) == Unfold(doc, sels, k)
    decreases k, sels, 1
  {
    if sels != [] {
      var tree := Unfold(doc, sels, k);
      assert Init(tree) == Unfold(doc, Init(sels), k) && Last(tree) == UnfoldOne(doc, Last(sels), k);
      UnfoldStable(doc, Init(sels), k, n);
      UnfoldOneStable(doc, Last(sels), k, n);
    }
  }

  lemma {:induction false} UnfoldOneStable(doc: Document, s: Selection, k: nat, n: nat)
    requires SpreadFreeOne(UnfoldOne(doc, s, k)) && k <= n
    ensures UnfoldOne(doc, s, n) == UnfoldOne(doc, s, k)
    decreases k, s, 0
  {
    match s
    case Field(_, _, selections) => UnfoldStable(doc, selections, k, n);
    case Inline(inner) => UnfoldStable(doc, inner, k, n);
    case Spread(name) => UnfoldStable(doc, doc.fragments[name], k - 1, n - 1);
  }

  /** The operation with every fragment inlined; no path of spreads is longer than the fragment map. */
  ghost function Inlined(doc: Document, sels: seq<Selection>): seq<Selection> {
    Unfold(doc, sels, |doc.fragments|)
  }

  /**
   The walk of an operation succeeds exactly when every fragment it can reach is defined and the
   spreads it can reach form no cycle, and exactly when inlining to some depth removes every spread.
   */
  lemma WalkSucceedsIff(env: Env, sels: seq<Selection>)
    ensures WalkSpec(env, sels, 1, []).Ok? <==> AllReachableDefined(env.doc, sels) && Acyclic(env.doc, sels)
    ensures WalkSpec(env, sels, 1, []).Ok? <==> exists k: nat :: SpreadFree(Unfold(env.doc, sels, k))
    ensures WalkSpec(env, sels, 1, []).Ok? <==> SpreadFree(Inlined(env.doc, sels))
  {
    var doc := env.doc;
    assert Unvisited(env, []) == |doc.fragments| by {
      assert doc.fragments.Keys - Elements([]) == doc.fragments.Keys;
    }
    if WalkSpec(env, sels, 1, []).Ok? {
      WalkMeasuresInlined(env, sels, 1, []);
      assert SpreadFree(Unfold(doc, sels, |doc.fragments|));
      InlinableIsSound(doc, sels, |doc.fragments|);
    } else {
      var p := WalkErrorWitness(env, sels, 1, []);
      if WalkSpec(env, sels, 1, []).error.FragmentCycle? {
        var i :| 0 <= i < |Init(p)| && Init(p)[i] == Last(p);
        assert p[i] == p[|p| - 1] && !Distinct(p);
      }
      assert !AllReachableDefined(doc, sels) || !Acyclic(doc, sels);
      forall k: nat ensures !SpreadFree(Unfold(doc, sels, k)) {
        if SpreadFree(Unfold(doc, sels, k)) {
          InlinableIsSound(doc, sels, k);
        }
      }
    }
  }

  /**
   A successful walk returns the nesting depth, the exact cost clipped to 64 bits, and the root
   fields of the operation with every fragment inlined, to whatever sufficient depth it is inlined.
   */
  lemma WalkAgreesWithInlining(env: Env, sels: seq<Selection>, k: nat)
    requires SpreadFree(Unfold(env.doc, sels, k))
    ensures var tree := Unfold(env.doc, sels, k);
            && tree == Inlined(env.doc, sels)
            && WalkSpec(env, sels, 1, []) == Ok(Measure(Nesting(tree), Clip(ExactCost(env, tree)), RootNames(tree)))
  {
    InlinableIsSound(env.doc, sels, k);
    WalkSucceedsIff(env, sels);
    assert env.doc.fragments.Keys - Elements([]) == env.doc.fragments.Keys;
    WalkMeasuresInlined(env, sels, 1, []);
    var n := |env.doc.fragments|;
    if k <= n {
      UnfoldStable(env.doc, sels, k, n);
    } else {
      UnfoldStable(env.doc, sels, n, k);
    }
  }

  /** The error of a failed walk names a fragment that really is undefined, or really lies on a cycle of spreads. */
  lemma WalkErrorIsReal(env: Env, sels: seq<Selection>) returns (p: seq<string>)
    requires WalkSpec(env, sels, 1, []).Err?
    ensures SpreadPath(env.doc, sels, p)
    ensures match WalkSpec(env, sels, 1, []).error
            case UnknownFragment(name) => Last(p) == name && name !in env.doc.fragments
            case FragmentCycle(name) => Last(p) == name && name in Init(p)
  {
    p := WalkErrorWitness(env, sels, 1, []);
  }
}
