/** What the cost of an operation comes to: a count of its fields, each weighted by the fields around it. */
module GraphqlCosts {
  import opened Base
  import opened GraphqlSyntax
  import opened GraphqlWalker
  import opened GraphqlInlining
  import opened GraphqlAnalysis

  /** A field and the arguments of the fields around it, outermost first. */
  datatype Occurrence = Occurrence(name: string, around: seq<seq<Arg>>)

  /** Every field of the selections, at any depth. */
  ghost function Occurrences(sels: seq<Selection>): seq<Occurrence>
    decreases sels, 1
  {
    if sels == [] then [] else Occurrences(Init(sels)) + OccurrencesOne(Last(sels))
  }

  ghost function OccurrencesOne(s: Selection): seq<Occurrence>
    decreases s, 0
  {
    match s
    case Field(name, args, selections) => [Occurrence(name, [])] + Under(args, Occurrences(selections))
    case Inline(inner) => Occurrences(inner)
    case Spread(_) => []
  }

  ghost function Under(args: seq<Arg>, fields: seq<Occurrence>): seq<Occurrence> {
    if fields == [] then []
    else Under(args, Init(fields)) + [Last(fields).(around := [args] + Last(fields).around)]
  }

  /** How often the fields around it make a field count. */
  ghost function Factor(env: Env, around: seq<seq<Arg>>): nat {
    if around == [] then 1 else Multiplier(env, around[0]) * Factor(env, around[1..])
  }

  ghost function Weight(env: Env, f: Occurrence): nat {
    OwnCost(env, f.name) * Factor(env, f.around)
  }

  ghost function Weights(env: Env, fields: seq<Occurrence>): nat {
    if fields == [] then 0 else Weights(env, Init(fields)) + Weight(env, Last(fields))
  }

  lemma {:induction false} WeightsAppend(env: Env, a: seq<Occurrence>, b: seq<Occurrence>)
    ensures Weights(env, a + b) == Weights(env, a) + Weights(env, b)
    decreases b
  {
    if b == [] {
      assert a + b == a;
    } else {
      WeightsAppend(env, a, Init(b));
      assert Init(a + b) == a + Init(b);
    }
  }

  lemma WeightUnder(env: Env, args: seq<Arg>, f: Occurrence)
    ensures Weight(env, f.(around := [args] + f.around)) == Multiplier(env, args) * Weight(env, f)
  {
    var m, own, rest := Multiplier(env, args), OwnCost(env, f.name), Factor(env, f.around);
    assert ([args] + f.around)[1..] == f.around;
    Regroup(own, m, rest);
  }

  lemma Regroup(a: nat, b: nat, c: nat)
    ensures a * (b * c) == b * (a * c)
  {
  }

  lemma {:induction false} WeightsUnder(env: Env, args: seq<Arg>, fields: seq<Occurrence>)
    ensures Weights(env, Under(args, fields)) == Multiplier(env, args) * Weights(env, fields)
  {
    if fields != [] {
      WeightsUnder(env, args, Init(fields));
      WeightUnder(env, args, Last(fields));
      assert Init(Under(args, fields)) == Under(args, Init(fields));
      Distribute(Multiplier(env, args), Weights(env, Init(fields)), Weight(env, Last(fields)));
    }
  }

  lemma Distribute(m: nat, a: nat, b: nat)
    ensures m * (a + b) == m * a + m * b
  {
  }

  /** The exact cost is the sum over all fields of their own cost times the multipliers of the fields around them. */
  lemma {:induction false} CostIsWeighted(env: Env, sels: seq<Selection>)
    ensures ExactCost(env, sels) == Weights(env, Occurrences(sels))
    decreases sels, 1
  {
    if sels != [] {
      CostIsWeighted(env, Init(sels));
      CostOneIsWeighted(env, Last(sels));
      WeightsAppend(env, Occurrences(Init(sels)), OccurrencesOne(Last(sels)));
    }
  }

  lemma {:induction false} CostOneIsWeighted(env: Env, s: Selection)
    ensures ExactCostOne(env, s) == Weights(env, OccurrencesOne(s))
    decreases s, 0
  {
    match s
    case Field(name, args, selections) =>
      CostIsWeighted(env, selections);
      WeightsUnder(env, args, Occurrences(selections));
      WeightsAppend(env, [Occurrence(name, [])], Under(args, Occurrences(selections)));
      SingleWeight(env, Occurrence(name, []));
    case Inline(inner) => CostIsWeighted(env, inner);
    case Spread(_) =>
  }

  lemma SingleWeight(env: Env, f: Occurrence)
    ensures Weights(env, [f]) == Weight(env, f)
    ensures f.around == [] ==> Weight(env, f) == OwnCost(env, f.name)
  {
    assert Init([f]) == [];
  }

  // ----- Without prices and pages the cost is a count -----

  /** No field around this one asks for a page. */
  ghost predicate Unpaged(f: Occurrence) {
    forall args, arg :: args in f.around && arg in args ==> !IsPage(arg.name)
  }

  /** The fields that are not called `__typename`. */
  ghost function Counted(fields: seq<Occurrence>): nat {
    if fields == [] then 0 else Counted(Init(fields)) + if Last(fields).name == "__typename" then 0 else 1
  }

  /** No field has a price of its own and lists are not multiplied, as in the default limits. */
  ghost predicate Plain(limits: Limits) {
    limits.fieldCosts == map[] && limits.defaultListMultiplier <= 1
  }

  lemma {:induction false} PlainFactor(env: Env, around: seq<seq<Arg>>)
    requires Plain(env.limits) && forall args, arg :: args in around && arg in args ==> !IsPage(arg.name)
    ensures Factor(env, around) == 1
  {
    if around != [] {
      assert around[0] in around && forall j :: 0 <= j < |around[0]| ==> around[0][j] in around[0];
      MultiplierMeaning(env, around[0], |around[0]|, 0);
      PlainFactor(env, around[1..]);
    }
  }

  lemma {:induction false} PlainWeights(env: Env, fields: seq<Occurrence>)
    requires Plain(env.limits) && forall f :: f in fields ==> Unpaged(f)
    ensures Weights(env, fields) == Counted(fields)
  {
    if fields != [] {
      PlainWeights(env, Init(fields));
      assert Unpaged(Last(fields));
      PlainFactor(env, Last(fields).around);
    }
  }

  /** Every field with others in it is without page arguments. */
  ghost predicate AllUnpaged(sels: seq<Selection>) {
    forall f :: f in Occurrences(sels) ==> Unpaged(f)
  }

  /**
   Under limits without prices, an operation whose lists ask for no page costs the number of its fields, those
   of its fragments included and `__typename` not; and it is admitted when that and its depth are within the limits.
   */
  lemma PlainAnalysis(env: Env, operationName: Option<string>)
    requires Plain(env.limits) && SelectOperation(env.doc, operationName).Ok?
    requires SpreadFree(Inlined(env.doc, SelectOperation(env.doc, operationName).value.selections))
    requires AllUnpaged(Inlined(env.doc, SelectOperation(env.doc, operationName).value.selections))
    ensures var tree := Inlined(env.doc, SelectOperation(env.doc, operationName).value.selections);
            var count, r := Counted(Occurrences(tree)), AnalyzeSpec(env, operationName);
            && (r.Ok? <==> Nesting(tree) <= env.limits.maxDepth &&
                            (count <= env.limits.maxCost || env.limits.maxCost == U64_MAX))
            && (r.Ok? ==> r.value.cost == if count <= U64_MAX then count else U64_MAX)
  {
    var tree := Inlined(env.doc, SelectOperation(env.doc, operationName).value.selections);
    AnalyzeMeaning(env, operationName);
    CostIsWeighted(env, tree);
    PlainWeights(env, Occurrences(tree));
  }

  /** A field without children costs nothing if it is `__typename`, else its entry in the price list, else one. */
  lemma LeafCost(env: Env, name: string, args: seq<Arg>, level: nat, stack: seq<string>)
    requires level >= 1
    ensures WalkSpec(env, [Field(name, args, [])], level, stack) ==
              Ok(Measure(level,
                         if name == "__typename" then 0
                         else if name in env.limits.fieldCosts then env.limits.fieldCosts[name]
                         else 1,
                         [name]))
  {
    var leaf := Field(name, args, []);
    assert Init([leaf]) == [] && Last([leaf]) == leaf;
    assert WalkSpec(env, [], level, stack) == Ok(Measure(level - 1, 0, []));
    assert SatMul(Multiplier(env, args), 0) == 0;
    assert VisitSpec(env, leaf, level, stack) == Ok(Measure(level, OwnCost(env, name), [name]));
    assert [] + [name] == [name];
  }
}
