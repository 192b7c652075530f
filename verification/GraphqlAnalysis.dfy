/** Choosing the operation to run and enforcing the depth and cost limits on it. */
module GraphqlAnalysis {
  import opened Base
  import opened GraphqlSyntax
  import opened GraphqlWalker
  import opened GraphqlInlining

  datatype AnalysisError =
    | UnknownOperation(name: string)
    | AmbiguousOperation
    | BadFragment(walk: WalkError)
    | DepthLimitExceeded(depth: nat, maxDepth: nat)
    | CostLimitExceeded(cost: U64, maxCost: U64)

  datatype Analysis = Analysis(
    kind: OperationKind, name: Option<string>, depth: nat, cost: U64, rootFields: seq<string>)

  ghost predicate FirstNamed(operations: seq<Operation>, i: nat, name: string) {
    && i < |operations|
    && operations[i].name == Some(name)
    && forall j :: 0 <= j < i ==> operations[j].name != Some(name)
  }

  /** The first operation called `wanted`, or the only operation when no name is given. */
  function SelectOperation(doc: Document, wanted: Option<string>): (r: Result<Operation, AnalysisError>)
    ensures match wanted
            case None => (r.Ok? <==> |doc.operations| == 1) && (r.Ok? ==> doc.operations == [r.value])
            case Some(name) =>
              && (r.Ok? ==> exists i: nat :: FirstNamed(doc.operations, i, name) && r.value == doc.operations[i])
              && (r.Err? <==> forall op :: op in doc.operations ==> op.name != wanted)
    ensures r.Err? ==> r.error == if wanted.Some? then UnknownOperation(wanted.value) else AmbiguousOperation
  {
    match wanted
    case Some(name) => FindNamed(doc.operations, name)
    case None => if |doc.operations| == 1 then Ok(doc.operations[0]) else Err(AmbiguousOperation)
  }

  function FindNamed(operations: seq<Operation>, name: string): (r: Result<Operation, AnalysisError>)
    ensures r.Ok? ==> exists i: nat :: FirstNamed(operations, i, name) && r.value == operations[i]
    ensures r.Err? <==> forall op :: op in operations ==> op.name != Some(name)
    ensures r.Err? ==> r.error == UnknownOperation(name)
  {
    if operations == [] then Err(UnknownOperation(name))
    else if operations[0].name == Some(name) then
      assert FirstNamed(operations, 0, name);
      Ok(operations[0])
    else
      var r := FindNamed(operations[1..], name);
      assert r.Ok? ==> exists i: nat :: FirstNamed(operations, i, name) && r.value == operations[i] by {
        if r.Ok? {
          var k: nat :| FirstNamed(operations[1..], k, name) && r.value == operations[1..][k];
          assert forall j :: 1 <= j < |operations| ==> operations[j] == operations[1..][j - 1];
          assert FirstNamed(operations, k + 1, name);
        }
      }
      assert forall op :: op in operations <==> op == operations[0] || op in operations[1..];
      r
  }

  /** Which answer the limits give to a measured operation. */
  function Enforce(op: Operation, limits: Limits, depth: nat, cost: U64, roots: seq<string>)
    : Result<Analysis, AnalysisError>
  {
    if depth > limits.maxDepth then Err(DepthLimitExceeded(depth, limits.maxDepth))
    else if cost > limits.maxCost then Err(CostLimitExceeded(cost, limits.maxCost))
    else Ok(Analysis(op.kind, op.name, depth, cost, roots))
  }

  ghost function AnalyzeSpec(env: Env, operationName: Option<string>): Result<Analysis, AnalysisError> {
    var op := SelectOperation(env.doc, operationName);
    if op.Err? then Err(op.error)
    else
      match WalkSpec(env, op.value.selections, 1, [])
      case Err(e) => Err(BadFragment(e))
      case Ok(m) => Enforce(op.value, env.limits, m.depth, m.cost, m.roots)
  }

  method Analyze(env: Env, operationName: Option<string>) returns (r: Result<Analysis, AnalysisError>)
    ensures r == AnalyzeSpec(env, operationName)
  {
    var op := SelectOperation(env.doc, operationName);
    if op.Err? {
      return Err(op.error);
    }
    var walker := new Walker(env);
    var measured, roots := walker.Walk(op.value.selections, 1, Some([]));
    if measured.Err? {
      return Err(BadFragment(measured.error));
    }
    ghost var m := WalkSpec(env, op.value.selections, 1, []).value;
    assert [] + m.roots == m.roots;
    r := Enforce(op.value, env.limits, measured.value.0, measured.value.1, roots.value);
  }

  /** The verdict that exact arithmetic on the inlined operation calls for. */
  ghost predicate ExactlyWithinLimits(env: Env, op: Operation) {
    var tree := Inlined(env.doc, op.selections);
    SpreadFree(tree) && Nesting(tree) <= env.limits.maxDepth && ExactCost(env, tree) <= env.limits.maxCost
  }

  /** The clipped cost exceeds the limit exactly when the exact cost does and the limit is not the largest one. */
  ghost predicate TooCostly(env: Env, tree: seq<Selection>) {
    ExactCost(env, tree) > env.limits.maxCost && env.limits.maxCost < U64_MAX
  }

  /**
   An operation is admitted exactly when its fragments can be inlined, the inlined operation is
   shallow enough and its exact cost is within the limit, except that the largest representable
   limit admits any cost. The first of these that fails decides the error, and what is reported is
   measured on the inlined operation.
   */
  lemma AnalyzeMeaning(env: Env, operationName: Option<string>)
    ensures var op := SelectOperation(env.doc, operationName);
            var r := AnalyzeSpec(env, operationName);
            match op
            case Err(e) => r == Err(e)
            case Ok(op) =>
              var tree := Inlined(env.doc, op.selections);
              var depth, cost := Nesting(tree), Clip(ExactCost(env, tree));
              if !SpreadFree(tree) then r.Err? && r.error.BadFragment?
              else if depth > env.limits.maxDepth then r == Err(DepthLimitExceeded(depth, env.limits.maxDepth))
              else if TooCostly(env, tree) then r == Err(CostLimitExceeded(cost, env.limits.maxCost))
              else r == Ok(Analysis(op.kind, op.name, depth, cost, RootNames(tree)))
  {
    var op := SelectOperation(env.doc, operationName);
    if op.Ok? {
      WalkSucceedsIff(env, op.value.selections);
      if WalkSpec(env, op.value.selections, 1, []).Ok? {
        WalkAgreesWithInlining(env, op.value.selections, |env.doc.fragments|);
      }
    }
  }

  /** Saturation changes the verdict exactly when the limit is 2^64 - 1 and the exact cost exceeds it. */
  lemma SaturationChangesVerdictIff(env: Env, operationName: Option<string>)
    ensures var op := SelectOperation(env.doc, operationName);
            if op.Err? then AnalyzeSpec(env, operationName).Err?
            else
              var tree := Inlined(env.doc, op.value.selections);
              (AnalyzeSpec(env, operationName).Ok? != ExactlyWithinLimits(env, op.value)) <==>
                (SpreadFree(tree) && Nesting(tree) <= env.limits.maxDepth &&
                 env.limits.maxCost == U64_MAX && ExactCost(env, tree) > U64_MAX)
  {
    AnalyzeMeaning(env, operationName);
  }

  lemma TwoFields(env: Env, a: Selection)
    requires a == Field("a", [], []) && env.limits.fieldCosts == map["a" := U64_MAX]
    ensures SpreadFree([a, a]) && Nesting([a, a]) == 1 && ExactCost(env, [a, a]) == 2 * U64_MAX
    ensures Unfold(env.doc, [a, a], 0) == [a, a]
  {
    assert Init([a, a]) == [a] && Init([a]) == [];
    assert ExactCostOne(env, a) == U64_MAX by { assert Multiplier(env, []) * 0 == 0; }
    assert Unfold(env.doc, [], 0) == [] && Unfold(env.doc, [a], 0) == [a];
  }

  /** It does happen: two fields of the largest cost under the largest limit are admitted, at twice the limit. */
  lemma SaturationAdmits() returns (env: Env)
    ensures env.doc.operations == [Operation(Query, None, [Field("a", [], []), Field("a", [], [])])]
    ensures env.limits.maxCost == U64_MAX && ExactCost(env, env.doc.operations[0].selections) == 2 * U64_MAX
    ensures AnalyzeSpec(env, None).Ok? && !ExactlyWithinLimits(env, env.doc.operations[0])
  {
    var a := Field("a", [], []);
    env := Env(Document([Operation(Query, None, [a, a])], map[]), Limits(1, U64_MAX, map["a" := U64_MAX], 1), map[]);
    TwoFields(env, a);
    UnfoldStable(env.doc, [a, a], 0, |env.doc.fragments|);
    AnalyzeMeaning(env, None);
  }

  ghost predicate IsPage(name: string) {
    name == "first" || name == "last" || name == "limit" || name == "take"
  }

  /** The argument asks for a page of `n`, literally or through a variable. */
  ghost predicate Asks(env: Env, arg: Arg, n: int) {
    && IsPage(arg.name)
    && match arg.value
       case IntArg(m) => m == n
       case Variable(v) => v in env.variables && env.variables[v] == n
       case Other => false
  }

  /** The children of a field count as often as its first page argument asks, between 1 and 10000; else the default. */
  lemma {:induction false} MultiplierMeaning(env: Env, args: seq<Arg>, i: nat, n: int)
    requires i <= |args|
    requires forall j, m :: 0 <= j < i ==> !Asks(env, args[j], m)
    ensures i == |args| ==> Multiplier(env, args) == Max(1, env.limits.defaultListMultiplier)
    ensures i < |args| && Asks(env, args[i], n) ==>
              Multiplier(env, args) == if n < 1 then 1 else if n > 10_000 then 10_000 else n
    decreases i
  {
    if i > 0 {
      var value := PageSize(env, args[0].value);
      assert value.Some? ==> !Asks(env, args[0], value.value);
      MultiplierMeaning(env, args[1..], i - 1, n);
    }
  }
}
