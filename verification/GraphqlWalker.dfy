/**
 The complexity walk of the gateway: depth, saturating cost and root fields of a selection set,
 with fragment spreads expanded on the fly and a stack that rejects cycles.
 */
module GraphqlWalker {
  import opened Base
  import opened GraphqlSyntax

  datatype Limits = Limits(
    maxDepth: nat,
    maxCost: U64,
    fieldCosts: map<string, U64>,
    defaultListMultiplier: U64)

  datatype WalkError = UnknownFragment(name: string) | FragmentCycle(name: string)

  datatype Measure = Measure(depth: nat, cost: U64, roots: seq<string>)

  /** Everything the walk reads. `variables` holds the request variables with an integer value. */
  datatype Env = Env(doc: Document, limits: Limits, variables: map<string, int>)

  const PAGE_ARGS: set<string> := {"first", "last", "limit", "take"}

  function PageSize(env: Env, value: ArgValue): Option<int> {
    match value
    case IntArg(n) => Some(n)
    case Variable(v) => if v in env.variables then Some(env.variables[v]) else None
    case Other => None
  }

  function ClampPage(n: int): U64 {
    if n < 1 then 1 else if n > 10_000 then 10_000 else n
  }

  /** How often the children of a field count. Never zero, which is what keeps saturation harmless. */
  function Multiplier(env: Env, args: seq<Arg>): (m: U64)
    ensures m >= 1
  {
    if args == [] then
      if env.limits.defaultListMultiplier < 1 then 1 else env.limits.defaultListMultiplier
    else if args[0].name in PAGE_ARGS && PageSize(env, args[0].value).Some? then
      ClampPage(PageSize(env, args[0].value).value)
    else
      Multiplier(env, args[1..])
  }

  function OwnCost(env: Env, name: string): U64 {
    if name == "__typename" then 0
    else if name in env.limits.fieldCosts then env.limits.fieldCosts[name]
    else 1
  }

  /** How many fragments may still be entered: the termination measure of the walk. */
  ghost function Unvisited(env: Env, stack: seq<string>): nat {
    |env.doc.fragments.Keys - Elements(stack)|
  }

  lemma EnterFragment(env: Env, stack: seq<string>, name: string)
    requires name in env.doc.fragments && name !in stack
    ensures Unvisited(env, stack + [name]) == Unvisited(env, stack) - 1
  {
    var rest := env.doc.fragments.Keys - Elements(stack);
    assert env.doc.fragments.Keys - Elements(stack + [name]) == rest - {name};
  }

  /** What one selection at `level` contributes when the fragments of `stack` are open. */
  ghost function VisitSpec(env: Env, s: Selection, level: nat, stack: seq<string>): Result<Measure, WalkError>
    decreases Unvisited(env, stack), s, 0
  {
    match s
    case Field(name, args, selections) =>
      var child := WalkSpec(env, selections, level + 1, stack);
      if child.Err? then child
      else
        var own := SatAdd(OwnCost(env, name), SatMul(Multiplier(env, args), child.value.cost));
        Ok(Measure(Max(level, child.value.depth), own, [name]))
    case Inline(inner) =>
      WalkSpec(env, inner, level, stack)
    case Spread(name) =>
      if name in stack then Err(FragmentCycle(name))
      else if name !in env.doc.fragments then Err(UnknownFragment(name))
      else
        EnterFragment(env, stack, name);
        WalkSpec(env, env.doc.fragments[name], level, stack + [name])
  }

  function Join(m: Measure, n: Measure): Measure {
    Measure(Max(m.depth, n.depth), SatAdd(m.cost, n.cost), m.roots + n.roots)
  }

  /** What the walk of `selections` at `level` returns when the fragments of `stack` are open. */
  ghost function WalkSpec(env: Env, selections: seq<Selection>, level: nat, stack: seq<string>)
    : Result<Measure, WalkError>
    decreases Unvisited(env, stack), selections, 1
  {
    if selections == [] then
      Ok(Measure(if level == 0 then 0 else level - 1, 0, []))
    else
      var before := WalkSpec(env, Init(selections), level, stack);
      if before.Err? then before
      else
        var next := VisitSpec(env, Last(selections), level, stack);
        if next.Err? then next else Ok(Join(before.value, next.value))
  }

  /** The root-field list after adding `names` to it, when there is one to add to. */
  function Collect(roots: Option<seq<string>>, names: seq<string>): Option<seq<string>> {
    if roots.None? then None else Some(roots.value + names)
  }

  lemma CollectLaws(roots: Option<seq<string>>, a: seq<string>, b: seq<string>)
    ensures Collect(roots, []) == roots
    ensures Collect(Collect(roots, a), b) == Collect(roots, a + b)
  {
    if roots.Some? {
      assert roots.value + [] == roots.value;
      assert roots.value + a + b == roots.value + (a + b);
    }
  }

  class Walker {
    const env: Env
    var stack: seq<string>

    constructor (env: Env)
      ensures this.env == env && stack == []
    {
      this.env := env;
      stack := [];
    }

    /** The three cases of the walk's loop body. */
    method Visit(s: Selection, level: nat, roots: Option<seq<string>>)
      returns (r: Result<(nat, U64), WalkError>, found: Option<seq<string>>)
      modifies this`stack
      decreases Unvisited(env, stack), s, 0
      ensures match VisitSpec(env, s, level, old(stack))
              case Err(e) => r == Err(e)
              case Ok(m) => r == Ok((m.depth, m.cost)) && stack == old(stack) && found == Collect(roots, m.roots)
    {
      match s {
        case Field(name, args, children) =>
          found := Collect(roots, [name]);
          var child, _ := Walk(children, level + 1, None);
          if child.Err? {
            return Err(child.error), found;
          }
          r := Ok((Max(level, child.value.0),
                   SatAdd(OwnCost(env, name), SatMul(Multiplier(env, args), child.value.1))));
        case Inline(inner) =>
          r, found := Walk(inner, level, roots);
        case Spread(name) =>
          if name in stack {
            return Err(FragmentCycle(name)), roots;
          }
          if name !in env.doc.fragments {
            return Err(UnknownFragment(name)), roots;
          }
          EnterFragment(env, stack, name);
          stack := stack + [name];
          r, found := Walk(env.doc.fragments[name], level, roots);
          if r.Ok? {
            stack := Init(stack);
          }
      }
    }

    /**
     The walk itself. `roots` collects the field names met at the operation's own level; it is
     passed on through inline and named fragments and withheld from the children of a field.
     */
    method Walk(selections: seq<Selection>, level: nat, roots: Option<seq<string>>)
      returns (r: Result<(nat, U64), WalkError>, found: Option<seq<string>>)
      modifies this`stack
      decreases Unvisited(env, stack), selections, 1
      ensures match WalkSpec(env, selections, level, old(stack))
              case Err(e) => r == Err(e)
              case Ok(m) => r == Ok((m.depth, m.cost)) && stack == old(stack) && found == Collect(roots, m.roots)
    {
      var depth: nat := if level == 0 then 0 else level - 1;
      var cost: U64 := 0;
      found := roots;
      ghost var names: seq<string> := [];
      CollectLaws(roots, [], []);
      var i := 0;
      while i < |selections|
        invariant 0 <= i <= |selections|
        invariant stack == old(stack)
        invariant WalkSpec(env, selections[..i], level, stack) == Ok(Measure(depth, cost, names))
        invariant found == Collect(roots, names)
      {
        assert Init(selections[..i + 1]) == selections[..i];
        WalkErrPropagates(env, selections, i + 1, level, stack);
        ghost var next := VisitSpec(env, selections[i], level, stack);
        var one, more := Visit(selections[i], level, found);
        if one.Err? {
          return Err(one.error), more;
        }
        CollectLaws(roots, names, next.value.roots);
        depth, cost, found, names := Max(depth, one.value.0), SatAdd(cost, one.value.1), more, names + next.value.roots;
        i := i + 1;
      }
      assert selections[..i] == selections;
      r := Ok((depth, cost));
    }
  }

  /** The first failing selection decides the error, whatever follows it. */
  lemma {:induction false} WalkErrPropagates(env: Env, selections: seq<Selection>, n: nat, level: nat,
      stack: seq<string>)
    requires n <= |selections|
    ensures WalkSpec(env, selections[..n], level, stack).Err? ==>
              WalkSpec(env, selections, level, stack) == WalkSpec(env, selections[..n], level, stack)
    decreases |selections| - n
  {
    if n < |selections| {
      assert Init(selections[..n + 1]) == selections[..n];
      WalkErrPropagates(env, selections, n + 1, level, stack);
    } else {
      assert selections[..n] == selections;
    }
  }
}
