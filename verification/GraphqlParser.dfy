/**
 The gateway's recursive-descent parser. Each production is first given as a function of the tokens
 still to read; the class `Parser` is the source's cursor over a token vector, proved to compute it.
 */
module GraphqlParser {
  import opened Base
  import opened GraphqlSyntax

  /** A production's value and the tokens after it, or a syntax error. */
  datatype Parsed<+T> = Good(value: T, rest: seq<Token>) | Bad

  type Tokens = seq<Token>

  predicate At(ts: Tokens, c: char) {
    ts != [] && ts[0] == Punct(c)
  }

  function ReadName(ts: Tokens): (r: Parsed<string>)
    ensures r.Good? ==> |r.rest| < |ts|
  {
    if ts != [] && ts[0].Name? then Good(ts[0].name, ts[1..]) else Bad
  }

  function ReadPunct(ts: Tokens, c: char): (r: Parsed<()>)
    ensures r.Good? ==> |r.rest| < |ts|
  {
    if At(ts, c) then Good((), ts[1..]) else Bad
  }

  /** A name and the colon after it, as in arguments and object fields. */
  function ReadLabel(ts: Tokens): (r: Parsed<string>)
    ensures r.Good? ==> |r.rest| < |ts|
  {
    var name := ReadName(ts);
    if name.Bad? then Bad
    else
      var colon := ReadPunct(name.rest, ':');
      if colon.Bad? then Bad else Good(name.value, colon.rest)
  }

  function ReadValue(ts: Tokens): (r: Parsed<ArgValue>)
    ensures r.Good? ==> |r.rest| < |ts|
    decreases |ts|, 0
  {
    if ts == [] then Bad
    else
      match ts[0]
      case IntLit(n) => Good(IntArg(n), ts[1..])
      case FloatLit => Good(Other, ts[1..])
      case StrLit => Good(Other, ts[1..])
      case Name(_) => Good(Other, ts[1..])
      case Dots => Bad
      case Punct(c) =>
        if c == '$' then
          var name := ReadName(ts[1..]);
          if name.Bad? then Bad else Good(Variable(name.value), name.rest)
        else if c == '[' then
          var items := ReadItems(ts[1..]);
          if items.Bad? then Bad else Good(Other, items.rest)
        else if c == '{' then
          var members := ReadMembers(ts[1..]);
          if members.Bad? then Bad else Good(Other, members.rest)
        else Bad
  }

  /** The rest of a list value, after its opening bracket. */
  function ReadItems(ts: Tokens): (r: Parsed<()>)
    ensures r.Good? ==> |r.rest| < |ts|
    decreases |ts|, 1
  {
    if At(ts, ']') then Good((), ts[1..])
    else
      var v := ReadValue(ts);
      if v.Bad? then Bad else ReadItems(v.rest)
  }

  /** The rest of an object value, after its opening brace. */
  function ReadMembers(ts: Tokens): (r: Parsed<()>)
    ensures r.Good? ==> |r.rest| < |ts|
    decreases |ts|, 1
  {
    if At(ts, '}') then Good((), ts[1..])
    else
      var key := ReadLabel(ts);
      if key.Bad? then Bad
      else
        var v := ReadValue(key.rest);
        if v.Bad? then Bad else ReadMembers(v.rest)
  }

  /** The rest of an argument list, after its opening parenthesis. */
  function ReadArgs(ts: Tokens): (r: Parsed<seq<Arg>>)
    ensures r.Good? ==> |r.rest| < |ts|
    decreases |ts|
  {
    if At(ts, ')') then Good([], ts[1..])
    else
      var key := ReadLabel(ts);
      if key.Bad? then Bad
      else
        var v := ReadValue(key.rest);
        if v.Bad? then Bad
        else Prepend([Arg(key.value, v.value)], ReadArgs(v.rest))
  }

  function Prepend<T>(front: seq<T>, r: Parsed<seq<T>>): Parsed<seq<T>> {
    match r
    case Bad => Bad
    case Good(v, rest) => Good(front + v, rest)
  }

  function ReadArguments(ts: Tokens): (r: Parsed<seq<Arg>>)
    ensures r.Good? ==> |r.rest| <= |ts|
  {
    if At(ts, '(') then ReadArgs(ts[1..]) else Good([], ts)
  }

  /** Directives are read and forgotten. */
  function ReadDirectives(ts: Tokens): (r: Parsed<()>)
    ensures r.Good? ==> |r.rest| <= |ts|
    decreases |ts|
  {
    if !At(ts, '@') then Good((), ts)
    else
      var name := ReadName(ts[1..]);
      if name.Bad? then Bad
      else
        var args := ReadArguments(name.rest);
        if args.Bad? then Bad else ReadDirectives(args.rest)
  }

  function ReadVariableDefinitions(ts: Tokens): (r: Parsed<()>)
    ensures r.Good? ==> |r.rest| <= |ts|
  {
    if At(ts, '(') then SkipParens(ts[1..], 1) else Good((), ts)
  }

  /** Skip to the parenthesis that closes the outermost of `depth` open ones. */
  function SkipParens(ts: Tokens, depth: nat): (r: Parsed<()>)
    ensures r.Good? ==> |r.rest| <= |ts|
    decreases |ts|
  {
    if depth == 0 then Good((), ts)
    else if ts == [] then Bad
    else
      var next := if ts[0] == Punct('(') then depth + 1 else if ts[0] == Punct(')') then depth - 1 else depth;
      SkipParens(ts[1..], next)
  }

  function ReadSelectionSet(ts: Tokens): (r: Parsed<seq<Selection>>)
    ensures r.Good? ==> |r.rest| < |ts|
    decreases |ts|, 0
  {
    if !At(ts, '{') then Bad
    else
      var sels := ReadSelections(ts[1..]);
      if sels.Good? && sels.value == [] then Bad else sels
  }

  /** Directives and the selection set they apply to. */
  function ReadBody(ts: Tokens): (r: Parsed<seq<Selection>>)
    ensures r.Good? ==> |r.rest| < |ts|
    decreases |ts|, 1
  {
    var dirs := ReadDirectives(ts);
    if dirs.Bad? then Bad else ReadSelectionSet(dirs.rest)
  }

  /** The rest of a selection set, after its opening brace. */
  function ReadSelections(ts: Tokens): (r: Parsed<seq<Selection>>)
    ensures r.Good? ==> |r.rest| < |ts|
    decreases |ts|, 2
  {
    if At(ts, '}') then Good([], ts[1..])
    else
      var s := ReadSelection(ts);
      if s.Bad? then Bad else Prepend([s.value], ReadSelections(s.rest))
  }

  function ReadSelection(ts: Tokens): (r: Parsed<Selection>)
    ensures r.Good? ==> |r.rest| < |ts|
    decreases |ts|, 1
  {
    if ts != [] && ts[0] == Dots then ReadSpread(ts[1..]) else ReadField(ts)
  }

  /** What follows the three dots: an inline fragment or the name of a fragment. */
  function ReadSpread(ts: Tokens): (r: Parsed<Selection>)
    ensures r.Good? ==> |r.rest| < |ts|
    decreases |ts|, 2
  {
    if ts != [] && ts[0].Name? && ts[0].name != "on" then
      var dirs := ReadDirectives(ts[1..]);
      if dirs.Bad? then Bad else Good(Spread(ts[0].name), dirs.rest)
    else
      var cond := ReadTypeCondition(ts);
      if cond.Bad? then Bad
      else
        var body := ReadBody(cond.rest);
        if body.Bad? then Bad else Good(Inline(body.value), body.rest)
  }

  /** `on T`, or nothing. */
  function ReadTypeCondition(ts: Tokens): (r: Parsed<()>)
    ensures r.Good? ==> |r.rest| <= |ts|
  {
    if ts != [] && ts[0] == Name("on") then
      var name := ReadName(ts[1..]);
      if name.Bad? then Bad else Good((), name.rest)
    else Good((), ts)
  }

  function ReadField(ts: Tokens): (r: Parsed<Selection>)
    ensures r.Good? ==> |r.rest| < |ts|
    decreases |ts|, 0
  {
    var name := ReadFieldName(ts);
    if name.Bad? then Bad
    else
      var args := ReadArguments(name.rest);
      if args.Bad? then Bad
      else
        var dirs := ReadDirectives(args.rest);
        if dirs.Bad? then Bad
        else if At(dirs.rest, '{') then
          var sels := ReadSelectionSet(dirs.rest);
          if sels.Bad? then Bad else Good(Field(name.value, args.value, sels.value), sels.rest)
        else Good(Field(name.value, args.value, []), dirs.rest)
  }

  /** A field name; an alias before it is dropped. */
  function ReadFieldName(ts: Tokens): (r: Parsed<string>)
    ensures r.Good? ==> |r.rest| < |ts|
  {
    var first := ReadName(ts);
    if first.Bad? then Bad
    else if At(first.rest, ':') then ReadName(first.rest[1..])
    else first
  }

  // ----- Definitions -----

  datatype Definition = OperationDef(op: Operation) | FragmentDef(name: string, selections: seq<Selection>)

  function KindOf(keyword: string): OperationKind {
    if keyword == "mutation" then Mutation else if keyword == "subscription" then Subscription else Query
  }

  function ReadDefinition(ts: Tokens): (r: Parsed<Definition>)
    requires ts != []
    ensures r.Good? ==> |r.rest| < |ts|
  {
    match ts[0]
    case Punct(c) =>
      var sels := ReadSelectionSet(ts);
      if sels.Bad? then Bad else Good(OperationDef(Operation(Query, None, sels.value)), sels.rest)
    case Name(keyword) =>
      if keyword in {"query", "mutation", "subscription"} then ReadOperation(KindOf(keyword), ts[1..])
      else if keyword == "fragment" then ReadFragment(ts[1..])
      else Bad
    case _ => Bad
  }

  function ReadOperation(kind: OperationKind, ts: Tokens): (r: Parsed<Definition>)
    ensures r.Good? ==> |r.rest| < |ts|
  {
    var named := ts != [] && ts[0].Name?;
    var name := if named then Some(ts[0].name) else None;
    var vars := ReadVariableDefinitions(if named then ts[1..] else ts);
    if vars.Bad? then Bad
    else
      var body := ReadBody(vars.rest);
      if body.Bad? then Bad else Good(OperationDef(Operation(kind, name, body.value)), body.rest)
  }

  function ReadFragment(ts: Tokens): (r: Parsed<Definition>)
    ensures r.Good? ==> |r.rest| < |ts|
  {
    var name := ReadName(ts);
    if name.Bad? then Bad
    else if name.rest == [] || name.rest[0] != Name("on") then Bad
    else
      var cond := ReadTypeCondition(name.rest);
      if cond.Bad? then Bad
      else
        var body := ReadBody(cond.rest);
        if body.Bad? then Bad else Good(FragmentDef(name.value, body.value), body.rest)
  }

  /** A later fragment of the same name replaces an earlier one. */
  function AddDefinition(doc: Document, d: Definition): Document {
    match d
    case OperationDef(op) => doc.(operations := doc.operations + [op])
    case FragmentDef(name, sels) => doc.(fragments := doc.fragments[name := sels])
  }

  function ReadDefinitions(ts: Tokens, doc: Document): Option<Document>
    decreases |ts|
  {
    if ts == [] then Some(doc)
    else
      var d := ReadDefinition(ts);
      if d.Bad? then None else ReadDefinitions(d.rest, AddDefinition(doc, d.value))
  }

  const EMPTY: Document := Document([], map[])

  /** The document that a token vector denotes, if any. */
  function ParseTokens(ts: Tokens): Option<Document> {
    var doc := ReadDefinitions(ts, EMPTY);
    if doc.Some? && doc.value.operations == [] then None else doc
  }

  // ----- The cursor -----

  class Parser {
    const tokens: Tokens
    var pos: nat

    constructor (tokens: Tokens)
      ensures this.tokens == tokens && pos == 0
    {
      this.tokens := tokens;
      pos := 0;
    }

    /** Tokens not yet consumed. The source lets `pos` run past the end after a failed read. */
    ghost function Rest(): Tokens
      reads this
    {
      if pos <= |tokens| then tokens[pos..] else []
    }

    /** This call returned `r` for a production that reads `spec`. */
    ghost predicate Read<T(!new)>(spec: Parsed<T>, r: Option<T>)
      reads this
    {
      match spec
      case Bad => r == None
      case Good(v, rest) => r == Some(v) && pos <= |tokens| && Rest() == rest
    }

    method Peek() returns (t: Option<Token>)
      requires pos <= |tokens|
      ensures t == if Rest() == [] then None else Some(Rest()[0])
    {
      t := if pos < |tokens| then Some(tokens[pos]) else None;
    }

    method Bump() returns (t: Option<Token>)
      requires pos <= |tokens|
      modifies this
      ensures t == if old(Rest()) == [] then None else Some(old(Rest())[0])
      ensures t.Some? ==> pos <= |tokens| && Rest() == old(Rest())[1..]
      ensures t.Some? ==> pos == old(pos) + 1
    {
      t := if pos < |tokens| then Some(tokens[pos]) else None;
      pos := pos + 1;
    }

    method AtPunct(c: char) returns (b: bool)
      requires pos <= |tokens|
      ensures b == At(Rest(), c)
    {
      b := pos < |tokens| && tokens[pos] == Punct(c);
    }

    method EatPunct(c: char) returns (b: bool)
      requires pos <= |tokens|
      modifies this
      ensures b == At(old(Rest()), c) && pos <= |tokens|
      ensures Rest() == if b then old(Rest())[1..] else old(Rest())
      ensures pos == if b then old(pos) + 1 else old(pos)
    {
      b := AtPunct(c);
      if b {
        pos := pos + 1;
      }
    }

    method ReadTheName() returns (r: Option<string>)
      requires pos <= |tokens|
      modifies this
      ensures Read(ReadName(old(Rest())), r)
    {
      var t := Bump();
      r := if t.Some? && t.value.Name? then Some(t.value.name) else None;
    }

    method ReadTheLabel() returns (r: Option<string>)
      requires pos <= |tokens|
      modifies this
      ensures Read(ReadLabel(old(Rest())), r)
    {
      r := ReadTheName();
      if r.Some? {
        var colon := EatPunct(':');
        if !colon {
          r := None;
        }
      }
    }

    /** `value`: the loops over list items and object members are `Items` and `Members`. */
    method Value() returns (r: Option<ArgValue>)
      requires pos <= |tokens|
      modifies this
      decreases |Rest()|, 0
      ensures Read(ReadValue(old(Rest())), r)
    {
      var t := Bump();
      if t.None? {
        return None;
      }
      match t.value {
        case IntLit(n) => return Some(IntArg(n));
        case FloatLit => return Some(Other);
        case StrLit => return Some(Other);
        case Name(_) => return Some(Other);
        case Dots => return None;
        case Punct(c) =>
          if c == '$' {
            var name := ReadTheName();
            return if name.Some? then Some(Variable(name.value)) else None;
          } else if c == '[' {
            var ok := Items();
            return if ok.Some? then Some(Other) else None;
          } else if c == '{' {
            var ok := Members();
            return if ok.Some? then Some(Other) else None;
          } else {
            return None;
          }
      }
    }

    method Items() returns (r: Option<()>)
      requires pos <= |tokens|
      modifies this
      decreases |Rest()|, 1
      ensures Read(ReadItems(old(Rest())), r)
    {
      var done := AtPunct(']');
      while !done
        invariant pos <= |tokens| && |Rest()| <= |old(Rest())|
        invariant done == At(Rest(), ']')
        invariant ReadItems(Rest()) == ReadItems(old(Rest()))
        decreases |Rest()|
      {
        var v := Value();
        if v.None? {
          return None;
        }
        done := AtPunct(']');
      }
      pos := pos + 1;
      r := Some(());
    }

    method Members() returns (r: Option<()>)
      requires pos <= |tokens|
      modifies this
      decreases |Rest()|, 1
      ensures Read(ReadMembers(old(Rest())), r)
    {
      var done := AtPunct('}');
      while !done
        invariant pos <= |tokens| && |Rest()| <= |old(Rest())|
        invariant done == At(Rest(), '}')
        invariant ReadMembers(Rest()) == ReadMembers(old(Rest()))
        decreases |Rest()|
      {
        var key := ReadTheLabel();
        if key.None? {
          return None;
        }
        var v := Value();
        if v.None? {
          return None;
        }
        done := AtPunct('}');
      }
      pos := pos + 1;
      r := Some(());
    }

    /** One turn of the loop of `Arguments`. */
    method ReadTheArgument() returns (r: Option<Arg>)
      requires pos <= |tokens| && !At(Rest(), ')')
      modifies this
      ensures r.None? ==> ReadArgs(old(Rest())) == Bad
      ensures r.Some? ==> pos <= |tokens| && |Rest()| < |old(Rest())|
      ensures r.Some? ==> ReadArgs(old(Rest())) == Prepend([r.value], ReadArgs(Rest()))
    {
      var key := ReadTheLabel();
      if key.None? {
        return None;
      }
      var v := Value();
      r := if v.Some? then Some(Arg(key.value, v.value)) else None;
    }

    method Arguments() returns (r: Option<seq<Arg>>)
      requires pos <= |tokens|
      modifies this
      ensures Read(ReadArguments(old(Rest())), r)
    {
      var args: seq<Arg> := [];
      var open := EatPunct('(');
      if !open {
        return Some([]);
      }
      ghost var all := ReadArgs(Rest());
      assert Prepend(args, all) == all by { PrependLaws(args, args, all); }
      var done := AtPunct(')');
      while !done
        invariant pos <= |tokens|
        invariant done == At(Rest(), ')')
        invariant all == Prepend(args, ReadArgs(Rest()))
        decreases |Rest()|
      {
        var arg := ReadTheArgument();
        if arg.None? {
          return None;
        }
        PrependLaws(args, [arg.value], ReadArgs(Rest()));
        args := args + [arg.value];
        done := AtPunct(')');
      }
      assert args + [] == args;
      pos := pos + 1;
      r := Some(args);
    }

    method Directives() returns (r: Option<()>)
      requires pos <= |tokens|
      modifies this
      ensures Read(ReadDirectives(old(Rest())), r)
    {
      ghost var before := Rest();
      var more := EatPunct('@');
      while more
        invariant pos <= |tokens|
        invariant more == At(before, '@')
        invariant Rest() == if more then before[1..] else before
        invariant ReadDirectives(before) == ReadDirectives(old(Rest()))
        decreases |before|
      {
        var name := ReadTheName();
        if name.None? {
          return None;
        }
        var args := Arguments();
        if args.None? {
          return None;
        }
        before := Rest();
        more := EatPunct('@');
      }
      r := Some(());
    }

    method VariableDefinitions() returns (r: Option<()>)
      requires pos <= |tokens|
      modifies this
      ensures Read(ReadVariableDefinitions(old(Rest())), r)
    {
      var open := EatPunct('(');
      if !open {
        return Some(());
      }
      ghost var all := SkipParens(Rest(), 1);
      var depth: nat := 1;
      while depth > 0
        invariant pos <= |tokens|
        invariant all == SkipParens(Rest(), depth)
        decreases |Rest()|
      {
        var t := Bump();
        if t.None? {
          return None;
        }
        if t.value == Punct('(') {
          depth := depth + 1;
        } else if t.value == Punct(')') {
          depth := depth - 1;
        }
      }
      r := Some(());
    }

    method SelectionSet() returns (r: Option<seq<Selection>>)
      requires pos <= |tokens|
      modifies this
      decreases |Rest()|, 0
      ensures Read(ReadSelectionSet(old(Rest())), r)
    {
      var open := EatPunct('{');
      if !open {
        return None;
      }
      var selections: seq<Selection> := [];
      ghost var all := ReadSelections(Rest());
      assert Prepend(selections, all) == all by { PrependLaws(selections, selections, all); }
      var done := AtPunct('}');
      while !done
        invariant pos <= |tokens| && |Rest()| < |old(Rest())|
        invariant done == At(Rest(), '}')
        invariant all == Prepend(selections, ReadSelections(Rest()))
        decreases |Rest()|
      {
        var s := ReadTheSelection();
        if s.None? {
          return None;
        }
        PrependLaws(selections, [s.value], ReadSelections(Rest()));
        selections := selections + [s.value];
        done := AtPunct('}');
      }
      assert selections + [] == selections;
      pos := pos + 1;
      r := if selections == [] then None else Some(selections);
    }

    method Body() returns (r: Option<seq<Selection>>)
      requires pos <= |tokens|
      modifies this
      decreases |Rest()|, 1
      ensures Read(ReadBody(old(Rest())), r)
    {
      var dirs := Directives();
      if dirs.None? {
        return None;
      }
      r := SelectionSet();
    }

    method ReadTheSelection() returns (r: Option<Selection>)
      requires pos <= |tokens|
      modifies this
      decreases |Rest()|, 2
      ensures Read(ReadSelection(old(Rest())), r)
    {
      var t := Peek();
      if t == Some(Dots) {
        pos := pos + 1;
        r := SpreadOrInline();
      } else {
        r := ReadTheField();
      }
    }

    method SpreadOrInline() returns (r: Option<Selection>)
      requires pos <= |tokens|
      modifies this
      decreases |Rest()|, 2
      ensures Read(ReadSpread(old(Rest())), r)
    {
      var t := Peek();
      if t.Some? && t.value.Name? && t.value.name != "on" {
        pos := pos + 1;
        var dirs := Directives();
        return if dirs.None? then None else Some(Spread(t.value.name));
      }
      var cond := TypeCondition();
      if cond.None? {
        return None;
      }
      var sels := Body();
      r := if sels.None? then None else Some(Inline(sels.value));
    }

    method TypeCondition() returns (r: Option<()>)
      requires pos <= |tokens|
      modifies this
      ensures Read(ReadTypeCondition(old(Rest())), r)
    {
      var t := Peek();
      if t == Some(Name("on")) {
        pos := pos + 1;
        var name := ReadTheName();
        return if name.None? then None else Some(());
      }
      r := Some(());
    }

    method ReadTheField() returns (r: Option<Selection>)
      requires pos <= |tokens|
      modifies this
      decreases |Rest()|, 1
      ensures Read(ReadField(old(Rest())), r)
    {
      var name := FieldName();
      if name.None? {
        return None;
      }
      var args := Arguments();
      if args.None? {
        return None;
      }
      var dirs := Directives();
      if dirs.None? {
        return None;
      }
      var nested := AtPunct('{');
      if !nested {
        return Some(Field(name.value, args.value, []));
      }
      var sels := SelectionSet();
      r := if sels.None? then None else Some(Field(name.value, args.value, sels.value));
    }

    method FieldName() returns (r: Option<string>)
      requires pos <= |tokens|
      modifies this
      ensures Read(ReadFieldName(old(Rest())), r)
    {
      r := ReadTheName();
      if r.Some? {
        var aliased := EatPunct(':');
        if aliased {
          r := ReadTheName();
        }
      }
    }

    /** One round of the document loop. */
    method ReadTheDefinition() returns (r: Option<Definition>)
      requires pos < |tokens|
      modifies this
      ensures Read(ReadDefinition(old(Rest())), r)
    {
      match tokens[pos] {
        case Punct(_) =>
          var sels := SelectionSet();
          r := if sels.None? then None else Some(OperationDef(Operation(Query, None, sels.value)));
        case Name(keyword) =>
          pos := pos + 1;
          if keyword in {"query", "mutation", "subscription"} {
            r := ReadTheOperation(KindOf(keyword));
          } else if keyword == "fragment" {
            r := ReadTheFragment();
          } else {
            r := None;
          }
        case _ => r := None;
      }
    }

    method ReadTheOperation(kind: OperationKind) returns (r: Option<Definition>)
      requires pos <= |tokens|
      modifies this
      ensures Read(ReadOperation(kind, old(Rest())), r)
    {
      var t := Peek();
      var name: Option<string> := None;
      if t.Some? && t.value.Name? {
        name := ReadTheName();
      }
      var vars := VariableDefinitions();
      if vars.None? {
        return None;
      }
      var sels := Body();
      r := if sels.None? then None else Some(OperationDef(Operation(kind, name, sels.value)));
    }

    method ReadTheFragment() returns (r: Option<Definition>)
      requires pos <= |tokens|
      modifies this
      ensures Read(ReadFragment(old(Rest())), r)
    {
      var name := ReadTheName();
      if name.None? {
        return None;
      }
      var t := Peek();
      if t != Some(Name("on")) {
        return None;
      }
      var cond := TypeCondition();
      if cond.None? {
        return None;
      }
      var sels := Body();
      r := if sels.None? then None else Some(FragmentDef(name.value, sels.value));
    }

    method ParseDocument() returns (r: Option<Document>)
      requires pos == 0
      modifies this
      ensures r == ParseTokens(tokens)
    {
      var doc := EMPTY;
      assert Rest() == tokens;
      while pos < |tokens|
        invariant pos <= |tokens|
        invariant ReadDefinitions(Rest(), doc) == ReadDefinitions(tokens, EMPTY)
        decreases |Rest()|
      {
        var d := ReadTheDefinition();
        if d.None? {
          return None;
        }
        doc := AddDefinition(doc, d.value);
      }
      r := if doc.operations == [] then None else Some(doc);
    }
  }

  lemma PrependLaws<T>(a: seq<T>, b: seq<T>, r: Parsed<seq<T>>)
    ensures Prepend([], r) == r
    ensures Prepend(a, Prepend(b, r)) == Prepend(a + b, r)
  {
    if r.Good? {
      assert [] + r.value == r.value;
      assert a + (b + r.value) == a + b + r.value;
    }
  }
}
