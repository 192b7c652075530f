/**
 The grammar the parser accepts, as concrete syntax trees and the token vectors they are written as.
 The parser is sound and complete for it: a token vector parses to a document exactly when it is
 the writing of some well-formed syntax tree of that document.
 */
module GraphqlGrammar {
  import opened Base
  import opened GraphqlSyntax
  import opened GraphqlParser

  // ----- Concrete syntax -----

  datatype CValue =
    | CInt(n: int)
    | CFloat
    | CStr
    | CName(name: string)
    | CVar(name: string)
    | CList(items: seq<CValue>)
    | CObject(members: seq<CMember>)

  /** `name: value`, an argument or an object member. */
  datatype CMember = CMember(name: string, value: CValue)

  datatype CArgs = NoArgs | Parens(args: seq<CMember>)

  datatype CDirective = CDirective(name: string, args: CArgs)

  /** A field without a selection set has `sels == []`. */
  datatype CSelection =
    | CField(alias: Option<string>, name: string, args: CArgs, dirs: seq<CDirective>, sels: seq<CSelection>)
    | CInline(cond: Option<string>, dirs: seq<CDirective>, sels: seq<CSelection>)
    | CSpread(fragment: string, dirs: seq<CDirective>)

  datatype CDefinition =
    | CShort(sels: seq<CSelection>)
    | COperation(
        kind: OperationKind, name: Option<string>, vars: Option<Tokens>, dirs: seq<CDirective>, sels: seq<CSelection>)
    | CFragment(fragment: string, cond: string, dirs: seq<CDirective>, sels: seq<CSelection>)

  /** Reading `body` with `d` parentheses open never closes the last one, and leaves just it open. */
  ghost predicate LeavesOneOpen(body: Tokens, d: nat) {
    if body == [] then d == 1
    else if body[0] == Punct('(') then LeavesOneOpen(body[1..], d + 1)
    else if body[0] == Punct(')') then d >= 2 && LeavesOneOpen(body[1..], d - 1)
    else LeavesOneOpen(body[1..], d)
  }

  ghost predicate WellFormed(s: CSelection)
    decreases s, 0
  {
    match s
    case CField(_, _, _, _, sels) => AllWellFormed(sels)
    case CInline(_, _, sels) => sels != [] && AllWellFormed(sels)
    case CSpread(fragment, _) => fragment != "on"
  }

  ghost predicate AllWellFormed(sels: seq<CSelection>)
    decreases sels, 1
  {
    sels == [] || (WellFormed(sels[0]) && AllWellFormed(sels[1..]))
  }

  ghost predicate WellFormedDefinition(d: CDefinition) {
    && d.sels != []
    && AllWellFormed(d.sels)
    && (d.COperation? && d.vars.Some? ==> LeavesOneOpen(d.vars.value, 1))
  }

  // ----- Writing: each function puts its tree in front of the tokens `rest` -----

  ghost function WriteValue(v: CValue, rest: Tokens): Tokens
    decreases v, 0
  {
    match v
    case CInt(n) => [IntLit(n)] + rest
    case CFloat => [FloatLit] + rest
    case CStr => [StrLit] + rest
    case CName(name) => [Name(name)] + rest
    case CVar(name) => [Punct('$')] + ([Name(name)] + rest)
    case CList(items) => [Punct('[')] + WriteItems(items, [Punct(']')] + rest)
    case CObject(members) => [Punct('{')] + WriteMembers(members, [Punct('}')] + rest)
  }

  ghost function WriteItems(items: seq<CValue>, rest: Tokens): Tokens
    decreases items, 1
  {
    if items == [] then rest else WriteValue(items[0], WriteItems(items[1..], rest))
  }

  ghost function WriteMembers(members: seq<CMember>, rest: Tokens): Tokens
    decreases members, 1
  {
    if members == [] then rest
    else [Name(members[0].name)] + ([Punct(':')] + WriteValue(members[0].value, WriteMembers(members[1..], rest)))
  }

  ghost function WriteArgs(args: CArgs, rest: Tokens): Tokens {
    match args
    case NoArgs => rest
    case Parens(args) => [Punct('(')] + WriteMembers(args, [Punct(')')] + rest)
  }

  ghost function WriteDirectives(dirs: seq<CDirective>, rest: Tokens): Tokens {
    if dirs == [] then rest
    else [Punct('@')] + ([Name(dirs[0].name)] + WriteArgs(dirs[0].args, WriteDirectives(dirs[1..], rest)))
  }

  ghost function WriteSelection(s: CSelection, rest: Tokens): Tokens
    decreases s, 0
  {
    match s
    case CField(alias, name, args, dirs, sels) =>
      var tail := WriteArgs(args, WriteDirectives(dirs, if sels == [] then rest else WriteSet(sels, rest)));
      if alias.Some? then [Name(alias.value)] + ([Punct(':')] + ([Name(name)] + tail)) else [Name(name)] + tail
    case CInline(cond, dirs, sels) =>
      [Dots] + WriteCondition(cond, WriteDirectives(dirs, WriteSet(sels, rest)))
    case CSpread(fragment, dirs) =>
      [Dots] + ([Name(fragment)] + WriteDirectives(dirs, rest))
  }

  ghost function WriteCondition(cond: Option<string>, rest: Tokens): Tokens {
    if cond.Some? then [Name("on")] + ([Name(cond.value)] + rest) else rest
  }

  ghost function WriteSelections(sels: seq<CSelection>, rest: Tokens): Tokens
    decreases sels, 1
  {
    if sels == [] then rest else WriteSelection(sels[0], WriteSelections(sels[1..], rest))
  }

  ghost function WriteSet(sels: seq<CSelection>, rest: Tokens): Tokens
    decreases sels, 2
  {
    [Punct('{')] + WriteSelections(sels, [Punct('}')] + rest)
  }

  ghost function Keyword(kind: OperationKind): string {
    match kind
    case Query => "query"
    case Mutation => "mutation"
    case Subscription => "subscription"
  }

  ghost function WriteVariables(vars: Option<Tokens>, rest: Tokens): Tokens {
    if vars.Some? then [Punct('(')] + (vars.value + ([Punct(')')] + rest)) else rest
  }

  ghost function WriteDefinition(d: CDefinition, rest: Tokens): Tokens {
    match d
    case CShort(sels) => WriteSet(sels, rest)
    case COperation(kind, name, vars, dirs, sels) =>
      var tail := WriteVariables(vars, WriteDirectives(dirs, WriteSet(sels, rest)));
      [Name(Keyword(kind))] + (if name.Some? then [Name(name.value)] + tail else tail)
    case CFragment(name, cond, dirs, sels) =>
      [Name("fragment")] + ([Name(name)] + WriteCondition(Some(cond), WriteDirectives(dirs, WriteSet(sels, rest))))
  }

  ghost function WriteDocument(defs: seq<CDefinition>): Tokens {
    if defs == [] then [] else WriteDefinition(defs[0], WriteDocument(defs[1..]))
  }

  // ----- Meaning: the abstract syntax of a tree -----

  ghost function ValueOf(v: CValue): ArgValue {
    match v
    case CInt(n) => IntArg(n)
    case CVar(name) => Variable(name)
    case _ => Other
  }

  ghost function MembersOf(members: seq<CMember>): seq<Arg> {
    if members == [] then [] else [Arg(members[0].name, ValueOf(members[0].value))] + MembersOf(members[1..])
  }

  ghost function ArgsOf(args: CArgs): seq<Arg> {
    match args
    case NoArgs => []
    case Parens(args) => MembersOf(args)
  }

  ghost function SelectionOf(s: CSelection): Selection
    decreases s, 0
  {
    match s
    case CField(_, name, args, _, sels) => Field(name, ArgsOf(args), SelectionsOf(sels))
    case CInline(_, _, sels) => Inline(SelectionsOf(sels))
    case CSpread(fragment, _) => Spread(fragment)
  }

  ghost function SelectionsOf(sels: seq<CSelection>): seq<Selection>
    decreases sels, 1
  {
    if sels == [] then [] else [SelectionOf(sels[0])] + SelectionsOf(sels[1..])
  }

  ghost function DefinitionOf(d: CDefinition): Definition {
    match d
    case CShort(sels) => OperationDef(Operation(Query, None, SelectionsOf(sels)))
    case COperation(kind, name, _, _, sels) => OperationDef(Operation(kind, name, SelectionsOf(sels)))
    case CFragment(name, _, _, sels) => FragmentDef(name, SelectionsOf(sels))
  }

  ghost function DocumentOf(doc: Document, defs: seq<CDefinition>): Document
    decreases defs
  {
    if defs == [] then doc else DocumentOf(AddDefinition(doc, DefinitionOf(defs[0])), defs[1..])
  }

  // ----- Completeness: what is written is read back -----

  lemma {:induction false} ValueReadBack(v: CValue, rest: Tokens)
    ensures ReadValue(WriteValue(v, rest)) == Good(ValueOf(v), rest)
    decreases v, 0
  {
    match v
    case CList(items) => ItemsReadBack(items, rest);
    case CObject(members) => ObjectReadBack(members, rest);
    case _ =>
  }

  lemma {:induction false} ItemsReadBack(items: seq<CValue>, rest: Tokens)
    ensures ReadItems(WriteItems(items, [Punct(']')] + rest)) == Good((), rest)
    decreases items, 1
  {
    if items != [] {
      ValueReadBack(items[0], WriteItems(items[1..], [Punct(']')] + rest));
      ItemsReadBack(items[1..], rest);
    }
  }

  lemma {:induction false} ObjectReadBack(members: seq<CMember>, rest: Tokens)
    ensures ReadMembers(WriteMembers(members, [Punct('}')] + rest)) == Good((), rest)
    decreases members, 1
  {
    if members != [] {
      var tail := WriteMembers(members[1..], [Punct('}')] + rest);
      LabelReadBack(members[0].name, WriteValue(members[0].value, tail));
      ValueReadBack(members[0].value, tail);
      ObjectReadBack(members[1..], rest);
    }
  }

  lemma LabelReadBack(name: string, rest: Tokens)
    ensures ReadLabel([Name(name)] + ([Punct(':')] + rest)) == Good(name, rest)
  {
    assert ([Name(name)] + ([Punct(':')] + rest))[1..] == [Punct(':')] + rest;
  }

  lemma {:induction false} ArgListReadBack(args: seq<CMember>, rest: Tokens)
    ensures ReadArgs(WriteMembers(args, [Punct(')')] + rest)) == Good(MembersOf(args), rest)
    decreases args
  {
    if args != [] {
      var tail := WriteMembers(args[1..], [Punct(')')] + rest);
      LabelReadBack(args[0].name, WriteValue(args[0].value, tail));
      ValueReadBack(args[0].value, tail);
      ArgListReadBack(args[1..], rest);
    }
  }

  lemma ArgsReadBack(args: CArgs, rest: Tokens)
    requires !At(rest, '(')
    ensures ReadArguments(WriteArgs(args, rest)) == Good(ArgsOf(args), rest)
  {
    if args.Parens? {
      ArgListReadBack(args.args, rest);
    }
  }

  lemma {:induction false} DirectivesReadBack(dirs: seq<CDirective>, rest: Tokens)
    requires !At(rest, '(') && !At(rest, '@')
    ensures ReadDirectives(WriteDirectives(dirs, rest)) == Good((), rest)
  {
    if dirs != [] {
      var tail := WriteDirectives(dirs[1..], rest);
      var args := WriteArgs(dirs[0].args, tail);
      ArgsReadBack(dirs[0].args, tail);
      DirectivesReadBack(dirs[1..], rest);
      assert ([Punct('@')] + ([Name(dirs[0].name)] + args))[1..] == [Name(dirs[0].name)] + args;
    }
  }

  lemma {:induction false} SkipReadBack(body: Tokens, d: nat, rest: Tokens)
    requires LeavesOneOpen(body, d) && d >= 1
    ensures SkipParens(body + ([Punct(')')] + rest), d) == Good((), rest)
  {
    var ts := body + ([Punct(')')] + rest);
    if body == [] {
      assert ts == [Punct(')')] + rest && ts[1..] == rest;
    } else {
      assert ts[1..] == body[1..] + ([Punct(')')] + rest);
      var next := if body[0] == Punct('(') then d + 1 else if body[0] == Punct(')') then d - 1 else d;
      SkipReadBack(body[1..], next, rest);
    }
  }

  /** A selection is followed by another one or by the closing brace of its set. */
  ghost predicate FollowsSelection(ts: Tokens) {
    ts != [] && (ts[0].Name? || ts[0] == Dots || ts[0] == Punct('}'))
  }

  lemma SelectionsFollow(sels: seq<CSelection>, rest: Tokens)
    requires FollowsSelection(rest)
    ensures FollowsSelection(WriteSelections(sels, rest))
    ensures sels != [] ==> !At(WriteSelections(sels, rest), '}')
  {}

  lemma {:induction false} SelectionsReadBack(sels: seq<CSelection>, rest: Tokens)
    requires AllWellFormed(sels)
    ensures ReadSelections(WriteSelections(sels, [Punct('}')] + rest)) == Good(SelectionsOf(sels), rest)
    decreases sels, 1
  {
    if sels != [] {
      var tail := WriteSelections(sels[1..], [Punct('}')] + rest);
      SelectionsFollow(sels[1..], [Punct('}')] + rest);
      SelectionsFollow(sels, [Punct('}')] + rest);
      SelectionReadBack(sels[0], tail);
      SelectionsReadBack(sels[1..], rest);
    }
  }

  lemma {:induction false} SetReadBack(sels: seq<CSelection>, rest: Tokens)
    requires sels != [] && AllWellFormed(sels)
    ensures ReadSelectionSet(WriteSet(sels, rest)) == Good(SelectionsOf(sels), rest)
    decreases sels, 2
  {
    SelectionsReadBack(sels, rest);
  }

  lemma {:induction false} BodyReadBack(dirs: seq<CDirective>, sels: seq<CSelection>, rest: Tokens)
    requires sels != [] && AllWellFormed(sels)
    ensures ReadBody(WriteDirectives(dirs, WriteSet(sels, rest))) == Good(SelectionsOf(sels), rest)
    decreases sels, 3
  {
    DirectivesReadBack(dirs, WriteSet(sels, rest));
    SetReadBack(sels, rest);
  }

  lemma {:induction false} SelectionReadBack(s: CSelection, rest: Tokens)
    requires WellFormed(s) && FollowsSelection(rest)
    ensures ReadSelection(WriteSelection(s, rest)) == Good(SelectionOf(s), rest)
    decreases s, 0
  {
    match s
    case CField(alias, name, args, dirs, sels) => FieldReadBack(s, rest);
    case CInline(cond, dirs, sels) =>
      var tail := WriteDirectives(dirs, WriteSet(sels, rest));
      BodyReadBack(dirs, sels, rest);
      ConditionReadBack(cond, tail);
    case CSpread(fragment, dirs) =>
      DirectivesReadBack(dirs, rest);
      var tail := WriteDirectives(dirs, rest);
      assert ([Dots] + ([Name(fragment)] + tail))[1..] == [Name(fragment)] + tail;
  }

  lemma ConditionReadBack(cond: Option<string>, rest: Tokens)
    requires rest == [] || !rest[0].Name?
    ensures ReadTypeCondition(WriteCondition(cond, rest)) == Good((), rest)
  {
    if cond.Some? {
      assert WriteCondition(cond, rest)[1..] == [Name(cond.value)] + rest;
    }
  }

  lemma {:induction false} FieldReadBack(s: CSelection, rest: Tokens)
    requires s.CField? && WellFormed(s) && FollowsSelection(rest)
    ensures ReadField(WriteSelection(s, rest)) == Good(SelectionOf(s), rest)
    decreases s.sels, 3
  {
    var body := if s.sels == [] then rest else WriteSet(s.sels, rest);
    var dirs := WriteDirectives(s.dirs, body);
    var tail := WriteArgs(s.args, dirs);
    FieldNameReadBack(s.alias, s.name, tail);
    ArgsReadBack(s.args, dirs);
    DirectivesReadBack(s.dirs, body);
    if s.sels != [] {
      SetReadBack(s.sels, rest);
    }
  }

  lemma FieldNameReadBack(alias: Option<string>, name: string, rest: Tokens)
    requires !At(rest, ':')
    ensures ReadFieldName(if alias.Some? then [Name(alias.value)] + ([Punct(':')] + ([Name(name)] + rest))
                          else [Name(name)] + rest)
         == Good(name, rest)
  {
    var named := [Name(name)] + rest;
    assert named[1..] == rest;
    if alias.Some? {
      var all := [Name(alias.value)] + ([Punct(':')] + named);
      assert all[1..] == [Punct(':')] + named && all[1..][1..] == named;
    }
  }

  lemma DefinitionReadBack(d: CDefinition, rest: Tokens)
    requires WellFormedDefinition(d)
    ensures WriteDefinition(d, rest) != []
    ensures ReadDefinition(WriteDefinition(d, rest)) == Good(DefinitionOf(d), rest)
  {
    match d
    case CShort(sels) => SetReadBack(sels, rest);
    case COperation(kind, name, vars, dirs, sels) => OperationReadBack(d, rest);
    case CFragment(name, cond, dirs, sels) =>
      var body := WriteDirectives(dirs, WriteSet(sels, rest));
      var tail := WriteCondition(Some(cond), body);
      BodyReadBack(dirs, sels, rest);
      ConditionReadBack(Some(cond), body);
      assert WriteDefinition(d, rest)[1..] == [Name(name)] + tail && ([Name(name)] + tail)[1..] == tail;
  }

  lemma VariablesReadBack(vars: Option<Tokens>, body: Tokens)
    requires vars.Some? ==> LeavesOneOpen(vars.value, 1)
    requires body != [] && (body[0] == Punct('@') || body[0] == Punct('{'))
    ensures ReadVariableDefinitions(WriteVariables(vars, body)) == Good((), body)
    ensures WriteVariables(vars, body) != [] && WriteVariables(vars, body)[0].Punct?
  {
    if vars.Some? {
      SkipReadBack(vars.value, 1, body);
      assert WriteVariables(vars, body)[1..] == vars.value + ([Punct(')')] + body);
    }
  }

  /** What follows the keyword of an operation. */
  lemma HeadReadBack(kind: OperationKind, name: Option<string>, vars: Tokens, body: Tokens)
    requires vars != [] && vars[0].Punct? && ReadVariableDefinitions(vars) == Good((), body) && ReadBody(body).Good?
    ensures ReadOperation(kind, if name.Some? then [Name(name.value)] + vars else vars) ==
              Good(OperationDef(Operation(kind, name, ReadBody(body).value)), ReadBody(body).rest)
  {
    if name.Some? {
      assert ([Name(name.value)] + vars)[1..] == vars;
    }
  }

  lemma OperationReadBack(d: CDefinition, rest: Tokens)
    requires d.COperation? && WellFormedDefinition(d)
    ensures ReadDefinition(WriteDefinition(d, rest)) == Good(DefinitionOf(d), rest)
  {
    var body := WriteDirectives(d.dirs, WriteSet(d.sels, rest));
    var vars := WriteVariables(d.vars, body);
    BodyReadBack(d.dirs, d.sels, rest);
    BodyStarts(d.dirs, d.sels, rest);
    VariablesReadBack(d.vars, body);
    HeadReadBack(d.kind, d.name, vars, body);
    KeywordReadBack(d.kind, if d.name.Some? then [Name(d.name.value)] + vars else vars);
  }

  lemma BodyStarts(dirs: seq<CDirective>, sels: seq<CSelection>, rest: Tokens)
    ensures var body := WriteDirectives(dirs, WriteSet(sels, rest));
            body != [] && (body[0] == Punct('@') || body[0] == Punct('{'))
  {
  }

  lemma KeywordReadBack(kind: OperationKind, tail: Tokens)
    ensures ReadDefinition([Name(Keyword(kind))] + tail) == ReadOperation(kind, tail)
  {
    assert ([Name(Keyword(kind))] + tail)[1..] == tail;
  }

  lemma {:induction false} DocumentReadBack(defs: seq<CDefinition>, doc: Document)
    requires forall d :: d in defs ==> WellFormedDefinition(d)
    ensures ReadDefinitions(WriteDocument(defs), doc) == Some(DocumentOf(doc, defs))
  {
    if defs != [] {
      DefinitionReadBack(defs[0], WriteDocument(defs[1..]));
      DocumentReadBack(defs[1..], AddDefinition(doc, DefinitionOf(defs[0])));
    }
  }

  // ----- Soundness: what is read was written -----

  lemma {:induction false} ValueWasWritten(ts: Tokens) returns (v: CValue)
    requires ReadValue(ts).Good?
    ensures WriteValue(v, ReadValue(ts).rest) == ts && ValueOf(v) == ReadValue(ts).value
    decreases |ts|, 0
  {
    var rest := ts[1..];
    assert ts == [ts[0]] + rest;
    match ts[0]
    case IntLit(n) => v := CInt(n);
    case FloatLit => v := CFloat;
    case StrLit => v := CStr;
    case Name(name) => v := CName(name);
    case Punct(c) =>
      if c == '$' {
        NameWasWritten(rest);
        v := CVar(ReadName(rest).value);
      } else if c == '[' {
        var items := ItemsWereWritten(rest);
        v := CList(items);
      } else {
        var members := ObjectWasWritten(rest);
        v := CObject(members);
      }
  }

  lemma NameWasWritten(ts: Tokens)
    requires ReadName(ts).Good?
    ensures [Name(ReadName(ts).value)] + ReadName(ts).rest == ts
  {
  }

  lemma {:induction false} ItemsWereWritten(ts: Tokens) returns (items: seq<CValue>)
    requires ReadItems(ts).Good?
    ensures WriteItems(items, [Punct(']')] + ReadItems(ts).rest) == ts
    decreases |ts|, 1
  {
    if At(ts, ']') {
      items := [];
    } else {
      var v := ValueWasWritten(ts);
      var more := ItemsWereWritten(ReadValue(ts).rest);
      items := [v] + more;
    }
  }

  lemma {:induction false} ObjectWasWritten(ts: Tokens) returns (members: seq<CMember>)
    requires ReadMembers(ts).Good?
    ensures WriteMembers(members, [Punct('}')] + ReadMembers(ts).rest) == ts
    decreases |ts|, 1
  {
    if At(ts, '}') {
      members := [];
    } else {
      LabelWasWritten(ts);
      var key := ReadLabel(ts);
      var v := ValueWasWritten(key.rest);
      var more := ObjectWasWritten(ReadValue(key.rest).rest);
      members := [CMember(key.value, v)] + more;
    }
  }

  lemma LabelWasWritten(ts: Tokens)
    requires ReadLabel(ts).Good?
    ensures [Name(ReadLabel(ts).value)] + ([Punct(':')] + ReadLabel(ts).rest) == ts
  {}

  lemma {:induction false} ArgListWasWritten(ts: Tokens) returns (args: seq<CMember>)
    requires ReadArgs(ts).Good?
    ensures WriteMembers(args, [Punct(')')] + ReadArgs(ts).rest) == ts && MembersOf(args) == ReadArgs(ts).value
    decreases |ts|
  {
    if At(ts, ')') {
      args := [];
    } else {
      LabelWasWritten(ts);
      var key := ReadLabel(ts);
      var v := ValueWasWritten(key.rest);
      var more := ArgListWasWritten(ReadValue(key.rest).rest);
      args := [CMember(key.value, v)] + more;
    }
  }

  lemma ArgsWereWritten(ts: Tokens) returns (args: CArgs)
    requires ReadArguments(ts).Good?
    ensures WriteArgs(args, ReadArguments(ts).rest) == ts && ArgsOf(args) == ReadArguments(ts).value
  {
    if At(ts, '(') {
      var list := ArgListWasWritten(ts[1..]);
      args := Parens(list);
    } else {
      args := NoArgs;
    }
  }

  lemma {:induction false} DirectivesWereWritten(ts: Tokens) returns (dirs: seq<CDirective>)
    requires ReadDirectives(ts).Good?
    ensures WriteDirectives(dirs, ReadDirectives(ts).rest) == ts
    decreases |ts|
  {
    if !At(ts, '@') {
      dirs := [];
    } else {
      var name := ReadName(ts[1..]);
      var args := ArgsWereWritten(name.rest);
      var more := DirectivesWereWritten(ReadArguments(name.rest).rest);
      dirs := [CDirective(name.value, args)] + more;
      assert [Punct('@')] + ([Name(name.value)] + name.rest) == ts;
    }
  }

  lemma {:induction false} SkippedWasWritten(ts: Tokens, d: nat) returns (body: Tokens)
    requires d >= 1 && SkipParens(ts, d).Good?
    ensures body + ([Punct(')')] + SkipParens(ts, d).rest) == ts && LeavesOneOpen(body, d)
    decreases |ts|
  {
    if ts[0] == Punct(')') && d == 1 {
      body := [];
      assert SkipParens(ts[1..], 0).rest == ts[1..];
    } else {
      var e := if ts[0] == Punct('(') then d + 1 else if ts[0] == Punct(')') then d - 1 else d;
      var more := SkippedWasWritten(ts[1..], e);
      body := [ts[0]] + more;
      assert body[1..] == more;
      assert body + ([Punct(')')] + SkipParens(ts, d).rest) ==
          [ts[0]] + (more + ([Punct(')')] + SkipParens(ts, d).rest));
    }
  }

  lemma {:induction false} SelectionsWereWritten(ts: Tokens) returns (sels: seq<CSelection>)
    requires ReadSelections(ts).Good?
    ensures WriteSelections(sels, [Punct('}')] + ReadSelections(ts).rest) == ts
    ensures AllWellFormed(sels) && SelectionsOf(sels) == ReadSelections(ts).value
    decreases |ts|, 3
  {
    if At(ts, '}') {
      sels := [];
    } else {
      var s := SelectionWasWritten(ts);
      var more := SelectionsWereWritten(ReadSelection(ts).rest);
      sels := [s] + more;
    }
  }

  lemma {:induction false} SetWasWritten(ts: Tokens) returns (sels: seq<CSelection>)
    requires ReadSelectionSet(ts).Good?
    ensures WriteSet(sels, ReadSelectionSet(ts).rest) == ts
    ensures sels != [] && AllWellFormed(sels) && SelectionsOf(sels) == ReadSelectionSet(ts).value
    decreases |ts|, 0
  {
    sels := SelectionsWereWritten(ts[1..]);
  }

  lemma {:induction false} BodyWasWritten(ts: Tokens) returns (dirs: seq<CDirective>, sels: seq<CSelection>)
    requires ReadBody(ts).Good?
    ensures WriteDirectives(dirs, WriteSet(sels, ReadBody(ts).rest)) == ts
    ensures sels != [] && AllWellFormed(sels) && SelectionsOf(sels) == ReadBody(ts).value
    decreases |ts|, 1
  {
    dirs := DirectivesWereWritten(ts);
    sels := SetWasWritten(ReadDirectives(ts).rest);
  }

  lemma {:induction false} SelectionWasWritten(ts: Tokens) returns (s: CSelection)
    requires ReadSelection(ts).Good?
    ensures WriteSelection(s, ReadSelection(ts).rest) == ts
    ensures WellFormed(s) && SelectionOf(s) == ReadSelection(ts).value
    decreases |ts|, 2
  {
    if ts[0] == Dots {
      var rest := ts[1..];
      if rest != [] && rest[0].Name? && rest[0].name != "on" {
        var dirs := DirectivesWereWritten(rest[1..]);
        s := CSpread(rest[0].name, dirs);
        assert [Name(rest[0].name)] + rest[1..] == rest;
      } else {
        var cond := ConditionWasWritten(rest);
        var dirs, sels := BodyWasWritten(ReadTypeCondition(rest).rest);
        s := CInline(cond, dirs, sels);
      }
    } else {
      s := FieldWasWritten(ts);
    }
  }

  lemma ConditionWasWritten(ts: Tokens) returns (cond: Option<string>)
    requires ReadTypeCondition(ts).Good?
    ensures WriteCondition(cond, ReadTypeCondition(ts).rest) == ts
    ensures cond.Some? <==> ts != [] && ts[0] == Name("on")
  {
    if ts != [] && ts[0] == Name("on") {
      cond := Some(ReadName(ts[1..]).value);
      assert [Name("on")] + ts[1..] == ts;
    } else {
      cond := None;
    }
  }

  lemma {:induction false} FieldWasWritten(ts: Tokens) returns (s: CSelection)
    requires ReadField(ts).Good?
    ensures WriteSelection(s, ReadField(ts).rest) == ts
    ensures WellFormed(s) && SelectionOf(s) == ReadField(ts).value
    decreases |ts|, 1
  {
    var alias := FieldNameWasWritten(ts);
    var name := ReadFieldName(ts);
    var args := ArgsWereWritten(name.rest);
    var dirs := DirectivesWereWritten(ReadArguments(name.rest).rest);
    var body := ReadDirectives(ReadArguments(name.rest).rest).rest;
    var sels: seq<CSelection> := [];
    if At(body, '{') {
      sels := SetWasWritten(body);
    }
    s := CField(alias, name.value, args, dirs, sels);
  }

  lemma FieldNameWasWritten(ts: Tokens) returns (alias: Option<string>)
    requires ReadFieldName(ts).Good?
    ensures ts == if alias.Some?
                  then [Name(alias.value)] + ([Punct(':')] + ([Name(ReadFieldName(ts).value)] + ReadFieldName(ts).rest))
                  else [Name(ReadFieldName(ts).value)] + ReadFieldName(ts).rest
  {
    var first := ReadName(ts);
    alias := if At(first.rest, ':') then Some(first.value) else None;
    if alias.Some? {
      assert first.rest == [Punct(':')] + first.rest[1..];
    }
  }

  lemma DefinitionWasWritten(ts: Tokens) returns (d: CDefinition)
    requires ts != [] && ReadDefinition(ts).Good?
    ensures WriteDefinition(d, ReadDefinition(ts).rest) == ts
    ensures WellFormedDefinition(d) && DefinitionOf(d) == ReadDefinition(ts).value
  {
    match ts[0]
    case Punct(_) =>
      var sels := SetWasWritten(ts);
      d := CShort(sels);
    case Name(keyword) =>
      if keyword == "fragment" {
        d := FragmentWasWritten(ts[1..]);
      } else {
        d := OperationWasWritten(KindOf(keyword), ts[1..]);
        assert Keyword(KindOf(keyword)) == keyword;
      }
      assert ts == [Name(keyword)] + ts[1..];
  }

  /** What reading a fragment definition went through. */
  lemma FragmentParts(ts: Tokens)
    requires ReadFragment(ts).Good?
    ensures ReadName(ts).Good?
    ensures var after := ReadName(ts).rest;
            && after != [] && after[0] == Name("on") && ReadTypeCondition(after).Good?
            && var body := ReadBody(ReadTypeCondition(after).rest);
               body.Good? && ReadFragment(ts) == Good(FragmentDef(ReadName(ts).value, body.value), body.rest)
  {
  }

  lemma FragmentWasWritten(ts: Tokens) returns (d: CDefinition)
    requires ReadFragment(ts).Good?
    ensures WriteDefinition(d, ReadFragment(ts).rest) == [Name("fragment")] + ts
    ensures WellFormedDefinition(d) && DefinitionOf(d) == ReadFragment(ts).value
  {
    FragmentParts(ts);
    NameWasWritten(ts);
    var after := ReadName(ts).rest;
    var cond := ConditionWasWritten(after);
    var dirs, sels := BodyWasWritten(ReadTypeCondition(after).rest);
    d := CFragment(ReadName(ts).value, cond.value, dirs, sels);
  }

  lemma OperationWasWritten(kind: OperationKind, ts: Tokens) returns (d: CDefinition)
    requires ReadOperation(kind, ts).Good?
    ensures WriteDefinition(d, ReadOperation(kind, ts).rest) == [Name(Keyword(kind))] + ts
    ensures WellFormedDefinition(d) && DefinitionOf(d) == ReadOperation(kind, ts).value
  {
    var name := if ts != [] && ts[0].Name? then Some(ts[0].name) else None;
    var after := if name.Some? then ts[1..] else ts;
    var vars: Option<Tokens> := None;
    if At(after, '(') {
      var skipped := SkippedWasWritten(after[1..], 1);
      vars := Some(skipped);
      assert [Punct('(')] + after[1..] == after;
    }
    var dirs, sels := BodyWasWritten(ReadVariableDefinitions(after).rest);
    d := COperation(kind, name, vars, dirs, sels);
    assert name.Some? ==> [Name(name.value)] + after == ts;
  }

  lemma {:induction false} DocumentWasWritten(ts: Tokens, doc: Document) returns (defs: seq<CDefinition>)
    requires ReadDefinitions(ts, doc).Some?
    ensures WriteDocument(defs) == ts && DocumentOf(doc, defs) == ReadDefinitions(ts, doc).value
    ensures forall d :: d in defs ==> WellFormedDefinition(d)
    decreases |ts|
  {
    if ts == [] {
      defs := [];
    } else {
      var d := DefinitionWasWritten(ts);
      var more := DocumentWasWritten(ReadDefinition(ts).rest, AddDefinition(doc, DefinitionOf(d)));
      defs := [d] + more;
      assert defs[1..] == more;
    }
  }

  // ----- Main results -----

  /** `defs` is a well-formed writing of `doc`, which has at least one operation. */
  ghost predicate Writes(defs: seq<CDefinition>, doc: Document) {
    && (forall d :: d in defs ==> WellFormedDefinition(d))
    && DocumentOf(EMPTY, defs) == doc
    && doc.operations != []
  }

  /** The parser accepts exactly the grammar, and gives every text its meaning. */
  lemma ParserDecidesGrammar(ts: Tokens, doc: Document)
    ensures ParseTokens(ts) == Some(doc) <==> exists defs :: WriteDocument(defs) == ts && Writes(defs, doc)
  {
    if ParseTokens(ts) == Some(doc) {
      var defs := DocumentWasWritten(ts, EMPTY);
      assert WriteDocument(defs) == ts && Writes(defs, doc);
    }
    forall defs | WriteDocument(defs) == ts && Writes(defs, doc) ensures ParseTokens(ts) == Some(doc) {
      DocumentReadBack(defs, EMPTY);
    }
  }

  /** The operations among the definitions, in order. */
  ghost function OperationsOf(defs: seq<CDefinition>): seq<Operation> {
    if defs == [] then []
    else
      match defs[0]
      case CFragment(_, _, _, _) => OperationsOf(defs[1..])
      case _ => [DefinitionOf(defs[0]).op] + OperationsOf(defs[1..])
  }

  ghost predicate Defines(d: CDefinition, name: string) {
    d.CFragment? && d.fragment == name
  }

  /** The `i`-th definition is the last one of a fragment of this name. */
  ghost predicate DefinesLast(defs: seq<CDefinition>, i: nat, name: string) {
    i < |defs| && Defines(defs[i], name) && forall j :: i < j < |defs| ==> !Defines(defs[j], name)
  }

  lemma {:induction false} OperationsAdded(doc: Document, defs: seq<CDefinition>)
    ensures DocumentOf(doc, defs).operations == doc.operations + OperationsOf(defs)
    decreases defs
  {
    if defs != [] {
      OperationsAdded(AddDefinition(doc, DefinitionOf(defs[0])), defs[1..]);
    }
  }

  ghost predicate NoneDefines(defs: seq<CDefinition>, name: string) {
    forall i :: 0 <= i < |defs| ==> !Defines(defs[i], name)
  }

  lemma {:induction false} FragmentUntouched(doc: Document, defs: seq<CDefinition>, name: string)
    requires NoneDefines(defs, name)
    ensures name in DocumentOf(doc, defs).fragments <==> name in doc.fragments
    ensures name in doc.fragments ==> DocumentOf(doc, defs).fragments[name] == doc.fragments[name]
    decreases defs
  {
    if defs != [] {
      FragmentUntouched(AddDefinition(doc, DefinitionOf(defs[0])), defs[1..], name);
      assert !Defines(defs[0], name);
    }
  }

  lemma {:induction false} FragmentAdded(doc: Document, defs: seq<CDefinition>, i: nat, name: string)
    requires DefinesLast(defs, i, name)
    ensures name in DocumentOf(doc, defs).fragments
    ensures DocumentOf(doc, defs).fragments[name] == SelectionsOf(defs[i].sels)
    decreases defs
  {
    var next := AddDefinition(doc, DefinitionOf(defs[0]));
    if i == 0 {
      FragmentUntouched(next, defs[1..], name);
    } else {
      FragmentAdded(next, defs[1..], i - 1, name);
    }
  }

  /**
   The document of a text has its operations in order, and under each fragment name the selections of the last
   definition of that name.
   */
  lemma DocumentMeaning(defs: seq<CDefinition>, i: nat, name: string)
    ensures var doc := DocumentOf(EMPTY, defs);
            && doc.operations == OperationsOf(defs)
            && (DefinesLast(defs, i, name) ==>
                 name in doc.fragments && doc.fragments[name] == SelectionsOf(defs[i].sels))
            && (NoneDefines(defs, name) ==> name !in doc.fragments)
  {
    OperationsAdded(EMPTY, defs);
    assert EMPTY.operations + OperationsOf(defs) == OperationsOf(defs);
    if DefinesLast(defs, i, name) {
      FragmentAdded(EMPTY, defs, i, name);
    }
    if NoneDefines(defs, name) {
      FragmentUntouched(EMPTY, defs, name);
    }
  }

  /** The grammar is unambiguous: one text has one meaning. */
  lemma {:induction false} GrammarIsUnambiguous(a: seq<CDefinition>, b: seq<CDefinition>)
    requires WriteDocument(a) == WriteDocument(b)
    requires forall d :: d in a + b ==> WellFormedDefinition(d)
    ensures DocumentOf(EMPTY, a) == DocumentOf(EMPTY, b)
  {
    assert forall d :: d in a || d in b ==> d in a + b;
    DocumentReadBack(a, EMPTY);
    DocumentReadBack(b, EMPTY);
  }

  // ----- Printing a document -----

  /** Selections the parser can produce: no empty fragment body, no spread called `on`. */
  ghost predicate Printable(s: Selection)
    decreases s, 0
  {
    match s
    case Field(_, _, selections) => AllPrintable(selections)
    case Inline(inner) => inner != [] && AllPrintable(inner)
    case Spread(fragment) => fragment != "on"
  }

  ghost predicate AllPrintable(sels: seq<Selection>)
    decreases sels, 1
  {
    sels == [] || (Printable(sels[0]) && AllPrintable(sels[1..]))
  }

  ghost predicate PrintableDocument(doc: Document) {
    && doc.operations != []
    && (forall op :: op in doc.operations ==> op.selections != [] && AllPrintable(op.selections))
    && (forall name :: name in doc.fragments ==> doc.fragments[name] != [] && AllPrintable(doc.fragments[name]))
  }

  /** A value whose text the gateway forgot is printed as a string literal. */
  ghost function PrintedValue(v: ArgValue): CValue {
    match v
    case IntArg(n) => CInt(n)
    case Variable(name) => CVar(name)
    case Other => CStr
  }

  ghost function PrintedMembers(args: seq<Arg>): seq<CMember> {
    if args == [] then [] else [CMember(args[0].name, PrintedValue(args[0].value))] + PrintedMembers(args[1..])
  }

  ghost function Printed(s: Selection): CSelection
    decreases s, 0
  {
    match s
    case Field(name, args, selections) => CField(None, name, Parens(PrintedMembers(args)), [], PrintedAll(selections))
    case Inline(inner) => CInline(None, [], PrintedAll(inner))
    case Spread(fragment) => CSpread(fragment, [])
  }

  ghost function PrintedAll(sels: seq<Selection>): seq<CSelection>
    decreases sels, 1
  {
    if sels == [] then [] else [Printed(sels[0])] + PrintedAll(sels[1..])
  }

  ghost function PrintedOperation(op: Operation): CDefinition {
    COperation(op.kind, op.name, None, [], PrintedAll(op.selections))
  }

  ghost function PrintedOperations(ops: seq<Operation>): seq<CDefinition> {
    if ops == [] then [] else [PrintedOperation(ops[0])] + PrintedOperations(ops[1..])
  }

  /** The fragments in the order of `names`; the map has no order of its own. */
  ghost function PrintedFragments(fragments: map<string, seq<Selection>>, names: seq<string>): seq<CDefinition>
    requires forall name :: name in names ==> name in fragments
  {
    if names == [] then []
    else [CFragment(names[0], "T", [], PrintedAll(fragments[names[0]]))] + PrintedFragments(fragments, names[1..])
  }

  lemma {:induction false} PrintedMembersMean(args: seq<Arg>)
    ensures MembersOf(PrintedMembers(args)) == args
  {
    if args != [] {
      PrintedMembersMean(args[1..]);
    }
  }

  lemma {:induction false} PrintedMeans(s: Selection)
    requires Printable(s)
    ensures WellFormed(Printed(s)) && SelectionOf(Printed(s)) == s
    decreases s, 0
  {
    match s
    case Field(_, args, selections) =>
      PrintedMembersMean(args);
      PrintedAllMean(selections);
    case Inline(inner) => PrintedAllMean(inner);
    case Spread(_) =>
  }

  lemma {:induction false} PrintedAllMean(sels: seq<Selection>)
    requires AllPrintable(sels)
    ensures AllWellFormed(PrintedAll(sels)) && SelectionsOf(PrintedAll(sels)) == sels
    ensures PrintedAll(sels) == [] <==> sels == []
    decreases sels, 1
  {
    if sels != [] {
      PrintedMeans(sels[0]);
      PrintedAllMean(sels[1..]);
    }
  }

  lemma PrintedOperationMeans(op: Operation)
    requires op.selections != [] && AllPrintable(op.selections)
    ensures WellFormedDefinition(PrintedOperation(op)) && DefinitionOf(PrintedOperation(op)) == OperationDef(op)
  {
    PrintedAllMean(op.selections);
  }

  lemma {:induction false} PrintedOperationsWellFormed(ops: seq<Operation>, d: CDefinition)
    requires forall op :: op in ops ==> op.selections != [] && AllPrintable(op.selections)
    requires d in PrintedOperations(ops)
    ensures WellFormedDefinition(d)
  {
    PrintedOperationMeans(ops[0]);
    if d in PrintedOperations(ops[1..]) {
      PrintedOperationsWellFormed(ops[1..], d);
    }
  }

  lemma DocumentCons(doc: Document, d: CDefinition, rest: seq<CDefinition>)
    ensures DocumentOf(doc, [d] + rest) == DocumentOf(AddDefinition(doc, DefinitionOf(d)), rest)
  {
    assert ([d] + rest)[1..] == rest;
  }

  lemma {:induction false} PrintedOperationsMean(doc: Document, ops: seq<Operation>, more: seq<CDefinition>)
    requires forall op :: op in ops ==> op.selections != [] && AllPrintable(op.selections)
    ensures DocumentOf(doc, PrintedOperations(ops) + more) == DocumentOf(doc.(operations := doc.operations + ops), more)
    decreases ops
  {
    if ops == [] {
      assert PrintedOperations(ops) + more == more && doc.operations + ops == doc.operations;
    } else {
      PrintedOperationMeans(ops[0]);
      var next := doc.(operations := doc.operations + [ops[0]]);
      var rest := PrintedOperations(ops[1..]) + more;
      PrintedOperationsMean(next, ops[1..], more);
      assert PrintedOperations(ops) + more == [PrintedOperation(ops[0])] + rest;
      DocumentCons(doc, PrintedOperation(ops[0]), rest);
      assert next.operations + ops[1..] == doc.operations + ops;
    }
  }

  /** `m` after inserting the named fragments in turn. */
  ghost function Inserted(m: map<string, seq<Selection>>, fragments: map<string, seq<Selection>>, names: seq<string>)
    : map<string, seq<Selection>>
    requires forall name :: name in names ==> name in fragments
    decreases names
  {
    if names == [] then m else Inserted(m[names[0] := fragments[names[0]]], fragments, names[1..])
  }

  lemma {:induction false} InsertedMeans(m: map<string, seq<Selection>>, fragments: map<string, seq<Selection>>,
      names: seq<string>)
    requires forall name :: name in names ==> name in fragments
    requires forall name :: name in m ==> name in fragments && m[name] == fragments[name]
    ensures Inserted(m, fragments, names).Keys == m.Keys + Elements(names)
    ensures forall name :: name in Inserted(m, fragments, names) ==>
              name in fragments && Inserted(m, fragments, names)[name] == fragments[name]
    decreases names
  {
    if names == [] {
      assert m.Keys == m.Keys + Elements(names);
    } else {
      InsertedMeans(m[names[0] := fragments[names[0]]], fragments, names[1..]);
      assert Elements(names) == {names[0]} + Elements(names[1..]) by {
        assert names == [names[0]] + names[1..];
      }
    }
  }

  lemma {:induction false} PrintedFragmentsMean(doc: Document, fragments: map<string, seq<Selection>>,
      names: seq<string>)
    requires forall name :: name in names ==>
              name in fragments && fragments[name] != [] && AllPrintable(fragments[name])
    ensures forall d :: d in PrintedFragments(fragments, names) ==> WellFormedDefinition(d)
    ensures DocumentOf(doc, PrintedFragments(fragments, names)) ==
              doc.(fragments := Inserted(doc.fragments, fragments, names))
    decreases names
  {
    if names != [] {
      PrintedAllMean(fragments[names[0]]);
      PrintedFragmentsMean(doc.(fragments := doc.fragments[names[0] := fragments[names[0]]]), fragments, names[1..]);
    }
  }

  lemma PrintedDocumentMeans(doc: Document, names: seq<string>)
    requires PrintableDocument(doc) && Elements(names) == doc.fragments.Keys
    ensures forall name :: name in names ==> name in doc.fragments
    ensures DocumentOf(EMPTY, PrintedOperations(doc.operations) + PrintedFragments(doc.fragments, names)) == doc
  {
    assert forall name :: name in names ==> name in Elements(names);
    PrintedOperationsMean(EMPTY, doc.operations, PrintedFragments(doc.fragments, names));
    assert EMPTY.operations + doc.operations == doc.operations;
    PrintedFragmentsMean(EMPTY.(operations := doc.operations), doc.fragments, names);
    AllInserted(doc.fragments, names);
  }

  lemma AllInserted(fragments: map<string, seq<Selection>>, names: seq<string>)
    requires forall name :: name in names ==> name in fragments
    requires Elements(names) == fragments.Keys
    ensures Inserted(map[], fragments, names) == fragments
  {
    InsertedMeans(map[], fragments, names);
  }

  /** Printing a document, its fragments in any order, and parsing the tokens gives the document back. */
  lemma PrintParseRoundTrip(doc: Document, names: seq<string>)
    requires PrintableDocument(doc) && Elements(names) == doc.fragments.Keys
    ensures forall name :: name in names ==> name in doc.fragments
    ensures var defs := PrintedOperations(doc.operations) + PrintedFragments(doc.fragments, names);
            ParseTokens(WriteDocument(defs)) == Some(doc)
  {
    PrintedDocumentMeans(doc, names);
    var head, tail := PrintedOperations(doc.operations), PrintedFragments(doc.fragments, names);
    PrintedFragmentsMean(EMPTY, doc.fragments, names);
    forall d | d in head + tail
      ensures WellFormedDefinition(d)
    {
      if d in head {
        PrintedOperationsWellFormed(doc.operations, d);
      }
    }
    DocumentReadBack(head + tail, EMPTY);
  }
}
