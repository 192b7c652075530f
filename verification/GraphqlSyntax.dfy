/** The abstract syntax of executable GraphQL documents, as the gateway keeps it. */
module GraphqlSyntax {
  import opened Base

  /** Lexer tokens. Float and string literals carry no text: the gateway never looks at it. */
  datatype Token =
    | Punct(c: char)
    | Dots
    | Name(name: string)
    | IntLit(n: int)
    | FloatLit
    | StrLit

  datatype ArgValue = IntArg(n: int) | Variable(variable: string) | Other

  datatype Arg = Arg(name: string, value: ArgValue)

  datatype Selection =
    | Field(name: string, args: seq<Arg>, selections: seq<Selection>)
    | Inline(inner: seq<Selection>)
    | Spread(fragment: string)

  datatype OperationKind = Query | Mutation | Subscription

  datatype Operation = Operation(kind: OperationKind, name: Option<string>, selections: seq<Selection>)

  datatype Document = Document(operations: seq<Operation>, fragments: map<string, seq<Selection>>)
}
