/** The fragment of the TypeScript syntax tree that the two codemods inspect
    or build. A file is a flat sequence of top-level statements; every subtree
    the codemods carry through without looking inside is an `Opaque` leaf. */
module Ast {

  /** A nullable field of a node (`null` / `undefined` in the tree). */
  datatype Option<+T> = None | Some(value: T)

  /** The outcome of a transform: the new tree, or the exception it throws. */
  datatype Result<+T, +E> = Success(value: T) | Failure(error: E)

  /** An uninterpreted subtree (a function body, the properties of an object
      pattern, a type the codemods do not inspect), identified by its text. */
  datatype Opaque = Opaque(text: string)

  /** The name inside a type reference: `Foo`, or a qualified `ns.Foo`. */
  datatype EntityName =
    | Identifier(name: string)
    | QualifiedName(left: EntityName, right: string)

  /** A type. Only references are told apart; unions, literals, object types
      and the rest are opaque. `typeParameters` is the argument list of a
      generic instantiation such as `FC<P>`. */
  datatype TSType =
    | TSTypeReference(typeName: EntityName, typeParameters: Option<seq<TSType>>)
    | OtherType(node: Opaque)

  /** The `: T` attached to a binding. */
  datatype TypeAnnotation =
    | TSTypeAnnotation(typeAnnotation: TSType)
    | OtherAnnotation(node: Opaque)

  /** A function parameter. Object patterns are the only kind the codemod
      inspects; identifiers, array patterns, defaults and rest elements are
      carried through as they are. */
  datatype Param =
    | ObjectPattern(properties: Opaque, typeAnnotation: Option<TypeAnnotation>)
    | OtherParam(node: Opaque)

  /** An initialiser expression. `expression` is true for a concise body and
      `typeParameters` is the function's own `<T, ...>` declaration. */
  datatype Expr =
    | ArrowFunctionExpression(params: seq<Param>, body: Opaque, expression: bool,
                              typeParameters: Option<Opaque>)
    | OtherExpr(node: Opaque)

  /** The left-hand side of a declarator: a (possibly annotated) identifier,
      or a destructuring pattern. */
  datatype BindingTarget =
    | IdentifierTarget(name: string, typeAnnotation: Option<TypeAnnotation>)
    | PatternTarget(node: Opaque)

  datatype VariableDeclarator = VariableDeclarator(id: BindingTarget, init: Option<Expr>)

  datatype DeclarationKind = Const | Let | Var

  /** The string node of an import source. The parser produces
      `StringLiteral`; the `literal` builder produces `Literal`. */
  datatype StringNode = StringLiteral(value: string) | Literal(value: string)

  /** An import specifier. `local` is the bound name; the parser always
      fills it in, while the `importSpecifier(id)` builder leaves it out, in
      which case the binding is named by `imported`. Default and namespace
      specifiers have no `imported` name. */
  datatype Specifier =
    | ImportSpecifier(imported: string, local: Option<string>)
    | ImportDefaultSpecifier(local: Option<string>)
    | ImportNamespaceSpecifier(local: Option<string>)

  datatype Statement =
    | VariableDeclaration(kind: DeclarationKind, declarations: seq<VariableDeclarator>)
    | FunctionDeclaration(id: Option<string>, params: seq<Param>, body: Opaque,
                          expression: bool, typeParameters: Option<Opaque>)
    | ImportDeclaration(specifiers: seq<Specifier>, source: StringNode)
    | OtherStatement(node: Opaque)

  /** A source file: its top-level statements in order. */
  type Program = seq<Statement>

  /** The name a specifier binds in the importing module, if it binds one. */
  function BoundName(s: Specifier): Option<string> {
    if s.local.Some? then s.local
    else if s.ImportSpecifier? then Some(s.imported)
    else None
  }

  /** What printing a file and parsing it again does to a named specifier
      the builder made without a local name: the parser fills it in. */
  function ReparseSpecifier(s: Specifier): Specifier {
    if s.ImportSpecifier? && s.local.None? then s.(local := Some(s.imported)) else s
  }

  /** The default and namespace specifiers, in order: the printer puts
      these before the braces. */
  function Unbraced(specs: seq<Specifier>): (r: seq<Specifier>)
    ensures forall k :: 0 <= k < |r| ==> !r[k].ImportSpecifier?
  {
    if specs == [] then []
    else (if specs[0].ImportSpecifier? then [] else [specs[0]]) + Unbraced(specs[1..])
  }

  /** The named specifiers, in order: the printer puts these inside the
      braces. */
  function Braced(specs: seq<Specifier>): (r: seq<Specifier>)
    ensures forall k :: 0 <= k < |r| ==> r[k].ImportSpecifier?
    ensures |r| + |Unbraced(specs)| == |specs|
  {
    if specs == [] then []
    else (if specs[0].ImportSpecifier? then [specs[0]] else []) + Braced(specs[1..])
  }

  /** Every default or namespace specifier is printed before the braces. */
  lemma {:induction false} UnbracedMembership(specs: seq<Specifier>, x: Specifier)
    ensures x in Unbraced(specs) <==> x in specs && !x.ImportSpecifier?
  {
    if specs != [] {
      UnbracedMembership(specs[1..], x);
      assert specs == [specs[0]] + specs[1..];
    }
  }

  predicate HasNamespace(specs: seq<Specifier>) {
    exists k :: 0 <= k < |specs| && specs[k].ImportNamespaceSpecifier?
  }

  /** Whether a specifier list, once printed, is import syntax the parser
      reads back. Before the braces the grammar allows one binding, or a
      default binding followed by a namespace binding; braces may follow a
      default binding but not a namespace binding. */
  predicate ReadsBack(specs: seq<Specifier>) {
    var u, b := Unbraced(specs), Braced(specs);
    || u == []
    || (|u| == 1 && (u[0].ImportDefaultSpecifier? || b == []))
    || (|u| == 2 && u[0].ImportDefaultSpecifier? && u[1].ImportNamespaceSpecifier? && b == [])
  }

  /** An import of one binding always reads back. */
  lemma SingleReadsBack(x: Specifier)
    ensures ReadsBack([x])
  {
    assert [x][1..] == [];
  }

  /** Every statement but an import whose specifiers do not read back
      survives printing and parsing again. */
  predicate Reparsable(s: Statement) {
    s.ImportDeclaration? ==> ReadsBack(s.specifiers)
  }

  /** What printing and parsing again does to an import: the default and
      namespace specifiers come first and the named ones follow in braces,
      the source becomes a string literal and a named specifier gets its
      local name. Every other statement reads back as it was. */
  function ReparseStatement(s: Statement): Statement {
    if s.ImportDeclaration? then
      var printed := Unbraced(s.specifiers) + Braced(s.specifiers);
      ImportDeclaration(seq(|printed|, k requires 0 <= k < |printed| => ReparseSpecifier(printed[k])),
                        StringLiteral(s.source.value))
    else s
  }

  /** The bound names of all import specifiers of a program, in order. */
  function Bindings(p: Program): seq<Option<string>> {
    if p == [] then []
    else
      (if p[0].ImportDeclaration? then seq(|p[0].specifiers|, k requires 0 <= k < |p[0].specifiers| =>
                                             BoundName(p[0].specifiers[k]))
       else [])
      + Bindings(p[1..])
  }

  lemma {:induction false} BindingsAppend(a: Program, b: Program)
    ensures Bindings(a + b) == Bindings(a) + Bindings(b)
  {
    if a == [] {
      assert a + b == b;
    } else {
      assert (a + b)[0] == a[0];
      assert (a + b)[1..] == a[1..] + b;
      BindingsAppend(a[1..], b);
    }
  }

  /** No name is bound by two import specifiers of the file: the parser
      rejects a second declaration of an imported name. */
  predicate NoNameBoundTwice(p: Program) {
    forall x :: x in Bindings(p) && x.Some? ==> multiset(Bindings(p))[x] <= 1
  }

  /** Printing a file and parsing it again: no file when some import does
      not read back or some name is imported twice. */
  function Reparse(p: Program): Option<Program> {
    if (forall i :: 0 <= i < |p| ==> Reparsable(p[i])) && NoNameBoundTwice(p) then
      Some(seq(|p|, i requires 0 <= i < |p| => ReparseStatement(p[i])))
    else None
  }

  /** The statements of `p` that satisfy `keep`, in order. */
  function Filter(p: Program, keep: Statement -> bool): (r: Program)
    ensures |r| <= |p|
  {
    if p == [] then []
    else (if keep(p[0]) then [p[0]] else []) + Filter(p[1..], keep)
  }

  lemma {:induction false} FilterConcat(a: Program, b: Program, keep: Statement -> bool)
    ensures Filter(a + b, keep) == Filter(a, keep) + Filter(b, keep)
  {
    if a == [] {
      assert a + b == b;
    } else {
      var ab := a + b;
      var head := if keep(a[0]) then [a[0]] else [];
      assert ab[0] == a[0];
      assert ab[1..] == a[1..] + b;
      FilterConcat(a[1..], b, keep);
      assert Filter(ab, keep) == head + (Filter(a[1..], keep) + Filter(b, keep));
      assert Filter(a, keep) == head + Filter(a[1..], keep);
    }
  }

  /** A statement is kept exactly when it is in `p` and satisfies `keep`. */
  lemma {:induction false} FilterMembership(p: Program, keep: Statement -> bool, s: Statement)
    ensures s in Filter(p, keep) <==> s in p && keep(s)
  {
    if p != [] {
      FilterMembership(p[1..], keep, s);
      assert p == [p[0]] + p[1..];
    }
  }
}
