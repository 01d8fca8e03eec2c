/** The first two phases of the FC normaliser (src/fc.ts): arrow-function
    declarators and function declarations whose first parameter is an object
    pattern typed `SomethingProps` are rewritten to
    `const Name: FC<SomethingProps> = (pattern, ...rest) => body`. */
module FcRewrite {
  import opened Ast
  import Strings

  const PropsSuffix: string := "Props"
  const WrapperName: string := "FC"

  /** Why the transform throws: the builder for the new identifier is given
      the `name` of a declarator id that is a destructuring pattern, which has
      none. */
  datatype FcError = DeclaratorIdNotIdentifier(declarator: VariableDeclarator)

  /** The find pattern shared by both phases: parameter 0 exists and is an
      object pattern annotated with a reference to a plain identifier. Later
      parameters are not constrained. */
  predicate HasPropsParam(params: seq<Param>) {
    && |params| > 0
    && params[0].ObjectPattern?
    && params[0].typeAnnotation.Some?
    && params[0].typeAnnotation.value.TSTypeAnnotation?
    && params[0].typeAnnotation.value.typeAnnotation.TSTypeReference?
    && params[0].typeAnnotation.value.typeAnnotation.typeName.Identifier?
  }

  /** The props type reference found on parameter 0. */
  function PropsType(params: seq<Param>): TSType
    requires HasPropsParam(params)
  {
    params[0].typeAnnotation.value.typeAnnotation
  }

  /** The filter shared by both phases: the props type's name ends in
      `Props` and the function declares no type parameters of its own. */
  predicate Eligible(params: seq<Param>, typeParameters: Option<Opaque>) {
    && HasPropsParam(params)
    && Strings.EndsWith(PropsType(params).typeName.name, PropsSuffix)
    && typeParameters.None?
  }

  /** A declarator the arrow phase finds and keeps. */
  predicate ArrowSelected(d: VariableDeclarator) {
    && d.init.Some?
    && d.init.value.ArrowFunctionExpression?
    && Eligible(d.init.value.params, d.init.value.typeParameters)
  }

  /** A selected declarator whose rewrite throws. */
  predicate Crashes(d: VariableDeclarator) {
    ArrowSelected(d) && d.id.PatternTarget?
  }

  /** A function declaration the function phase finds and keeps. */
  predicate FunctionSelected(s: Statement) {
    s.FunctionDeclaration? && Eligible(s.params, s.typeParameters)
  }

  /** A selected function declaration that is actually replaced. One
      without a (non-empty) name fails the `!funcName` guard; the program
      then hands the path object itself back to `replaceWith`. Only
      `export default function`, which is not a top-level statement of this
      model, can reach that branch, and the model leaves such a declaration
      as it is. */
  predicate FunctionRewritable(s: Statement) {
    FunctionSelected(s) && s.id.Some? && s.id.value != ""
  }

  /** `FC<propsType>`. */
  function FcType(propsType: TSType): TSType {
    TSTypeReference(Identifier(WrapperName), Some([propsType]))
  }

  /** The canonical form both phases build:
      `name: FC<Props> = (pattern, ...params[1..]) => body`, where the
      pattern is parameter 0 with its type annotation removed. */
  function CanonicalDeclarator(name: string, params: seq<Param>, body: Opaque, expression: bool)
    : (d: VariableDeclarator)
    requires HasPropsParam(params)
    ensures d.id.IdentifierTarget? && d.id.name == name
    ensures d.id.typeAnnotation.Some? && d.id.typeAnnotation.value.TSTypeAnnotation?
    ensures d.id.typeAnnotation.value.typeAnnotation.TSTypeReference?
    ensures d.id.typeAnnotation.value.typeAnnotation.typeName == Identifier(WrapperName)
    ensures d.id.typeAnnotation.value.typeAnnotation.typeParameters.Some?
    ensures |d.id.typeAnnotation.value.typeAnnotation.typeParameters.value| == 1
    ensures params[0].typeAnnotation
            == Some(TSTypeAnnotation(d.id.typeAnnotation.value.typeAnnotation.typeParameters.value[0]))
    ensures d.init.Some? && d.init.value.ArrowFunctionExpression?
    ensures |d.init.value.params| == |params|
    ensures d.init.value.params[0] == params[0].(typeAnnotation := None)
    ensures forall i :: 1 <= i < |params| ==> d.init.value.params[i] == params[i]
    ensures d.init.value.body == body && d.init.value.expression == expression
    ensures d.init.value.typeParameters.None?
    ensures !ArrowSelected(d)
  {
    VariableDeclarator(
      IdentifierTarget(name, Some(TSTypeAnnotation(FcType(PropsType(params))))),
      Some(ArrowFunctionExpression([params[0].(typeAnnotation := None)] + params[1..],
                                   body, expression, None)))
  }

  /** The arrow phase on one declarator (lines 46-83). A declarator that is
      not selected, or whose rewrite would throw, is returned as it is; the
      throw itself is reported by `RewriteDeclarators`. */
  function RewriteDeclarator(d: VariableDeclarator): VariableDeclarator {
    if ArrowSelected(d) && d.id.IdentifierTarget? then
      CanonicalDeclarator(d.id.name, d.init.value.params, d.init.value.body, d.init.value.expression)
    else d
  }

  /** The arrow phase on one statement: every declarator of a variable
      declaration, keeping the declaration's kind. */
  function RewriteStatementArrows(s: Statement): Statement {
    if s.VariableDeclaration? then
      s.(declarations := seq(|s.declarations|, j requires 0 <= j < |s.declarations| =>
                               RewriteDeclarator(s.declarations[j])))
    else s
  }

  predicate StatementCrashes(s: Statement) {
    s.VariableDeclaration? && exists j :: 0 <= j < |s.declarations| && Crashes(s.declarations[j])
  }

  predicate StatementHasSelected(s: Statement) {
    s.VariableDeclaration? && exists j :: 0 <= j < |s.declarations| && ArrowSelected(s.declarations[j])
  }

  /** The arrow phase over the declarators of one declaration, in order,
      threading the "was modified" flag and stopping at the first throw. */
  function RewriteDeclarators(ds: seq<VariableDeclarator>): (r: Result<(seq<VariableDeclarator>, bool), FcError>)
    ensures r.Failure? <==> exists j :: 0 <= j < |ds| && Crashes(ds[j])
    ensures r.Success? ==> |r.value.0| == |ds|
    ensures r.Success? ==> forall j :: 0 <= j < |ds| ==> r.value.0[j] == RewriteDeclarator(ds[j])
    ensures r.Success? ==> (r.value.1 <==> exists j :: 0 <= j < |ds| && ArrowSelected(ds[j]))
  {
    if ds == [] then Success(([], false))
    else if Crashes(ds[0]) then Failure(DeclaratorIdNotIdentifier(ds[0]))
    else
      var tail := RewriteDeclarators(ds[1..]);
      assert forall j :: 1 <= j < |ds| ==> ds[j] == ds[1..][j - 1];
      if tail.Failure? then Failure(tail.error)
      else Success(([RewriteDeclarator(ds[0])] + tail.value.0, ArrowSelected(ds[0]) || tail.value.1))
  }

  /** The arrow phase on one statement, with its flag and its throw. */
  function ArrowStatement(s: Statement): (r: Result<(Statement, bool), FcError>)
    ensures r.Failure? <==> StatementCrashes(s)
    ensures r.Success? ==> r.value.0 == RewriteStatementArrows(s)
    ensures r.Success? ==> (r.value.1 <==> StatementHasSelected(s))
  {
    if s.VariableDeclaration? then
      var ds := RewriteDeclarators(s.declarations);
      if ds.Failure? then Failure(ds.error)
      else
        assert s.(declarations := ds.value.0) == RewriteStatementArrows(s);
        Success((s.(declarations := ds.value.0), ds.value.1))
    else Success((s, false))
  }

  /** The arrow phase over the whole program (lines 14-83): every selected
      declarator is rewritten, every other statement and declarator is left
      as it is, and the flag says whether anything was rewritten. */
  function ArrowPhase(p: Program): (r: Result<(Program, bool), FcError>)
    ensures r.Failure? <==> exists i :: 0 <= i < |p| && StatementCrashes(p[i])
    ensures r.Success? ==> |r.value.0| == |p|
    ensures r.Success? ==> forall i :: 0 <= i < |p| ==> r.value.0[i] == RewriteStatementArrows(p[i])
    ensures r.Success? ==> (r.value.1 <==> exists i :: 0 <= i < |p| && StatementHasSelected(p[i]))
  {
    if p == [] then Success(([], false))
    else
      var head := ArrowStatement(p[0]);
      var tail := ArrowPhase(p[1..]);
      assert forall i :: 1 <= i < |p| ==> p[i] == p[1..][i - 1];
      if head.Failure? then Failure(head.error)
      else if tail.Failure? then Failure(tail.error)
      else Success(([head.value.0] + tail.value.0, head.value.1 || tail.value.1))
  }

  /** The function phase on one statement (lines 118-152): a rewritable
      declaration becomes a `const` declaration with one canonical
      declarator; everything else is left as it is, which for a selected
      declaration without a name is the model's choice (see
      `FunctionRewritable`). */
  function RewriteFunction(s: Statement): Statement {
    if FunctionRewritable(s) then
      VariableDeclaration(Const, [CanonicalDeclarator(s.id.value, s.params, s.body, s.expression)])
    else s
  }

  /** The function phase over the whole program (lines 91-152), threading the
      "was modified" flag. */
  function FunctionPhase(p: Program): (r: (Program, bool))
    ensures |r.0| == |p|
    ensures forall i :: 0 <= i < |p| ==> r.0[i] == RewriteFunction(p[i])
    ensures r.1 <==> exists i :: 0 <= i < |p| && FunctionRewritable(p[i])
  {
    if p == [] then ([], false)
    else
      var (rest, modified) := FunctionPhase(p[1..]);
      assert forall i :: 1 <= i < |p| ==> p[i] == p[1..][i - 1];
      ([RewriteFunction(p[0])] + rest, FunctionRewritable(p[0]) || modified)
  }

  /** The arrow phase changes a declarator exactly when it is selected; a
      selected one whose id is a pattern makes the phase throw instead. */
  lemma ArrowRewriteChangesOnlySelected(d: VariableDeclarator)
    requires !Crashes(d)
    ensures RewriteDeclarator(d) != d <==> ArrowSelected(d)
  {
  }

  /** The function phase changes a statement exactly when it is a
      rewritable function declaration. */
  lemma FunctionRewriteChangesOnlyRewritable(s: Statement)
    ensures RewriteFunction(s) != s <==> FunctionRewritable(s)
  {
  }

  /** Reads a canonical declarator back into the declarator it came from:
      the one type argument of `FC<...>` goes back onto parameter 0. */
  function RestoreDeclarator(d: VariableDeclarator): Option<VariableDeclarator> {
    if && d.id.IdentifierTarget?
       && d.id.typeAnnotation.Some?
       && d.id.typeAnnotation.value.TSTypeAnnotation?
       && d.id.typeAnnotation.value.typeAnnotation.TSTypeReference?
       && d.id.typeAnnotation.value.typeAnnotation.typeName == Identifier(WrapperName)
       && d.id.typeAnnotation.value.typeAnnotation.typeParameters.Some?
       && |d.id.typeAnnotation.value.typeAnnotation.typeParameters.value| == 1
       && d.init.Some?
       && d.init.value.ArrowFunctionExpression?
       && |d.init.value.params| > 0
       && d.init.value.params[0].ObjectPattern?
    then
      var propsType := d.id.typeAnnotation.value.typeAnnotation.typeParameters.value[0];
      var params := d.init.value.params;
      Some(VariableDeclarator(
        IdentifierTarget(d.id.name, None),
        Some(d.init.value.(params := [params[0].(typeAnnotation := Some(TSTypeAnnotation(propsType)))]
                                     + params[1..]))))
    else None
  }

  /** Reads a rewritten function back into the declaration it came from. */
  function RestoreFunction(s: Statement): Option<Statement> {
    if s.VariableDeclaration? && s.kind == Const && |s.declarations| == 1 then
      match RestoreDeclarator(s.declarations[0])
      case None => None
      case Some(d) =>
        if d.init.value.ArrowFunctionExpression? then
          Some(FunctionDeclaration(Some(d.id.name), d.init.value.params, d.init.value.body,
                                   d.init.value.expression, None))
        else None
    else None
  }

  /** The arrow rewrite loses nothing but the declarator's own annotation:
      restoring its result gives back the original declarator with the id
      annotation cleared. */
  lemma RestoreInvertsArrowRewrite(d: VariableDeclarator)
    requires ArrowSelected(d) && d.id.IdentifierTarget?
    ensures RestoreDeclarator(RewriteDeclarator(d)) == Some(d.(id := d.id.(typeAnnotation := None)))
  {
    var params := d.init.value.params;
    assert [params[0]] + params[1..] == params;
  }

  /** The function rewrite loses nothing: restoring its result gives back the
      original declaration. */
  lemma RestoreInvertsFunctionRewrite(s: Statement)
    requires FunctionRewritable(s)
    ensures RestoreFunction(RewriteFunction(s)) == Some(s)
  {
    assert [s.params[0]] + s.params[1..] == s.params;
  }

  /** Both phases together leave nothing for a second run to find: the
      result of rewriting a statement has no selected declarator and is no
      rewritable function declaration. */
  lemma PhasesAreFinal(s: Statement)
    requires !StatementCrashes(s)
    ensures var t := RewriteFunction(RewriteStatementArrows(s));
            !StatementHasSelected(t) && !FunctionRewritable(t)
  {
    var a := RewriteStatementArrows(s);
    var t := RewriteFunction(a);
    if s.VariableDeclaration? {
      assert t == a;
      forall j | 0 <= j < |t.declarations|
        ensures !ArrowSelected(t.declarations[j])
      {
        assert !Crashes(s.declarations[j]);
      }
    } else if FunctionRewritable(s) {
      assert !ArrowSelected(t.declarations[0]);
    }
  }
}
