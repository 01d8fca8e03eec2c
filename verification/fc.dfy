/** The FC normaliser of src/fc.ts as one transform: the arrow phase, the
    function phase, and, when either rewrote something, the 'react' import
    repair. The `fileWasModified` flag is threaded as a returned value. */
module Fc {
  import opened Ast
  import opened FcRewrite
  import ReactImport

  /** Some declarator or declaration will be rewritten. */
  predicate AnyRewritable(p: Program) {
    exists i :: 0 <= i < |p| && (StatementHasSelected(p[i]) || FunctionRewritable(p[i]))
  }

  /** Some selected declarator will make the transform throw. */
  predicate AnyCrash(p: Program) {
    exists i :: 0 <= i < |p| && StatementCrashes(p[i])
  }

  /** Nothing is left for either phase to rewrite. */
  predicate Final(p: Program) {
    forall i :: 0 <= i < |p| ==> !StatementHasSelected(p[i]) && !FunctionRewritable(p[i])
  }

  /** The two rewrite phases in source order (lines 14-152). The flag is
      true exactly when some declarator or declaration was rewritten, and
      each statement is rewritten on its own. */
  function Rewrite(p: Program): (r: Result<(Program, bool), FcError>)
    ensures r.Failure? <==> AnyCrash(p)
    ensures r.Success? ==> (r.value.1 <==> AnyRewritable(p))
    ensures r.Success? ==> |r.value.0| == |p|
    ensures r.Success? ==> forall i :: 0 <= i < |p| ==>
              r.value.0[i] == RewriteFunction(RewriteStatementArrows(p[i]))
  {
    match ArrowPhase(p)
    case Failure(e) => Failure(e)
    case Success((arrows, arrowModified)) =>
      var (functions, functionModified) := FunctionPhase(arrows);
      assert forall i :: 0 <= i < |p| ==>
               (FunctionRewritable(arrows[i]) <==> FunctionRewritable(p[i]));
      Success((functions, arrowModified || functionModified))
  }

  /** The whole transformer (lines 3-197, up to printing): the import repair
      runs only when a rewrite happened. */
  function Transform(p: Program): (r: Result<Program, FcError>)
    ensures r.Failure? <==> AnyCrash(p)
  {
    match Rewrite(p)
    case Failure(e) => Failure(e)
    case Success((q, modified)) =>
      Success(if modified then ReactImport.RepairImports(q) else q)
  }

  /** A statement neither phase selects comes out of both unchanged. */
  lemma UnselectedUnchanged(s: Statement)
    requires !StatementHasSelected(s) && !FunctionRewritable(s)
    ensures RewriteFunction(RewriteStatementArrows(s)) == s
  {
    if s.VariableDeclaration? {
      assert RewriteStatementArrows(s).declarations == s.declarations;
    }
  }

  /** The flag gates the repair: a file with nothing to rewrite comes back
      unchanged, imports included; otherwise the repair runs on the
      rewritten statements. */
  lemma TransformGatesRepair(p: Program)
    requires Transform(p).Success?
    ensures !AnyRewritable(p) ==> Transform(p).value == p
    ensures AnyRewritable(p) ==> Transform(p).value == ReactImport.RepairImports(Rewrite(p).value.0)
  {
    if !AnyRewritable(p) {
      var q := Rewrite(p).value.0;
      forall i | 0 <= i < |p|
        ensures q[i] == p[i]
      {
        UnselectedUnchanged(p[i]);
      }
    }
  }

  /** A final program is a fixed point of the transform. */
  lemma FinalIsFixedPoint(p: Program)
    requires Final(p)
    ensures Transform(p) == Success(p)
  {
    TransformGatesRepair(p);
  }

  /** The output of a successful run is final: nothing in it is selected by
      either phase. */
  lemma TransformOutputIsFinal(p: Program)
    requires Transform(p).Success?
    ensures Final(Transform(p).value)
  {
    var r := Rewrite(p).value.0;
    forall i | 0 <= i < |r|
      ensures !StatementHasSelected(r[i]) && !FunctionRewritable(r[i])
    {
      PhasesAreFinal(p[i]);
    }
    if Rewrite(p).value.1 {
      var q := ReactImport.RepairImports(r);
      ReactImport.RepairKeepsNonImports(r);
      forall i | 0 <= i < |q|
        ensures !StatementHasSelected(q[i]) && !FunctionRewritable(q[i])
      {
        if !q[i].ImportDeclaration? {
          FilterMembership(q, ReactImport.IsNonImport, q[i]);
          FilterMembership(r, ReactImport.IsNonImport, q[i]);
          var j :| 0 <= j < |r| && r[j] == q[i];
        }
      }
    }
  }

  /** Idempotence: running the transform on its own output changes nothing. */
  lemma TransformIsIdempotent(p: Program)
    requires Transform(p).Success?
    ensures Transform(Transform(p).value) == Transform(p)
  {
    TransformOutputIsFinal(p);
    FinalIsFixedPoint(Transform(p).value);
  }

  /** Idempotence as a second run sees it: when the printed output reads
      back, printing and parsing again changes only import declarations,
      which neither phase looks at, so the second run returns the re-read
      file unchanged. `ReparseOfOutput` says when the output does not read
      back. */
  lemma TransformIsIdempotentAfterReparse(p: Program)
    requires Transform(p).Success?
    ensures var printed := Reparse(Transform(p).value);
            printed.Some? ==> Transform(printed.value) == Success(printed.value)
  {
    var q := Transform(p).value;
    if Reparse(q).Some? {
      TransformOutputIsFinal(p);
      var q' := Reparse(q).value;
      forall i | 0 <= i < |q'|
        ensures !StatementHasSelected(q'[i]) && !FunctionRewritable(q'[i])
      {
        assert q'[i].ImportDeclaration? || q'[i] == q[i];
      }
      FinalIsFixedPoint(q');
    }
  }

  /** Both phases leave import declarations as they are and make none. */
  lemma RewriteKeepsImports(s: Statement)
    ensures var t := RewriteFunction(RewriteStatementArrows(s));
            && (s.ImportDeclaration? ==> t == s)
            && (t.ImportDeclaration? ==> s.ImportDeclaration?)
  {
    if s.ImportDeclaration? {
      UnselectedUnchanged(s);
    }
  }

  /** For a file that reads back, the printed output of a run fails to read
      back exactly when the repair ran and
      - patched a 'react' import with a namespace specifier:
        `import * as React from 'react'` becomes `* as React` followed by a
        braced `FC`, which is no import syntax; or
      - patched two imports, each of which now binds `FC`; or
      - added a binding of `FC` to a file that already imported `FC`, by
        patching or by inserting a second `import { FC } from 'react'`. */
  lemma ReparseOfOutput(p: Program)
    requires Transform(p).Success? && Reparse(p).Some?
    ensures Reparse(Transform(p).value).None? <==>
              && AnyRewritable(p)
              && (|| ReactImport.PatchesNamespace(p)
                  || ReactImport.NeedsFcCount(p) >= 2
                  || Some(ReactImport.FcName) in Bindings(p))
  {
    TransformGatesRepair(p);
    if AnyRewritable(p) {
      var q := Rewrite(p).value.0;
      RewriteKeepsImportsAll(p);
      ReactImport.RepairReadsBack(q);
    }
  }

  /** The rewritten file has the imports of the input at the same places,
      so it reads back when the input does and needs the same patches. */
  lemma RewriteKeepsImportsAll(p: Program)
    requires Rewrite(p).Success? && Reparse(p).Some?
    ensures var q := Rewrite(p).value.0;
            && Reparse(q).Some?
            && Bindings(q) == Bindings(p)
            && ReactImport.NeedsFcCount(q) == ReactImport.NeedsFcCount(p)
            && (ReactImport.PatchesNamespace(q) <==> ReactImport.PatchesNamespace(p))
  {
    var q := Rewrite(p).value.0;
    forall i | 0 <= i < |p|
      ensures Reparsable(q[i])
      ensures p[i].ImportDeclaration? || q[i].ImportDeclaration? ==> p[i] == q[i]
      ensures ReactImport.NeedsFc(q[i]) && HasNamespace(q[i].specifiers) <==>
              ReactImport.NeedsFc(p[i]) && HasNamespace(p[i].specifiers)
    {
      RewriteKeepsImports(p[i]);
    }
    ReactImport.SameImports(p, q);
  }

  /** `import * as React from 'react'; const Foo = ({bar}: BarProps) => null`
      reads back, is rewritten without a throw, and its output does not read
      back; stated for any names, pattern and body of that shape. */
  lemma NamespaceExample(name: string, propsName: string, pattern: Opaque, body: Opaque,
                         expression: bool, react: string)
    requires Strings.EndsWith(propsName, PropsSuffix) && react != ReactImport.FcName
    ensures
      var props := TSTypeReference(Identifier(propsName), None);
      var imported := ImportDeclaration([ImportNamespaceSpecifier(Some(react))], StringLiteral("react"));
      var before := VariableDeclaration(Const, [VariableDeclarator(
        IdentifierTarget(name, None),
        Some(ArrowFunctionExpression([ObjectPattern(pattern, Some(TSTypeAnnotation(props)))],
                                     body, expression, None)))]);
      var p := [imported, before];
      && Reparse(p).Some?
      && Transform(p).Success?
      && Reparse(Transform(p).value).None?
  {
    var imported := ImportDeclaration([ImportNamespaceSpecifier(Some(react))], StringLiteral("react"));
    var p := ArrowAfterImport(imported, name, propsName, pattern, body, expression);
    NamespaceImport(react);
    ReparseBoth(p);
    assert ReactImport.NeedsFc(p[0]) && HasNamespace(p[0].specifiers);
    ReparseOfOutput(p);
  }

  /** `import { FC } from 'react'; const Foo = ({bar}: BarProps) => null`
      reads back and is rewritten without a throw, but the repair inserts
      a second `import { FC } from 'react'`, and its output does not read
      back; stated for any names, pattern and body of that shape. */
  lemma BoundFcExample(name: string, propsName: string, pattern: Opaque, body: Opaque,
                       expression: bool)
    requires Strings.EndsWith(propsName, PropsSuffix)
    ensures
      var props := TSTypeReference(Identifier(propsName), None);
      var imported := ImportDeclaration([ImportSpecifier("FC", Some("FC"))], StringLiteral("react"));
      var before := VariableDeclaration(Const, [VariableDeclarator(
        IdentifierTarget(name, None),
        Some(ArrowFunctionExpression([ObjectPattern(pattern, Some(TSTypeAnnotation(props)))],
                                     body, expression, None)))]);
      var p := [imported, before];
      && Reparse(p).Some?
      && Transform(p).Success?
      && Reparse(Transform(p).value).None?
  {
    var imported := ImportDeclaration([ImportSpecifier("FC", Some("FC"))], StringLiteral("react"));
    var p := ArrowAfterImport(imported, name, propsName, pattern, body, expression);
    assert [ImportSpecifier("FC", Some("FC"))][1..] == [];
    ReparseBoth(p);
    ReparseOfOutput(p);
  }

  /** A file of one single-specifier import that reads back and one other
      statement reads back, and binds just that specifier's name. */
  lemma ReparseBoth(p: Program)
    requires |p| == 2 && p[0].ImportDeclaration? && |p[0].specifiers| == 1
    requires Reparsable(p[0]) && !p[1].ImportDeclaration?
    ensures Bindings(p) == [BoundName(p[0].specifiers[0])]
    ensures Reparse(p).Some?
  {
    assert p == [p[0]] + [p[1]];
    BindingsAppend([p[0]], [p[1]]);
    assert [p[1]][1..] == [];
    assert Bindings([p[1]]) == [];
    assert [p[0]][1..] == [];
    assert Bindings([p[0]]) == [BoundName(p[0].specifiers[0])];
  }

  /** An import followed by a selected arrow declarator of the examples'
      shape: both phases succeed and rewrite something. */
  lemma ArrowAfterImport(imported: Statement, name: string, propsName: string, pattern: Opaque,
                         body: Opaque, expression: bool) returns (p: Program)
    requires imported.ImportDeclaration? && Strings.EndsWith(propsName, PropsSuffix)
    ensures p == [imported, VariableDeclaration(Const, [VariableDeclarator(
              IdentifierTarget(name, None),
              Some(ArrowFunctionExpression(
                [ObjectPattern(pattern, Some(TSTypeAnnotation(TSTypeReference(Identifier(propsName), None))))],
                body, expression, None)))])]
    ensures Transform(p).Success? && AnyRewritable(p)
  {
    var props := TSTypeReference(Identifier(propsName), None);
    var d := VariableDeclarator(
      IdentifierTarget(name, None),
      Some(ArrowFunctionExpression([ObjectPattern(pattern, Some(TSTypeAnnotation(props)))],
                                   body, expression, None)));
    var d' := VariableDeclarator(
      IdentifierTarget(name, Some(TSTypeAnnotation(TSTypeReference(Identifier("FC"), Some([props]))))),
      Some(ArrowFunctionExpression([ObjectPattern(pattern, None)], body, expression, None)));
    p := [imported, VariableDeclaration(Const, [d])];
    ArrowDeclaratorRewritten(d, d');
    RewriteExample(p, [imported, VariableDeclaration(Const, [d'])]);
  }

  /** `import * as React from 'react'` reads back and needs `FC`. */
  lemma NamespaceImport(react: string)
    requires react != ReactImport.FcName
    ensures var imported := ImportDeclaration([ImportNamespaceSpecifier(Some(react))], StringLiteral("react"));
            Reparsable(imported) && ReactImport.NeedsFc(imported) && HasNamespace(imported.specifiers)
  {
    var specs := [ImportNamespaceSpecifier(Some(react))];
    assert specs[1..] == [];
    assert specs[0].ImportNamespaceSpecifier?;
  }

  /** `import React from 'react'; const Foo = ({bar}: BarProps) => null`
      becomes an import from 'react' whose specifiers are `FC` then `React`
      (printed `import React, { FC } from 'react'`) followed by
      `const Foo: FC<BarProps> = ({bar}) => null`, stated for any names,
      pattern and body of that shape (the default import must not itself
      be named `FC`). */
  lemma ArrowExample(name: string, propsName: string, pattern: Opaque, body: Opaque,
                     expression: bool, react: string)
    requires Strings.EndsWith(propsName, PropsSuffix) && react != ReactImport.FcName
    ensures
      var props := TSTypeReference(Identifier(propsName), None);
      var imported := ImportDeclaration([ImportDefaultSpecifier(Some(react))], StringLiteral("react"));
      var before := VariableDeclaration(Const, [VariableDeclarator(
        IdentifierTarget(name, None),
        Some(ArrowFunctionExpression([ObjectPattern(pattern, Some(TSTypeAnnotation(props)))],
                                     body, expression, None)))]);
      var after := VariableDeclaration(Const, [VariableDeclarator(
        IdentifierTarget(name, Some(TSTypeAnnotation(
          TSTypeReference(Identifier("FC"), Some([props]))))),
        Some(ArrowFunctionExpression([ObjectPattern(pattern, None)], body, expression, None)))]);
      Transform([imported, before]) == Success([
        ImportDeclaration([ImportSpecifier("FC", None), ImportDefaultSpecifier(Some(react))],
                          StringLiteral("react")),
        after])
  {
    var props := TSTypeReference(Identifier(propsName), None);
    var imported := ImportDeclaration([ImportDefaultSpecifier(Some(react))], StringLiteral("react"));
    var d := VariableDeclarator(
      IdentifierTarget(name, None),
      Some(ArrowFunctionExpression([ObjectPattern(pattern, Some(TSTypeAnnotation(props)))],
                                   body, expression, None)));
    var d' := VariableDeclarator(
      IdentifierTarget(name, Some(TSTypeAnnotation(TSTypeReference(Identifier("FC"), Some([props]))))),
      Some(ArrowFunctionExpression([ObjectPattern(pattern, None)], body, expression, None)));
    var p := [imported, VariableDeclaration(Const, [d])];
    ArrowDeclaratorRewritten(d, d');
    var q := [imported, VariableDeclaration(Const, [d'])];
    RewriteExample(p, q);
    PatchDefaultImport(react);
    RepairExample(q);
    TransformAfterRewrite(p, q);
  }

  /** A default import from 'react' under another name than `FC` gets `FC`
      prepended. */
  lemma PatchDefaultImport(react: string)
    requires react != ReactImport.FcName
    ensures var imported := ImportDeclaration([ImportDefaultSpecifier(Some(react))], StringLiteral("react"));
            && ReactImport.NeedsFc(imported)
            && ReactImport.PatchImport(imported)
               == ImportDeclaration([ImportSpecifier("FC", None), ImportDefaultSpecifier(Some(react))],
                                    StringLiteral("react"))
  {
    var imported := ImportDeclaration([ImportDefaultSpecifier(Some(react))], StringLiteral("react"));
    assert !ReactImport.BindsLocalFc(imported.specifiers);
  }

  /** A run that rewrote something is the repair of the rewritten file. */
  lemma TransformAfterRewrite(p: Program, q: Program)
    requires Rewrite(p) == Success((q, true))
    ensures Transform(p) == Success(ReactImport.RepairImports(q))
  {
  }

  /** The repair of an import that needs `FC` followed by a declaration. */
  lemma RepairExample(q: Program)
    requires |q| == 2 && ReactImport.NeedsFc(q[0]) && !q[1].ImportDeclaration?
    ensures ReactImport.RepairImports(q) == [ReactImport.PatchImport(q[0]), q[1]]
  {
    var r := ReactImport.PatchReactImports(q);
    assert r.0 == [ReactImport.PatchImport(q[0]), ReactImport.PatchImport(q[1])];
  }

  /** A selected one-parameter arrow declarator is rewritten to the given
      canonical form. */
  lemma ArrowDeclaratorRewritten(d: VariableDeclarator, d': VariableDeclarator)
    requires d.id.IdentifierTarget? && d.init.Some? && d.init.value.ArrowFunctionExpression?
    requires var e := d.init.value;
             && Eligible(e.params, e.typeParameters) && |e.params| == 1
             && d' == VariableDeclarator(
                  IdentifierTarget(d.id.name, Some(TSTypeAnnotation(FcType(PropsType(e.params))))),
                  Some(e.(params := [e.params[0].(typeAnnotation := None)])))
    ensures ArrowSelected(d) && !Crashes(d) && RewriteDeclarator(d) == d'
  {
    var params := d.init.value.params;
    assert [params[0].(typeAnnotation := None)] + params[1..] == [params[0].(typeAnnotation := None)];
  }

  /** Both phases on an import followed by one selected declarator. */
  lemma RewriteExample(p: Program, q: Program)
    requires |p| == 2 && p[0].ImportDeclaration? && p[1].VariableDeclaration?
    requires |p[1].declarations| == 1 && ArrowSelected(p[1].declarations[0]) && !Crashes(p[1].declarations[0])
    requires q == [p[0], p[1].(declarations := [RewriteDeclarator(p[1].declarations[0])])]
    ensures Rewrite(p) == Success((q, true))
  {
    assert StatementHasSelected(p[1]);
    assert !StatementCrashes(p[1]);
    assert RewriteStatementArrows(p[1]) == q[1];
    assert RewriteFunction(q[1]) == q[1];
    assert RewriteFunction(RewriteStatementArrows(p[0])) == q[0];
    assert AnyRewritable(p);
    var r := Rewrite(p).value.0;
    assert r == [r[0], r[1]];
  }

  /** `function Foo({bar}: BarProps) { return null }` in a file with no
      imports becomes `const Foo: FC<BarProps> = ({bar}) => { return null }`,
      and no import is added; stated for any non-empty name and any props
      type name ending in `Props`. */
  lemma FunctionExample(name: string, propsName: string, pattern: Opaque, body: Opaque, expression: bool)
    requires Strings.EndsWith(propsName, PropsSuffix) && name != ""
    ensures
      var props := TSTypeReference(Identifier(propsName), None);
      var before := FunctionDeclaration(Some(name),
        [ObjectPattern(pattern, Some(TSTypeAnnotation(props)))], body, expression, None);
      var after := VariableDeclaration(Const, [VariableDeclarator(
        IdentifierTarget(name, Some(TSTypeAnnotation(
          TSTypeReference(Identifier("FC"), Some([props]))))),
        Some(ArrowFunctionExpression([ObjectPattern(pattern, None)], body, expression, None)))]);
      Transform([before]) == Success([after])
  {
    var props := TSTypeReference(Identifier(propsName), None);
    var f := FunctionDeclaration(Some(name),
      [ObjectPattern(pattern, Some(TSTypeAnnotation(props)))], body, expression, None);
    var after := VariableDeclaration(Const, [VariableDeclarator(
      IdentifierTarget(name, Some(TSTypeAnnotation(TSTypeReference(Identifier("FC"), Some([props]))))),
      Some(ArrowFunctionExpression([ObjectPattern(pattern, None)], body, expression, None)))]);
    assert FunctionRewritable(f);
    assert [f.params[0].(typeAnnotation := None)] + f.params[1..] == [ObjectPattern(pattern, None)];
    assert RewriteFunction(f) == after;
    assert Rewrite([f]).value.0 == [after];
    TransformGatesRepair([f]);
    ReactImport.RepairSkipsFilesWithoutImports([after]);
  }
}
