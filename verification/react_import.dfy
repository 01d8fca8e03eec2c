/** The third phase of the FC normaliser (src/fc.ts lines 159-194): once
    something was rewritten, make `FC` importable from 'react'. */
module ReactImport {
  import opened Ast

  const ReactModule: string := "react"
  const FcName: string := "FC"

  /** The find pattern: an import whose source is the string literal 'react'. */
  predicate IsReactImport(s: Statement) {
    s.ImportDeclaration? && s.source == StringLiteral(ReactModule)
  }

  /** The filter: some specifier has the local name `FC`. */
  predicate BindsLocalFc(specs: seq<Specifier>) {
    exists k :: 0 <= k < |specs| && specs[k].local == Some(FcName)
  }

  /** A 'react' import the repair patches. */
  predicate NeedsFc(s: Statement) {
    IsReactImport(s) && !BindsLocalFc(s.specifiers)
  }

  /** The number of imports the repair patches. */
  function NeedsFcCount(p: Program): (n: nat)
    ensures n > 0 <==> exists i :: 0 <= i < |p| && NeedsFc(p[i])
  {
    if p == [] then 0
    else
      assert forall i :: 1 <= i < |p| ==> p[i] == p[1..][i - 1];
      (if NeedsFc(p[0]) then 1 else 0) + NeedsFcCount(p[1..])
  }

  /** Some import the repair patches has a namespace specifier. */
  predicate PatchesNamespace(p: Program) {
    exists i :: 0 <= i < |p| && NeedsFc(p[i]) && HasNamespace(p[i].specifiers)
  }

  /** `import { FC }` as the builder makes it: no local, so the binding is
      named by `imported`. */
  const FcSpecifier: Specifier := ImportSpecifier(FcName, None)

  /** The standalone `import { FC } from 'react'` that the repair inserts. */
  const FcImport: Statement := ImportDeclaration([FcSpecifier], Literal(ReactModule))

  /** The specifier list binds the name `FC` in the importing module. */
  predicate BindsFc(specs: seq<Specifier>) {
    exists k :: 0 <= k < |specs| && BoundName(specs[k]) == Some(FcName)
  }

  /** Some import from 'react' (however its source node was made) binds `FC`. */
  predicate FcAvailable(p: Program) {
    exists i :: 0 <= i < |p| && p[i].ImportDeclaration? && p[i].source.value == ReactModule
                && BindsFc(p[i].specifiers)
  }

  predicate IsNonImport(s: Statement) {
    !s.ImportDeclaration?
  }

  /** An import whose source text is 'react'. */
  predicate ImportsReact(s: Statement) {
    s.ImportDeclaration? && s.source.value == ReactModule
  }

  /** Every specifier carries a local name, as the parser produces them. */
  predicate AllLocalsPresent(specs: seq<Specifier>) {
    forall k :: 0 <= k < |specs| ==> specs[k].local.Some?
  }

  /** The number of specifiers that bind `name`. */
  function BindingCount(specs: seq<Specifier>, name: string): nat {
    if specs == [] then 0
    else (if BoundName(specs[0]) == Some(name) then 1 else 0) + BindingCount(specs[1..], name)
  }

  /** One import after the replacement at lines 172-182: a 'react' import
      lacking a local `FC` gets `FC` prepended; any other statement is left
      as it is. */
  function PatchImport(s: Statement): Statement {
    if NeedsFc(s) then s.(specifiers := [FcSpecifier] + s.specifiers) else s
  }

  /** Lines 163-182 over the whole program: every 'react' import lacking a
      local `FC` is patched, and `foundReactImport` says whether any was. */
  function PatchReactImports(p: Program): (r: (Program, bool))
    ensures |r.0| == |p|
    ensures forall i :: 0 <= i < |p| ==> r.0[i] == PatchImport(p[i])
    ensures r.1 <==> exists i :: 0 <= i < |p| && NeedsFc(p[i])
  {
    if p == [] then ([], false)
    else
      var (rest, found) := PatchReactImports(p[1..]);
      assert forall i :: 1 <= i < |p| ==> p[i] == p[1..][i - 1];
      ([PatchImport(p[0])] + rest, NeedsFc(p[0]) || found)
  }

  /** The index of the first import declaration, if there is one. */
  function FirstImport(p: Program): (r: Option<nat>)
    ensures r.Some? ==> r.value < |p| && p[r.value].ImportDeclaration?
    ensures r.Some? ==> forall j :: 0 <= j < r.value ==> !p[j].ImportDeclaration?
    ensures r.None? ==> forall j :: 0 <= j < |p| ==> !p[j].ImportDeclaration?
  {
    if p == [] then None
    else if p[0].ImportDeclaration? then Some(0)
    else
      match FirstImport(p[1..])
      case None => None
      case Some(k) => Some(k + 1)
  }

  /** Lines 185-192: `s` goes right after the first import declaration; with
      no import declaration, nothing is inserted. */
  function InsertAfterFirstImport(p: Program, s: Statement): Program {
    match FirstImport(p)
    case None => p
    case Some(k) => p[..k + 1] + [s] + p[k + 1..]
  }

  /** The whole repair (lines 159-194, run when the file was modified). */
  function RepairImports(p: Program): Program {
    var (patched, found) := PatchReactImports(p);
    if found then patched else InsertAfterFirstImport(patched, FcImport)
  }

  /** A patched import keeps its source and its specifiers in order behind
      the new `FC`, and when its specifiers came from the parser, `FC` is
      bound exactly once afterwards. An import that already binds a local
      `FC`, or that is not from 'react', is left alone. */
  lemma PatchPrependsFcOnce(s: Statement)
    ensures !NeedsFc(s) ==> PatchImport(s) == s
    ensures NeedsFc(s) ==>
              && PatchImport(s).ImportDeclaration?
              && PatchImport(s).source == s.source
              && |PatchImport(s).specifiers| == |s.specifiers| + 1
              && PatchImport(s).specifiers[0] == FcSpecifier
              && PatchImport(s).specifiers[1..] == s.specifiers
    ensures NeedsFc(s) && AllLocalsPresent(s.specifiers) ==>
              BindingCount(PatchImport(s).specifiers, FcName) == 1
  {
    if NeedsFc(s) && AllLocalsPresent(s.specifiers) {
      NoLocalFcMeansUnbound(s.specifiers);
      assert ([FcSpecifier] + s.specifiers)[1..] == s.specifiers;
    }
  }

  lemma {:induction false} NoLocalFcMeansUnbound(specs: seq<Specifier>)
    requires AllLocalsPresent(specs) && !BindsLocalFc(specs)
    ensures BindingCount(specs, FcName) == 0
  {
    if specs != [] {
      assert specs[0].local.Some? && specs[0].local != Some(FcName);
      assert !BindsLocalFc(specs[1..]) by {
        forall k | 0 <= k < |specs[1..]|
          ensures specs[1..][k].local != Some(FcName)
        {
          assert specs[1..][k] == specs[k + 1];
        }
      }
      NoLocalFcMeansUnbound(specs[1..]);
    }
  }

  /** The insertion is a pure insertion: taking the new statement out again
      gives the original program back, and the first import stays first. */
  lemma InsertionIsUndoable(p: Program, s: Statement)
    ensures FirstImport(p).None? ==> InsertAfterFirstImport(p, s) == p
    ensures FirstImport(p).Some? ==>
              var k := FirstImport(p).value;
              var r := InsertAfterFirstImport(p, s);
              && |r| == |p| + 1
              && r[k + 1] == s
              && r[..k + 1] + r[k + 2..] == p
              && FirstImport(r) == Some(k)
  {
    if FirstImport(p).Some? {
      var k := FirstImport(p).value;
      var r := InsertAfterFirstImport(p, s);
      assert r[..k + 1] == p[..k + 1];
      assert r[k + 2..] == p[k + 1..];
      assert p[..k + 1] + p[k + 1..] == p;
      FirstImportUnique(r, k);
    }
  }

  lemma FirstImportUnique(p: Program, k: nat)
    requires k < |p| && p[k].ImportDeclaration?
    requires forall j :: 0 <= j < k ==> !p[j].ImportDeclaration?
    ensures FirstImport(p) == Some(k)
  {
  }

  /** With no import declaration in the file, the repair does nothing. */
  lemma RepairSkipsFilesWithoutImports(p: Program)
    requires FirstImport(p).None?
    ensures RepairImports(p) == p
  {
    var (patched, found) := PatchReactImports(p);
    assert patched == p;
  }

  /** After the repair some import from 'react' binds `FC` exactly when the
      file had an import declaration to begin with. */
  lemma RepairMakesFcAvailable(p: Program)
    ensures FcAvailable(RepairImports(p)) <==> FirstImport(p).Some?
  {
    var (patched, found) := PatchReactImports(p);
    var r := RepairImports(p);
    if found {
      var i :| 0 <= i < |p| && NeedsFc(p[i]);
      assert BoundName(r[i].specifiers[0]) == Some(FcName);
      assert FcAvailable(r);
      assert p[i].ImportDeclaration?;
    } else {
      assert patched == p;
      match FirstImport(p)
      case None =>
        assert r == p;
      case Some(k) =>
        InsertionIsUndoable(p, FcImport);
        assert BoundName(r[k + 1].specifiers[0]) == Some(FcName);
        assert FcAvailable(r);
    }
  }

  /** After the repair every 'react' import binds `FC`: patched ones bind
      it through the new specifier, the rest already had a local `FC`. */
  lemma RepairLeavesNoReactImportWithoutFc(p: Program)
    ensures forall i :: 0 <= i < |RepairImports(p)| && IsReactImport(RepairImports(p)[i]) ==>
              BindsFc(RepairImports(p)[i].specifiers)
  {
    var (patched, found) := PatchReactImports(p);
    var r := RepairImports(p);
    forall i | 0 <= i < |patched| && IsReactImport(patched[i])
      ensures BindsFc(patched[i].specifiers)
    {
      if NeedsFc(p[i]) {
        assert BoundName(patched[i].specifiers[0]) == Some(FcName);
      } else {
        var k :| 0 <= k < |p[i].specifiers| && p[i].specifiers[k].local == Some(FcName);
        assert BoundName(patched[i].specifiers[k]) == Some(FcName);
      }
    }
    if !found {
      InsertionIsUndoable(patched, FcImport);
      match FirstImport(patched)
      case None =>
      case Some(k) =>
        forall i | 0 <= i < |r| && IsReactImport(r[i])
          ensures BindsFc(r[i].specifiers)
        {
          if i <= k {
            assert r[i] == patched[i];
          } else if i > k + 1 {
            assert r[i] == patched[i - 1];
          }
        }
    }
  }

  /** When nothing is patched, the repair is the insertion of `FcImport`. */
  lemma RepairWithoutPatch(p: Program)
    requires forall i :: 0 <= i < |p| ==> !NeedsFc(p[i])
    ensures RepairImports(p) == InsertAfterFirstImport(p, FcImport)
  {
    var r := PatchReactImports(p);
    assert r.0 == p;
  }

  /** When some 'react' import was patched, nothing is inserted: the
      repair is the patch alone and the file keeps its length. */
  lemma RepairWithPatch(p: Program)
    requires exists i :: 0 <= i < |p| && NeedsFc(p[i])
    ensures RepairImports(p) == PatchReactImports(p).0 && |RepairImports(p)| == |p|
  {
    var (patched, found) := PatchReactImports(p);
    assert found;
  }

  /** The repair adds exactly one statement when nothing was patched and the
      file has an import declaration, and otherwise none. */
  lemma RepairInsertsIff(p: Program)
    ensures |RepairImports(p)| == |p| || |RepairImports(p)| == |p| + 1
    ensures |RepairImports(p)| == |p| + 1 <==>
              FirstImport(p).Some? && forall i :: 0 <= i < |p| ==> !NeedsFc(p[i])
  {
    if exists i :: 0 <= i < |p| && NeedsFc(p[i]) {
      RepairWithPatch(p);
    } else {
      RepairWithoutPatch(p);
      InsertionIsUndoable(p, FcImport);
    }
  }

  /** Filtering a program with one statement inserted. */
  lemma FilterInsert(a: Program, x: Statement, b: Program, keep: Statement -> bool)
    ensures Filter(a + [x] + b, keep) == Filter(a, keep) + Filter([x], keep) + Filter(b, keep)
  {
    FilterConcat(a + [x], b, keep);
    FilterConcat(a, [x], keep);
  }

  /** Filtering a program cut in two is filtering both halves. */
  lemma FilterSplit(p: Program, k: nat, keep: Statement -> bool)
    requires k <= |p|
    ensures Filter(p, keep) == Filter(p[..k], keep) + Filter(p[k..], keep)
  {
    CutAndJoin(p, k);
    FilterConcat(p[..k], p[k..], keep);
  }

  lemma CutAndJoin(p: Program, k: nat)
    requires k <= |p|
    ensures p[..k] + p[k..] == p
  {
  }

  /** Filtering after the insertion keeps what filtering before kept, plus
      the inserted statement at its place if it is kept. */
  lemma FilterAfterInsertion(p: Program, x: Statement, keep: Statement -> bool)
    requires FirstImport(p).Some?
    ensures var k := FirstImport(p).value;
            Filter(InsertAfterFirstImport(p, x), keep)
            == Filter(p[..k + 1], keep) + Filter([x], keep) + Filter(p[k + 1..], keep)
    ensures var k := FirstImport(p).value;
            Filter(p, keep) == Filter(p[..k + 1], keep) + Filter(p[k + 1..], keep)
  {
    var k := FirstImport(p).value;
    var a, b := p[..k + 1], p[k + 1..];
    assert InsertAfterFirstImport(p, x) == a + [x] + b;
    FilterInsert(a, x, b, keep);
    FilterSplit(p, k + 1, keep);
  }

  /** When every 'react' import already binds a local `FC` the repair still
      inserts a fresh `import { FC } from 'react'`, so the file ends up with
      one more import from 'react'. */
  lemma RepairDuplicatesBoundReactImport(p: Program)
    requires exists i :: 0 <= i < |p| && IsReactImport(p[i])
    requires forall i :: 0 <= i < |p| ==> !NeedsFc(p[i])
    ensures |Filter(RepairImports(p), ImportsReact)| == |Filter(p, ImportsReact)| + 1
    ensures |Filter(RepairImports(p), ImportsReact)| >= 2
  {
    RepairWithoutPatch(p);
    var i :| 0 <= i < |p| && IsReactImport(p[i]);
    assert FirstImport(p).Some?;
    FilterAfterInsertion(p, FcImport, ImportsReact);
    assert Filter([FcImport], ImportsReact) == [FcImport];
    FilterMembership(p, ImportsReact, p[i]);
  }

  /** The repair changes import declarations only: the other statements
      come out unchanged and in the same order. */
  lemma RepairKeepsNonImports(p: Program)
    ensures Filter(RepairImports(p), IsNonImport) == Filter(p, IsNonImport)
  {
    var patched := PatchReactImports(p).0;
    PatchKeepsNonImports(p, patched);
    if !PatchReactImports(p).1 {
      RepairWithoutPatch(p);
      assert patched == p;
      match FirstImport(p)
      case None =>
      case Some(k) =>
        FilterAfterInsertion(p, FcImport, IsNonImport);
        assert Filter([FcImport], IsNonImport) == [];
    }
  }

  lemma {:induction false} PatchKeepsNonImports(p: Program, q: Program)
    requires |q| == |p| && forall i :: 0 <= i < |p| ==> q[i] == PatchImport(p[i])
    ensures Filter(q, IsNonImport) == Filter(p, IsNonImport)
  {
    if p != [] {
      PatchKeepsNonImports(p[1..], q[1..]);
    }
  }

  // ---------------------------------------------------------------------
  // Printing the repaired imports.

  /** Prepending the named `FC` keeps an import readable after printing
      exactly when the import has no namespace specifier: the printer puts
      `* as React` before the braces, and `* as React, { FC }` is no import
      syntax. */
  lemma PatchReparsableIff(s: Statement)
    requires Reparsable(s)
    ensures Reparsable(PatchImport(s)) <==> !(NeedsFc(s) && HasNamespace(s.specifiers))
  {
    if NeedsFc(s) {
      PrependNamedReadsBack(FcSpecifier, s.specifiers);
    }
  }

  /** A named specifier put in front of a list that reads back: it lands in
      the braces, which cannot follow a namespace binding. */
  lemma PrependNamedReadsBack(x: Specifier, specs: seq<Specifier>)
    requires x.ImportSpecifier? && ReadsBack(specs)
    ensures ReadsBack([x] + specs) <==> !HasNamespace(specs)
  {
    var t := [x] + specs;
    assert t[1..] == specs;
    var u := Unbraced(specs);
    assert Unbraced(t) == u;
    assert Braced(t) == [x] + Braced(specs);
    if HasNamespace(specs) {
      var k :| 0 <= k < |specs| && specs[k].ImportNamespaceSpecifier?;
      UnbracedMembership(specs, specs[k]);
      assert specs[k] in u;
      if |u| == 1 {
        assert u[0] == specs[k];
      }
      assert !ReadsBack(t);
    } else {
      if u != [] {
        UnbracedMembership(specs, u[0]);
        assert u[0].ImportDefaultSpecifier?;
      }
      if |u| == 2 {
        UnbracedMembership(specs, u[1]);
        assert false;
      }
      assert ReadsBack(t);
    }
  }

  /** The inserted `import { FC } from 'react'` reads back. */
  lemma FcImportReparsable()
    ensures Reparsable(FcImport)
  {
    assert Unbraced([FcSpecifier]) == [] + Unbraced([]);
  }

  /** When every statement reads back, the repaired statements read back
      exactly when no 'react' import it patches has a namespace specifier. */
  lemma RepairKeepsGrammar(q: Program)
    requires forall i :: 0 <= i < |q| ==> Reparsable(q[i])
    ensures var r := RepairImports(q);
            (forall j :: 0 <= j < |r| ==> Reparsable(r[j])) <==>
            !exists i :: 0 <= i < |q| && NeedsFc(q[i]) && HasNamespace(q[i].specifiers)
  {
    if exists i :: 0 <= i < |q| && NeedsFc(q[i]) {
      RepairWithPatch(q);
      var patched := PatchReactImports(q).0;
      forall i | 0 <= i < |q|
        ensures Reparsable(patched[i]) <==> !(NeedsFc(q[i]) && HasNamespace(q[i].specifiers))
      {
        PatchReparsableIff(q[i]);
      }
    } else {
      RepairWithoutPatch(q);
      FcImportReparsable();
      InsertionReadsBack(q, FcImport);
    }
  }

  lemma InsertionReadsBack(q: Program, s: Statement)
    requires forall i :: 0 <= i < |q| ==> Reparsable(q[i])
    requires Reparsable(s)
    ensures var r := InsertAfterFirstImport(q, s);
            forall j :: 0 <= j < |r| ==> Reparsable(r[j])
  {
    match FirstImport(q)
    case None =>
    case Some(k) =>
      var r := q[..k + 1] + [s] + q[k + 1..];
      forall j | 0 <= j < |r|
        ensures Reparsable(r[j])
      {
        if j <= k {
          assert r[j] == q[j];
        } else if j > k + 1 {
          assert r[j] == q[j - 1];
        }
      }
  }

  // ---------------------------------------------------------------------
  // The names the repaired imports bind.

  /** A patched import binds `FC` in front of the names it bound before. */
  lemma PatchImportBindings(s: Statement)
    ensures Bindings([PatchImport(s)]) == (if NeedsFc(s) then [Some(FcName)] else []) + Bindings([s])
  {
    assert [PatchImport(s)][1..] == [] && [s][1..] == [];
    if NeedsFc(s) {
      var t := [FcSpecifier] + s.specifiers;
      assert seq(|t|, k requires 0 <= k < |t| => BoundName(t[k]))
             == [Some(FcName)] + seq(|s.specifiers|, k requires 0 <= k < |s.specifiers| => BoundName(s.specifiers[k]));
    }
  }

  /** Patching adds one binding of `FC` per patched import and nothing else. */
  lemma {:induction false} PatchBindings(p: Program, b: Option<string>)
    ensures multiset(Bindings(PatchReactImports(p).0))[b]
            == multiset(Bindings(p))[b] + (if b == Some(FcName) then NeedsFcCount(p) else 0)
  {
    if p != [] {
      PatchBindings(p[1..], b);
      PatchBindingsStep(p);
      var added: seq<Option<string>> := if NeedsFc(p[0]) then [Some(FcName)] else [];
      assert multiset(added)[b] == (if b == Some(FcName) && NeedsFc(p[0]) then 1 else 0);
    }
  }

  /** Patching the first statement and the rest separately. */
  lemma PatchBindingsStep(p: Program)
    requires p != []
    ensures Bindings(PatchReactImports(p).0)
            == (if NeedsFc(p[0]) then [Some(FcName)] else []) + Bindings([p[0]])
               + Bindings(PatchReactImports(p[1..]).0)
    ensures Bindings(p) == Bindings([p[0]]) + Bindings(p[1..])
  {
    var rest := PatchReactImports(p[1..]).0;
    assert PatchReactImports(p).0 == [PatchImport(p[0])] + rest;
    BindingsAppend([PatchImport(p[0])], rest);
    PatchImportBindings(p[0]);
    BindingsAppend([p[0]], p[1..]);
    assert [p[0]] + p[1..] == p;
  }

  /** The insertion adds the inserted statement's bindings and nothing else. */
  lemma InsertBindings(p: Program, x: Statement, b: Option<string>)
    requires FirstImport(p).Some?
    ensures multiset(Bindings(InsertAfterFirstImport(p, x)))[b]
            == multiset(Bindings(p))[b] + multiset(Bindings([x]))[b]
  {
    var k := FirstImport(p).value;
    var a, c := p[..k + 1], p[k + 1..];
    BindingsAppend(a + [x], c);
    BindingsAppend(a, [x]);
    CutAndJoin(p, k + 1);
    BindingsAppend(a, c);
  }

  /** A file without imports binds no names. */
  lemma {:induction false} NoImportsNoBindings(p: Program)
    requires FirstImport(p).None?
    ensures Bindings(p) == []
  {
    if p != [] {
      assert FirstImport(p[1..]).None?;
      NoImportsNoBindings(p[1..]);
    }
  }

  /** Two files with the same imports at the same places bind the same
      names and need the same number of patches. */
  lemma {:induction false} SameImports(p: Program, q: Program)
    requires |p| == |q|
    requires forall i :: 0 <= i < |p| && (p[i].ImportDeclaration? || q[i].ImportDeclaration?) ==> p[i] == q[i]
    ensures Bindings(p) == Bindings(q) && NeedsFcCount(p) == NeedsFcCount(q)
  {
    if p != [] {
      SameImports(p[1..], q[1..]);
    }
  }

  /** Adding `n > 0` copies of one name to a list of names none of which
      occurs twice keeps it so exactly when `n` is one and the name was not
      there. */
  lemma AddedNames(before: seq<Option<string>>, after: seq<Option<string>>, name: Option<string>, n: nat)
    requires name.Some? && n > 0
    requires forall b :: multiset(after)[b] == multiset(before)[b] + (if b == name then n else 0)
    requires forall x :: x in before && x.Some? ==> multiset(before)[x] <= 1
    ensures (forall x :: x in after && x.Some? ==> multiset(after)[x] <= 1) <==> n <= 1 && name !in before
  {
    assert multiset(after)[name] == multiset(before)[name] + n;
    if n <= 1 && name !in before {
      forall x | x in after && x.Some?
        ensures multiset(after)[x] <= 1
      {
        assert multiset(after)[x] == multiset(before)[x] + (if x == name then n else 0);
      }
    }
  }

  /** For a file that imports no name twice, the repaired file imports no
      name twice exactly when at most one import is patched and `FC` was
      not imported already. */
  lemma RepairNamesIff(q: Program)
    requires NoNameBoundTwice(q)
    ensures NoNameBoundTwice(RepairImports(q)) <==> NeedsFcCount(q) <= 1 && Some(FcName) !in Bindings(q)
  {
    var out := RepairImports(q);
    var fc := Some(FcName);
    if NeedsFcCount(q) > 0 {
      RepairWithPatch(q);
      forall b {
        PatchBindings(q, b);
      }
      AddedNames(Bindings(q), Bindings(out), fc, NeedsFcCount(q));
    } else {
      RepairWithoutPatch(q);
      if FirstImport(q).None? {
        NoImportsNoBindings(q);
      } else {
        assert Bindings([FcImport]) == [fc];
        forall b {
          InsertBindings(q, FcImport, b);
        }
        AddedNames(Bindings(q), Bindings(out), fc, 1);
      }
    }
  }

  /** For a file that reads back, the repaired file reads back exactly when
      no patched import has a namespace specifier, at most one import is
      patched, and `FC` was not imported already. */
  lemma RepairReadsBack(q: Program)
    requires Reparse(q).Some?
    ensures Reparse(RepairImports(q)).Some? <==>
              !PatchesNamespace(q) && NeedsFcCount(q) <= 1 && Some(FcName) !in Bindings(q)
  {
    RepairKeepsGrammar(q);
    RepairNamesIff(q);
  }
}
