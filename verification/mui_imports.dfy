/** The Material-UI import splitter of src/imports.ts: every import from one
    of four library roots is replaced by one import per specifier from a
    per-symbol sub-path, in the style chosen by the `Props` naming rule. */
module MuiImports {
  import opened Ast
  import Strings

  /** The library roots, in the order the transformer visits them. */
  const MaterialUiLibs: seq<string> :=
    ["@material-ui/core", "@material-ui/icons", "@material-ui/lab", "@material-ui/pickers"]

  const PropsMarker: string := "Props"

  /** Why the transform throws: reading `local.name` of a specifier without
      a local, or `imported.name` of a default or namespace specifier. */
  datatype SplitError =
    | LocalNameMissing(specifier: Specifier)
    | ImportedNameMissing(specifier: Specifier)

  /** The find pattern for one library: an import whose source is the string
      literal `lib`. */
  predicate ImportsFrom(s: Statement, lib: string) {
    s.ImportDeclaration? && s.source == StringLiteral(lib)
  }

  /** The same, for any library of `libs`. */
  predicate ImportsFromAny(s: Statement, libs: seq<string>) {
    s.ImportDeclaration? && s.source.StringLiteral? && s.source.value in libs
  }

  /** A specifier the split can read: a named one with a local name. */
  predicate Splittable(spec: Specifier) {
    spec.ImportSpecifier? && spec.local.Some?
  }

  predicate AllSplittable(specs: seq<Specifier>) {
    forall k :: 0 <= k < |specs| ==> Splittable(specs[k])
  }

  /** A statement on which a scan over `libs` throws. */
  predicate Unsplittable(s: Statement, libs: seq<string>) {
    ImportsFromAny(s, libs) && !AllSplittable(s.specifiers)
  }

  /** The library sub-path named after an imported name (lines 47-55): the
      name with its first `Props` deleted when it has one, the name itself
      otherwise. */
  function Subpath(imported: string): string {
    if Strings.Contains(imported, PropsMarker)
    then Strings.ReplaceFirst(imported, PropsMarker, "")
    else imported
  }

  /** The replacement for one specifier (lines 25-77). */
  function SubpathImport(lib: string, spec: Specifier): (r: Result<Statement, SplitError>)
    ensures r.Success? <==> Splittable(spec)
    ensures r.Success? ==> r.value.ImportDeclaration? && |r.value.specifiers| == 1
    ensures r.Success? ==> BoundName(r.value.specifiers[0]) == spec.local
    ensures r.Success? ==> r.value.source.Literal?
    ensures r.Success? ==> Strings.StartsWith(r.value.source.value, lib + "/")
  {
    if spec.local.None? then Failure(LocalNameMissing(spec))
    else if !spec.ImportSpecifier? then Failure(ImportedNameMissing(spec))
    else
      var local := spec.local.value;
      var source := Literal(lib + "/" + Subpath(spec.imported));
      assert source.value[..|lib + "/"|] == lib + "/";
      if Strings.Contains(spec.imported, PropsMarker) then
        Success(ImportDeclaration([ImportSpecifier(local, None)], source))
      else
        Success(ImportDeclaration([ImportDefaultSpecifier(Some(local))], source))
  }

  /** The replacement for one import's specifier list, in order, stopping
      at the first specifier that throws. */
  function SplitSpecifiers(lib: string, specs: seq<Specifier>): (r: Result<seq<Statement>, SplitError>)
    ensures r.Failure? <==> !AllSplittable(specs)
    ensures r.Success? ==> |r.value| == |specs|
    ensures r.Success? ==> forall k :: 0 <= k < |specs| ==> SubpathImport(lib, specs[k]) == Success(r.value[k])
  {
    if specs == [] then Success([])
    else
      var head := SubpathImport(lib, specs[0]);
      var tail := SplitSpecifiers(lib, specs[1..]);
      assert forall k :: 1 <= k < |specs| ==> specs[k] == specs[1..][k - 1];
      if head.Failure? then Failure(head.error)
      else if tail.Failure? then Failure(tail.error)
      else Success([head.value] + tail.value)
  }

  /** `a` then `b`, failing with the first failure. */
  function Append(a: Result<Program, SplitError>, b: Result<Program, SplitError>): Result<Program, SplitError> {
    match a
    case Failure(e) => Failure(e)
    case Success(x) =>
      match b
      case Failure(e) => Failure(e)
      case Success(y) => Success(x + y)
  }

  /** One library pass (lines 17-79): every import from `lib` is replaced
      by its per-specifier imports, everything else is kept. */
  function SplitLibrary(lib: string, p: Program): (r: Result<Program, SplitError>)
    ensures r.Failure? <==> exists i :: 0 <= i < |p| && Unsplittable(p[i], [lib])
  {
    if p == [] then Success([])
    else
      var head := if ImportsFrom(p[0], lib) then SplitSpecifiers(lib, p[0].specifiers) else Success([p[0]]);
      var r := Append(head, SplitLibrary(lib, p[1..]));
      assert forall i :: 1 <= i < |p| ==> p[i] == p[1..][i - 1];
      assert head.Failure? <==> Unsplittable(p[0], [lib]);
      r
  }

  /** The passes for `libs`, one after the other (the `forEach` at line 15). */
  function SplitAll(libs: seq<string>, p: Program): Result<Program, SplitError> {
    if libs == [] then Success(p)
    else
      match SplitLibrary(libs[0], p)
      case Failure(e) => Failure(e)
      case Success(q) => SplitAll(libs[1..], q)
  }

  /** The whole transformer (lines 10-83, up to printing). */
  function Transform(p: Program): Result<Program, SplitError> {
    SplitAll(MaterialUiLibs, p)
  }

  // ---------------------------------------------------------------------
  // A reference: one scan that splits each import from any of `libs`.

  /** One statement of the scan. */
  function ScanStatement(libs: seq<string>, s: Statement): Result<seq<Statement>, SplitError> {
    if ImportsFromAny(s, libs) then SplitSpecifiers(s.source.value, s.specifiers) else Success([s])
  }

  /** A single left-to-right scan over the program. */
  function OneScan(libs: seq<string>, p: Program): (r: Result<Program, SplitError>)
    ensures r.Failure? <==> exists i :: 0 <= i < |p| && Unsplittable(p[i], libs)
  {
    if p == [] then Success([])
    else
      assert forall i :: 1 <= i < |p| ==> p[i] == p[1..][i - 1];
      Append(ScanStatement(libs, p[0]), OneScan(libs, p[1..]))
  }

  /** Two results agree when both fail, or both succeed with the same
      program (which error is thrown first may differ). */
  predicate Agree(a: Result<Program, SplitError>, b: Result<Program, SplitError>) {
    a.Success? == b.Success? && (a.Success? ==> a.value == b.value)
  }

  /** A scan over a program with nothing to split is the identity. */
  lemma {:induction false} OneScanIdentity(libs: seq<string>, p: Program)
    requires forall i :: 0 <= i < |p| ==> !ImportsFromAny(p[i], libs)
    ensures OneScan(libs, p) == Success(p)
  {
    if p != [] {
      OneScanIdentity(libs, p[1..]);
      assert ScanStatement(libs, p[0]) == Success([p[0]]);
      assert [p[0]] + p[1..] == p;
    }
  }

  /** The scan distributes over concatenation. */
  lemma {:induction false} OneScanAppend(libs: seq<string>, a: Program, b: Program)
    ensures OneScan(libs, a + b) == Append(OneScan(libs, a), OneScan(libs, b))
  {
    if a == [] {
      assert a + b == b;
      match OneScan(libs, b)
      case Failure(_) =>
      case Success(y) => assert [] + y == y;
    } else {
      assert (a + b)[0] == a[0];
      assert (a + b)[1..] == a[1..] + b;
      OneScanAppend(libs, a[1..], b);
      match ScanStatement(libs, a[0])
      case Failure(_) =>
      case Success(h) =>
        match OneScan(libs, a[1..])
        case Failure(_) =>
        case Success(x) =>
          match OneScan(libs, b)
          case Failure(_) =>
          case Success(y) => assert h + (x + y) == (h + x) + y;
    }
  }

  /** One library pass is the scan over that library alone. */
  lemma {:induction false} SplitLibraryIsOneScan(lib: string, p: Program)
    ensures SplitLibrary(lib, p) == OneScan([lib], p)
  {
    if p != [] {
      SplitLibraryIsOneScan(lib, p[1..]);
      assert ImportsFrom(p[0], lib) <==> ImportsFromAny(p[0], [lib]);
    }
  }

  /** Statements made by the split: single-specifier imports with a
      `Literal` source under one of the libraries. */
  predicate Generated(s: Statement, libs: seq<string>) {
    && s.ImportDeclaration?
    && |s.specifiers| == 1
    && s.source.Literal?
    && exists lib :: lib in libs && Strings.StartsWith(s.source.value, lib + "/")
  }

  lemma SplitSpecifiersGenerated(lib: string, libs: seq<string>, specs: seq<Specifier>)
    requires lib in libs && SplitSpecifiers(lib, specs).Success?
    ensures forall k :: 0 <= k < |specs| ==> Generated(SplitSpecifiers(lib, specs).value[k], libs)
  {
  }

  /** A later scan leaves what an earlier pass for `l` made alone: the
      pass for `l` followed by a scan over `ls` is a scan over `[l] + ls`. */
  lemma {:induction false} OneScanCompose(l: string, ls: seq<string>, p: Program)
    requires OneScan([l], p).Success?
    ensures Agree(OneScan(ls, OneScan([l], p).value), OneScan([l] + ls, p))
  {
    if p == [] {
    } else {
      var h := ScanStatement([l], p[0]).value;
      var r := OneScan([l], p[1..]).value;
      assert OneScan([l], p).value == h + r;
      OneScanAppend(ls, h, r);
      OneScanCompose(l, ls, p[1..]);
      if ImportsFromAny(p[0], [l]) {
        SplitSpecifiersGenerated(l, [l], p[0].specifiers);
        OneScanIdentity(ls, h);
        assert ScanStatement([l] + ls, p[0]) == Success(h);
      } else {
        assert h == [p[0]];
        assert OneScan(ls, [p[0]]) == ScanStatement(ls, p[0]) by {
          match ScanStatement(ls, p[0])
          case Failure(_) =>
          case Success(x) => assert x + [] == x;
        }
        assert ImportsFromAny(p[0], [l] + ls) <==> ImportsFromAny(p[0], ls);
      }
    }
  }

  /** The passes over `libs` agree with one scan over `libs`. */
  lemma {:induction false} SplitAllIsOneScan(libs: seq<string>, p: Program)
    ensures Agree(SplitAll(libs, p), OneScan(libs, p))
  {
    if libs == [] {
      OneScanIdentity(libs, p);
    } else {
      var l, ls := libs[0], libs[1..];
      assert libs == [l] + ls;
      SplitLibraryIsOneScan(l, p);
      match OneScan([l], p)
      case Failure(_) =>
        var i :| 0 <= i < |p| && Unsplittable(p[i], [l]);
        assert Unsplittable(p[i], libs);
      case Success(q) =>
        SplitAllIsOneScan(ls, q);
        OneScanCompose(l, ls, p);
    }
  }

  /** The four library passes behave as a single scan: the output of one
      pass is never split again by a later one. */
  lemma TransformIsOneScan(p: Program)
    ensures Agree(Transform(p), OneScan(MaterialUiLibs, p))
    ensures Transform(p).Failure? <==> exists i :: 0 <= i < |p| && Unsplittable(p[i], MaterialUiLibs)
  {
    SplitAllIsOneScan(MaterialUiLibs, p);
  }

  // ---------------------------------------------------------------------
  // Properties of the scan, and so of the transform.

  /** No library root is another root followed by a slash. */
  lemma NoLibraryExtendsAnother()
    ensures forall a, b :: a in MaterialUiLibs && b in MaterialUiLibs ==> !Strings.StartsWith(b, a + "/")
  {
    forall a, b | a in MaterialUiLibs && b in MaterialUiLibs
      ensures !Strings.StartsWith(b, a + "/")
    {
      if |a| + 1 <= |b| {
        assert b[|a|] != '/';
        assert (a + "/")[|a|] == '/';
      }
    }
  }

  /** A generated source starts with a library root and a slash, so it is
      never itself a library root. */
  lemma GeneratedSourceIsNoLibrary(lib: string, v: string)
    requires lib in MaterialUiLibs && Strings.StartsWith(v, lib + "/")
    ensures v !in MaterialUiLibs
  {
    NoLibraryExtendsAnother();
  }

  /** Every statement a scan produces is an untouched statement of the
      input that imports from none of `libs`, or a generated import. */
  lemma {:induction false} OneScanOutput(libs: seq<string>, p: Program)
    requires OneScan(libs, p).Success?
    ensures forall i :: 0 <= i < |OneScan(libs, p).value| ==>
              var s := OneScan(libs, p).value[i];
              (s in p && !ImportsFromAny(s, libs)) || Generated(s, libs)
  {
    if p != [] {
      OneScanOutput(libs, p[1..]);
      var h := ScanStatement(libs, p[0]).value;
      var r := OneScan(libs, p[1..]).value;
      var q := OneScan(libs, p).value;
      assert q == h + r;
      if ImportsFromAny(p[0], libs) {
        SplitSpecifiersGenerated(p[0].source.value, libs, p[0].specifiers);
      }
      forall i | 0 <= i < |q|
        ensures (q[i] in p && !ImportsFromAny(q[i], libs)) || Generated(q[i], libs)
      {
        if i >= |h| {
          assert q[i] == r[i - |h|];
          assert r[i - |h|] in p[1..] ==> r[i - |h|] in p;
        }
      }
    }
  }

  /** The imports made for one specifier list bind the same names, in order. */
  lemma {:induction false} SplitSpecifiersBindings(lib: string, specs: seq<Specifier>)
    requires SplitSpecifiers(lib, specs).Success?
    ensures Bindings(SplitSpecifiers(lib, specs).value)
            == seq(|specs|, k requires 0 <= k < |specs| => BoundName(specs[k]))
  {
    var out := SplitSpecifiers(lib, specs).value;
    if specs != [] {
      SplitSpecifiersBindings(lib, specs[1..]);
      assert out == [SubpathImport(lib, specs[0]).value] + SplitSpecifiers(lib, specs[1..]).value;
      assert out[1..] == SplitSpecifiers(lib, specs[1..]).value;
      assert out == [out[0]] + out[1..];
      BindingsAppend([out[0]], out[1..]);
      assert Bindings([out[0]]) == [BoundName(specs[0])];
    }
  }

  /** Symbol conservation: a scan keeps every bound name, in order. */
  lemma {:induction false} OneScanConservesBindings(libs: seq<string>, p: Program)
    requires OneScan(libs, p).Success?
    ensures Bindings(OneScan(libs, p).value) == Bindings(p)
  {
    if p != [] {
      OneScanConservesBindings(libs, p[1..]);
      var h := ScanStatement(libs, p[0]).value;
      var r := OneScan(libs, p[1..]).value;
      BindingsAppend(h, r);
      BindingsAppend([p[0]], p[1..]);
      assert [p[0]] + p[1..] == p;
      if ImportsFromAny(p[0], libs) {
        SplitSpecifiersBindings(p[0].source.value, p[0].specifiers);
      }
    }
  }

  /** Symbol conservation for the transform: the same names are bound, in
      the same order, and so the number of specifiers is unchanged. */
  lemma TransformConservesBindings(p: Program)
    requires Transform(p).Success?
    ensures Bindings(Transform(p).value) == Bindings(p)
  {
    TransformIsOneScan(p);
    OneScanConservesBindings(MaterialUiLibs, p);
  }

  /** Import sources as the parser makes them: string literals. */
  predicate ParsedSources(p: Program) {
    forall i :: 0 <= i < |p| && p[i].ImportDeclaration? ==> p[i].source.StringLiteral?
  }

  predicate NotBuiltImport(s: Statement) {
    !(s.ImportDeclaration? && s.source.Literal?)
  }

  predicate NotFromMaterialUi(s: Statement) {
    !ImportsFromAny(s, MaterialUiLibs)
  }

  /** Everything but the matched imports is kept, unchanged and in order:
      dropping the generated imports from the output leaves exactly the
      input without its Material-UI imports. */
  lemma {:induction false} OneScanKeepsOthers(p: Program)
    requires ParsedSources(p) && OneScan(MaterialUiLibs, p).Success?
    ensures Filter(OneScan(MaterialUiLibs, p).value, NotBuiltImport) == Filter(p, NotFromMaterialUi)
  {
    if p != [] {
      var h := ScanStatement(MaterialUiLibs, p[0]).value;
      var r := OneScan(MaterialUiLibs, p[1..]).value;
      OneScanKeepsOthers(p[1..]);
      FilterConcat(h, r, NotBuiltImport);
      FilterConcat([p[0]], p[1..], NotFromMaterialUi);
      assert [p[0]] + p[1..] == p;
      if ImportsFromAny(p[0], MaterialUiLibs) {
        SplitSpecifiersGenerated(p[0].source.value, MaterialUiLibs, p[0].specifiers);
        NoneKept(h);
      }
    }
  }

  lemma {:induction false} NoneKept(h: Program)
    requires forall k :: 0 <= k < |h| ==> Generated(h[k], MaterialUiLibs)
    ensures Filter(h, NotBuiltImport) == []
  {
    if h != [] {
      NoneKept(h[1..]);
    }
  }

  lemma TransformKeepsOthers(p: Program)
    requires ParsedSources(p) && Transform(p).Success?
    ensures Filter(Transform(p).value, NotBuiltImport) == Filter(p, NotFromMaterialUi)
  {
    TransformIsOneScan(p);
    OneScanKeepsOthers(p);
  }

  // ---------------------------------------------------------------------
  // Re-running the transform on its printed and re-parsed output.

  /** Idempotence across runs: when the input reads back after printing,
      so does the output, since every import the split makes has one
      specifier; and the re-parsed output has nothing left to split, so a
      second run returns it unchanged. */
  lemma TransformIsIdempotent(p: Program)
    requires ParsedSources(p) && Transform(p).Success?
    ensures Reparse(p).Some? ==> Reparse(Transform(p).value).Some?
    ensures var printed := Reparse(Transform(p).value);
            printed.Some? ==> Transform(printed.value) == Success(printed.value)
  {
    TransformIsOneScan(p);
    var q := Transform(p).value;
    OneScanOutput(MaterialUiLibs, p);
    if Reparse(p).Some? {
      OutputReadsBack(p);
    }
    if Reparse(q).Some? {
      var q' := Reparse(q).value;
      forall i | 0 <= i < |q'|
        ensures !ImportsFromAny(q'[i], MaterialUiLibs)
      {
        if q[i].ImportDeclaration? {
          if Generated(q[i], MaterialUiLibs) {
            var lib :| lib in MaterialUiLibs && Strings.StartsWith(q[i].source.value, lib + "/");
            GeneratedSourceIsNoLibrary(lib, q[i].source.value);
          } else {
            var j :| 0 <= j < |p| && p[j] == q[i];
          }
        }
      }
      OneScanIdentity(MaterialUiLibs, q');
      TransformIsOneScan(q');
    }
  }

  /** Every statement of the output is a statement of the input or a
      one-specifier import, and the names bound are the input's. */
  lemma OutputReadsBack(p: Program)
    requires Transform(p).Success? && Reparse(p).Some?
    ensures Reparse(Transform(p).value).Some?
  {
    TransformIsOneScan(p);
    var q := Transform(p).value;
    OneScanOutput(MaterialUiLibs, p);
    forall i | 0 <= i < |q|
      ensures Reparsable(q[i])
    {
      if Generated(q[i], MaterialUiLibs) {
        SingleReadsBack(q[i].specifiers[0]);
        assert q[i].specifiers == [q[i].specifiers[0]];
      }
    }
    TransformConservesBindings(p);
  }

  // ---------------------------------------------------------------------
  // The naming rules.

  /** The `Props` rule: a named import of the local name from the library
      sub-path that is the imported name with its first `Props` deleted;
      putting `Props` back at that index gives the imported name again. */
  lemma PropsRule(lib: string, imported: string, local: string)
    requires Strings.Contains(imported, PropsMarker)
    ensures var r := SubpathImport(lib, ImportSpecifier(imported, Some(local)));
            var k := Strings.IndexOf(imported, PropsMarker).value;
            && r.Success?
            && r.value.specifiers == [ImportSpecifier(local, None)]
            && |r.value.source.value| == |lib| + 1 + |imported| - 5
            && var subpath := r.value.source.value[|lib| + 1..];
               && r.value.source.value == lib + "/" + subpath
               && subpath[..k] + PropsMarker + subpath[k..] == imported
               && forall j :: 0 <= j < k ==> !Strings.OccursAt(imported, PropsMarker, j)
  {
    Strings.DeleteFirstRestores(imported, PropsMarker);
    var subpath := Strings.ReplaceFirst(imported, PropsMarker, "");
    assert (lib + "/" + subpath)[|lib| + 1..] == subpath;
  }

  /** The default rule: without `Props` in the imported name, a default
      import of the local name from the library sub-path named exactly as
      the imported name. */
  lemma DefaultRule(lib: string, imported: string, local: string)
    requires !Strings.Contains(imported, PropsMarker)
    ensures var r := SubpathImport(lib, ImportSpecifier(imported, Some(local)));
            && r.Success?
            && r.value.specifiers == [ImportDefaultSpecifier(Some(local))]
            && r.value.source.value[|lib| + 1..] == imported
  {
    assert (lib + "/" + imported)[|lib| + 1..] == imported;
  }

  /** The scan over a one-statement program is the scan of that statement. */
  lemma OneScanSingle(libs: seq<string>, s: Statement)
    ensures OneScan(libs, [s]) == ScanStatement(libs, s)
  {
    assert [s][1..] == [];
    match ScanStatement(libs, s)
    case Failure(e) =>
    case Success(x) => assert x + [] == x;
  }

  /** A named import whose imported name is `pre` + `Props` + `post`, with
      no `P` in `pre`, becomes a named import of the local name from the
      sub-path `pre` + `post`; an alias (`ButtonProps as BP`) keeps only
      the local name. */
  lemma PropsSplit(lib: string, pre: string, post: string, local: string)
    requires 'P' !in pre
    ensures SubpathImport(lib, ImportSpecifier(pre + PropsMarker + post, Some(local)))
            == Success(ImportDeclaration([ImportSpecifier(local, None)], Literal(lib + "/" + (pre + post))))
  {
    var imported := pre + PropsMarker + post;
    Strings.IndexOfAfterPrefix(pre, PropsMarker, post);
    assert imported[..|pre|] == pre;
    assert imported[|pre| + |PropsMarker|..] == post;
    assert Subpath(imported) == imported[..|pre|] + "" + imported[|pre| + |PropsMarker|..];
    assert pre + "" + post == pre + post;
  }

  /** A named import whose imported name has no `P` at all becomes a default
      import of the local name from the sub-path named as the import. */
  lemma DefaultSplit(lib: string, imported: string, local: string)
    requires 'P' !in imported
    ensures SubpathImport(lib, ImportSpecifier(imported, Some(local)))
            == Success(ImportDeclaration([ImportDefaultSpecifier(Some(local))], Literal(lib + "/" + imported)))
  {
    Strings.NoFirstCharNoOccurrence(imported, PropsMarker);
  }

  /** `import { ButtonProps, IconButton } from '@material-ui/core'` becomes
      `import { ButtonProps } from '@material-ui/core/Button'` and
      `import IconButton from '@material-ui/core/IconButton'`; stated for
      any library and any pair of names shaped like these two. */
  lemma SplitExample(lib: string, pre: string, other: string, p: Program)
    requires lib in MaterialUiLibs && 'P' !in pre && 'P' !in other
    requires p == [ImportDeclaration([ImportSpecifier(pre + PropsMarker, Some(pre + PropsMarker)),
                                      ImportSpecifier(other, Some(other))],
                                     StringLiteral(lib))]
    ensures Transform(p)
            == Success([
                 ImportDeclaration([ImportSpecifier(pre + PropsMarker, None)], Literal(lib + "/" + pre)),
                 ImportDeclaration([ImportDefaultSpecifier(Some(other))], Literal(lib + "/" + other))])
  {
    var a := ImportDeclaration([ImportSpecifier(pre + PropsMarker, None)], Literal(lib + "/" + pre));
    var b := ImportDeclaration([ImportDefaultSpecifier(Some(other))], Literal(lib + "/" + other));
    assert pre + PropsMarker + "" == pre + PropsMarker;
    assert pre + "" == pre;
    PropsSplit(lib, pre, "", pre + PropsMarker);
    DefaultSplit(lib, other, other);
    assert SplitSpecifiers(lib, p[0].specifiers).value == [a, b];
    assert ScanStatement(MaterialUiLibs, p[0]) == Success([a, b]);
    OneScanSingle(MaterialUiLibs, p[0]);
    TransformIsOneScan(p);
  }

  /** A side-effect import from a library root is removed. */
  lemma SideEffectExample()
    ensures Transform([ImportDeclaration([], StringLiteral("@material-ui/icons"))]) == Success([])
  {
    var p := [ImportDeclaration([], StringLiteral("@material-ui/icons"))];
    assert "@material-ui/icons" in MaterialUiLibs;
    assert ScanStatement(MaterialUiLibs, p[0]) == Success([]);
    TransformIsOneScan(p);
    assert OneScan(MaterialUiLibs, p) == Success([]);
  }
}
