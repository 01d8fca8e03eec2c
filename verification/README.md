# mui-imports-codemod, modelled in Dafny

The repository holds two jscodeshift codemods for React/TypeScript code that
uses Material-UI:

- **The FC normaliser** (`src/fc.ts`). It looks at arrow-function declarators
  and function declarations whose first parameter is an object pattern typed
  `SomethingProps`. It rewrites each one to
  `const Name: FC<SomethingProps> = (pattern, ...rest) => body`. If anything
  was rewritten, it then makes `FC` importable from `'react'`.
- **The Material-UI import splitter** (`src/imports.ts`). It takes every
  import from one of the four library roots (`@material-ui/core`, `icons`,
  `lab`, `pickers`) and replaces it with one import per specifier from a
  per-symbol sub-path. A name containing `Props` stays a named import from
  the sub-path with that `Props` deleted. Any other name becomes a default
  import.

The model replaces jscodeshift's tree with a small algebraic AST (`ast.dfy`).
A file is a flat sequence of top-level statements. Function bodies, object
pattern contents and types that are never inspected are `Opaque` leaves.
Each transformer is a pure function from a program to a `Result`. The
`Failure` side models the exceptions the JavaScript throws on inputs it
cannot read.

| file | module | models |
|---|---|---|
| `ast.dfy` | `Ast` | node types, `Option`/`Result`, the names imports bind, filtering, and printing and parsing again (`Unbraced`, `Braced`, `ReadsBack`, `NoNameBoundTwice`, `Reparse`) |
| `strings.dfy` | `Strings` | `endsWith`, `includes`, `indexOf`, `replace` with a string pattern |
| `fc_rewrite.dfy` | `FcRewrite` | eligibility, the canonical declarator, the arrow and function phases, their inverses |
| `react_import.dfy` | `ReactImport` | the `'react'` import repair |
| `fc.dfy` | `Fc` | the whole FC normaliser, with the `fileWasModified` gate |
| `mui_imports.dfy` | `MuiImports` | the whole import splitter, and a one-scan reference for it |

Three builder facts shape the model:

- `j.importSpecifier(j.identifier('X'))` leaves `local` empty. The model
  writes it as `ImportSpecifier("X", None)`, and the binding is then named
  by `imported`.
- `j.literal(..)` makes a `Literal` source node. The parser makes
  `StringLiteral`, and both find patterns ask for `StringLiteral`. So the
  imports a run builds are never matched again within that run.
- `j.identifier.from({name: undefined, ..})` throws. So a selected arrow
  declarator whose id is a destructuring pattern makes the normaliser throw
  (`FcError`). A specifier without `local`, or without `imported` (a
  default or namespace specifier), makes the splitter throw (`SplitError`).

## Behaviour worth knowing

- The repair patches **every** `'react'` import that lacks a local `FC`.
- When every `'react'` import already binds `FC`, the repair inserts a
  second `import { FC } from 'react'` after the first import. Into a file
  that has no import declaration it inserts nothing. Run on its own twice,
  the repair therefore keeps adding imports. On its own output tree the
  whole normaliser is idempotent, because that output has nothing left to
  rewrite and the repair only runs when something was rewritten. Whether
  there is a second run at all depends on the output parsing again (next
  bullets).
- A second run of the normaliser finds nothing to rewrite because the
  rewrite removes the type annotation from parameter 0.
- A default or namespace specifier in an import from a library root makes
  the splitter throw. An import from a library root with no specifiers at
  all is removed.
- A selected arrow declarator whose id is not an identifier makes the
  normaliser throw.
- The printer puts default and namespace specifiers before the braces. A
  patched `import * as React from 'react'` therefore prints as
  `import * as React, { FC } from 'react'`, which is no import syntax: the
  normaliser's output for such a file does not parse again. The other
  patched imports (`import React from 'react'`, `import { useState } from
  'react'`) print as valid imports.
- The repair can bind `FC` twice, and the parser rejects a second import of
  the same name. This happens when two `'react'` imports are patched. It
  also happens when `FC` was already imported: for example
  `import { FC } from 'react'` gets a second `import { FC } from 'react'`
  inserted after it, and `import { FC } from 'preact'` next to a patched
  `'react'` import clashes as well.
- `export default function ({ bar }: BarProps) {..}` is the one
  declaration that fails the `!funcName` guard. For it the function phase
  hands the path object back to `replaceWith` instead of a node, so the
  tree then holds something the printer does not expect. The model's
  top-level statements cannot express an exported declaration, so this
  case is outside it.

## Model

| member | source | states |
|---|---|---|
| `Strings.IndexOf` | src/imports.ts:47 | the index found is an occurrence of the pattern and no earlier index is; none is found exactly when the pattern occurs nowhere |
| `Strings.ContainsIffOccurs` | src/imports.ts:47 | `includes` holds exactly when the pattern occurs at some index |
| `Strings.DeleteFirstRestores` | src/imports.ts:54 | `replace('Props', '')` removes exactly one occurrence, the first: the result is `|pat|` shorter and putting `pat` back at the found index gives the input |
| `FcRewrite.CanonicalDeclarator` | src/fc.ts:64-81 | the built declarator keeps the name; its annotation is `FC<T>` with exactly one type argument, which is parameter 0's original props type; the arrow has the same number of parameters, parameter 0 without its annotation, the rest identical, same body and `expression`, no type parameters; the result is not selectable again |
| `FcRewrite.RewriteDeclarators` | src/fc.ts:14-83 | the arrow phase on a declaration throws exactly when a selected declarator has a pattern id; otherwise it rewrites declarator by declarator, and its flag is set exactly when one was selected |
| `FcRewrite.ArrowStatement` | src/fc.ts:14-83 | one statement of the arrow phase: throws exactly when a declarator would, otherwise the per-declarator rewrite with the selected-flag |
| `FcRewrite.ArrowPhase` | src/fc.ts:14-83 | over the program: throws exactly when some statement would; otherwise the same length, statement by statement, with the flag set exactly when some declarator was selected |
| `FcRewrite.FunctionPhase` | src/fc.ts:91-152 | the same length, statement by statement, with the flag set exactly when some function declaration is eligible and has a non-empty name |
| `FcRewrite.ArrowRewriteChangesOnlySelected` | src/fc.ts:14-43 | a declarator that does not throw is changed exactly when it is an arrow whose parameter 0 is an object pattern typed with a name ending in `Props` and which has no type parameters |
| `FcRewrite.FunctionRewriteChangesOnlyRewritable` | src/fc.ts:108-127 | a statement is changed exactly when it is an eligible function declaration with a non-empty name |
| `FcRewrite.RestoreInvertsArrowRewrite` | src/fc.ts:46-83 | the arrow rewrite loses nothing but the declarator's own annotation: reading the result back gives the original declarator |
| `FcRewrite.RestoreInvertsFunctionRewrite` | src/fc.ts:118-152 | the function rewrite loses nothing: reading the `const` back gives the original declaration |
| `FcRewrite.PhasesAreFinal` | src/fc.ts:75 | after both phases a statement has no selected declarator and is no rewritable function declaration |
| `ReactImport.PatchReactImports` | src/fc.ts:163-182 | every import is patched on its own and `foundReactImport` is set exactly when some `'react'` import lacks a local `FC` |
| `ReactImport.PatchPrependsFcOnce` | src/fc.ts:170-181 | a patched import keeps its source and specifiers in order behind a new leading `FC`; with parser-made specifiers `FC` is then bound exactly once; an import that binds a local `FC` is untouched |
| `ReactImport.FirstImport` | src/fc.ts:185-186 | the index found is an import declaration with none before it; none is found exactly when the file has no import declaration |
| `ReactImport.InsertionIsUndoable` | src/fc.ts:185-192 | the insertion adds exactly one statement right after the first import; removing it gives the input back, and the first import stays first |
| `ReactImport.RepairSkipsFilesWithoutImports` | src/fc.ts:184-193 | a file without import declarations comes out of the repair unchanged |
| `ReactImport.RepairMakesFcAvailable` | src/fc.ts:159-194 | after the repair some `'react'` import binds `FC` exactly when the file had an import declaration |
| `ReactImport.RepairLeavesNoReactImportWithoutFc` | src/fc.ts:163-182 | after the repair every `'react'` import binds `FC` |
| `ReactImport.RepairDuplicatesBoundReactImport` | src/fc.ts:184-193 | when every `'react'` import already binds `FC`, the repair still adds one more import from `'react'`, so there are at least two |
| `ReactImport.RepairWithoutPatch` | src/fc.ts:184-193 | when no `'react'` import needs `FC`, the repair is exactly the insertion of `import { FC } from 'react'` after the first import |
| `ReactImport.RepairWithPatch` | src/fc.ts:184 | when some `'react'` import needs `FC`, the repair is exactly the patching and nothing is inserted: the length stays the same |
| `ReactImport.RepairInsertsIff` | src/fc.ts:159-194 | the repair adds at most one statement, and adds one exactly when the file has an import declaration and no `'react'` import needs `FC` |
| `ReactImport.RepairKeepsNonImports` | src/fc.ts:159-194 | the statements that are not imports come out unchanged and in order |
| `Fc.Rewrite` | src/fc.ts:7-152 | both phases throw exactly when some selected declarator has a pattern id; the flag is set exactly when something was rewritten; every statement goes through both phases on its own |
| `Fc.Transform` | src/fc.ts:3-196 | the normaliser throws exactly when some selected arrow declarator has a pattern id |
| `Fc.UnselectedUnchanged` | src/fc.ts:14-43 | a statement neither phase selects comes out unchanged |
| `Fc.TransformGatesRepair` | src/fc.ts:159 | with nothing to rewrite the file comes back unchanged, imports included; otherwise the repair runs on the rewritten statements |
| `Fc.FinalIsFixedPoint` | src/fc.ts:159 | a file with nothing to rewrite is a fixed point |
| `Fc.TransformOutputIsFinal` | src/fc.ts:14-152 | the output of a run has nothing either phase would rewrite |
| `Fc.TransformIsIdempotent` | src/fc.ts:3-196 | running the normaliser on its own output changes nothing |
| `Fc.TransformIsIdempotentAfterReparse` | src/fc.ts:3-196 | when the printed output parses again, the second run returns the re-read file unchanged |
| `Fc.ReparseOfOutput` | src/fc.ts:159-196 | for an input that parses again, the printed output fails to parse exactly when something was rewritten and either some `'react'` import lacking `FC` has a namespace specifier, or two or more imports get patched, or `FC` was already imported |
| `Fc.BoundFcExample` | src/fc.ts:184-196 | `import { FC } from 'react'; const Foo = ({bar}: BarProps) => null` parses again and runs without a throw, but the inserted second `import { FC }` makes its output fail to parse again, for any names of that shape |
| `Fc.NamespaceExample` | src/fc.ts:172-196 | `import * as React from 'react'; const Foo = ({bar}: BarProps) => null` parses again and runs without a throw, but its output does not parse again, for any names of that shape |
| `ReactImport.PatchReparsableIff` | src/fc.ts:175-180 | prepending `FC` to an import whose specifier clause is import syntax keeps it so exactly when it is not a `'react'` import lacking `FC` that has a namespace specifier |
| `ReactImport.RepairKeepsGrammar` | src/fc.ts:159-194 | on a file whose imports are all import syntax, the repaired imports are too exactly when no patched `'react'` import has a namespace specifier |
| `ReactImport.NeedsFcCount` | src/fc.ts:163-170 | the number of imports the repair patches is positive exactly when some `'react'` import lacks a local `FC` |
| `ReactImport.PatchBindings` | src/fc.ts:172-182 | patching adds one binding of `FC` per patched import and changes no other name's count |
| `ReactImport.InsertBindings` | src/fc.ts:185-192 | the insertion adds exactly the names the inserted import binds |
| `ReactImport.RepairNamesIff` | src/fc.ts:159-194 | on a file that imports no name twice, the repaired file imports no name twice exactly when at most one import is patched and `FC` was not imported already |
| `ReactImport.RepairReadsBack` | src/fc.ts:159-194 | on a file that parses again, the repaired file parses again exactly when no patched import has a namespace specifier, at most one import is patched, and `FC` was not imported already |
| `Fc.ArrowExample` | src/fc.ts:46-182 | `import React from 'react'; const Foo = ({bar}: BarProps) => null` becomes an import from `'react'` with the specifiers `FC` then `React` (printed `import React, { FC } from 'react'`; printing is not modelled), followed by `const Foo: FC<BarProps> = ({bar}) => null`, for any names of that shape |
| `Fc.FunctionExample` | src/fc.ts:118-193 | `function Foo({bar}: BarProps) {..}` in a file without imports becomes the canonical `const` and no import is added |
| `MuiImports.SubpathImport` | src/imports.ts:25-77 | one specifier is split exactly when it is named and has a local name; the result has one specifier binding that local name, from a source that starts with `lib/` |
| `MuiImports.SplitSpecifiers` | src/imports.ts:24-79 | an import with n readable specifiers becomes n imports in specifier order, the k-th being the split of the k-th specifier; it throws exactly when some specifier is unreadable |
| `MuiImports.SplitLibrary` | src/imports.ts:17-22 | one library pass throws exactly when some import from that library has an unreadable specifier |
| `MuiImports.OneScan` | src/imports.ts:15-79 | the one-scan reference throws exactly when some import from any library root has an unreadable specifier |
| `MuiImports.SplitLibraryIsOneScan` | src/imports.ts:17-22 | one library pass is the one-scan reference for that single library |
| `MuiImports.OneScanCompose` | src/imports.ts:15 | a later pass for other libraries after a pass for `l` agrees with one scan over `l` and those libraries |
| `MuiImports.SplitAllIsOneScan` | src/imports.ts:15-22 | the library passes over any list of roots, one after another, agree with one scan over those roots |
| `MuiImports.TransformIsOneScan` | src/imports.ts:15-22 | the four passes in turn agree with a single scan that splits each import from any root, because generated imports are never matched again; the transform throws exactly when some matched import has an unreadable specifier |
| `MuiImports.GeneratedSourceIsNoLibrary` | src/imports.ts:3-8 | a source that starts with a library root and `/` is no library root |
| `MuiImports.OneScanOutput` | src/imports.ts:24-79 | every output statement is either an input statement that is not from a root, or a generated one-specifier import from a root's sub-path |
| `MuiImports.TransformConservesBindings` | src/imports.ts:24-27 | the sequence of names the imports bind is the same before and after |
| `MuiImports.TransformKeepsOthers` | src/imports.ts:17-22 | leaving out the generated imports, the output is exactly the input without its imports from the roots |
| `MuiImports.OutputReadsBack` | src/imports.ts:24-79 | when the input parses again after printing, so does the output: every generated import has one specifier and the names bound are the input's |
| `MuiImports.TransformIsIdempotent` | src/imports.ts:15-22 | when the input parses again after printing, so does the output; after printing and parsing again, the output has nothing left to split, so a second run returns it unchanged |
| `MuiImports.PropsRule` | src/imports.ts:47-55 | a name containing `Props` gives a named import of the local name from `lib/` plus the name with its first `Props` deleted, 5 characters shorter, and putting `Props` back there gives the name |
| `MuiImports.DefaultRule` | src/imports.ts:68-76 | any other name gives a default import of the local name from `lib/` plus the name itself |
| `MuiImports.PropsSplit` | src/imports.ts:47-55 | for a name `pre + Props + post` with no `P` in `pre`, the result imports the local name from `lib/pre+post`; an alias keeps only the local name |
| `MuiImports.DefaultSplit` | src/imports.ts:68-76 | a name with no `P` gives a default import from `lib/name` |
| `MuiImports.SplitExample` | src/imports.ts:15-79 | `import { ButtonProps, IconButton } from '@material-ui/core'` becomes `import { ButtonProps } from '@material-ui/core/Button'` and `import IconButton from '@material-ui/core/IconButton'`, for any names of that shape |
| `MuiImports.SideEffectExample` | src/imports.ts:24-25 | an import with no specifiers from a library root is removed |
| `MuiImports.Transform` | src/imports.ts:10-83 | no contract; described by `MuiImports.TransformIsOneScan`, `MuiImports.TransformConservesBindings`, `MuiImports.TransformKeepsOthers` and `MuiImports.TransformIsIdempotent` |
| `MuiImports.SplitAll` | src/imports.ts:15 | no contract; described by `MuiImports.SplitAllIsOneScan` |
| `MuiImports.Subpath` | src/imports.ts:47-55 | no contract; described by `MuiImports.PropsRule` and `MuiImports.DefaultRule` |
| `Strings.ReplaceFirst` | src/imports.ts:54 | no contract; described by `Strings.DeleteFirstRestores` |
| `FcRewrite.RewriteDeclarator` | src/fc.ts:46-83 | no contract; described by `FcRewrite.ArrowRewriteChangesOnlySelected`, `FcRewrite.CanonicalDeclarator` and `FcRewrite.RestoreInvertsArrowRewrite` |
| `FcRewrite.RewriteFunction` | src/fc.ts:118-152 | no contract; described by `FcRewrite.FunctionRewriteChangesOnlyRewritable` and `FcRewrite.RestoreInvertsFunctionRewrite` |
| `ReactImport.PatchImport` | src/fc.ts:172-182 | no contract; described by `ReactImport.PatchPrependsFcOnce` |
| `ReactImport.InsertAfterFirstImport` | src/fc.ts:185-192 | no contract; described by `ReactImport.InsertionIsUndoable` |
| `FcRewrite.HasPropsParam` | src/fc.ts:14-32 | no contract; described by `FcRewrite.ArrowRewriteChangesOnlySelected` and `FcRewrite.FunctionRewriteChangesOnlyRewritable` |
| `FcRewrite.Eligible` | src/fc.ts:35-43 | no contract; described by `FcRewrite.ArrowRewriteChangesOnlySelected` and `FcRewrite.FunctionRewriteChangesOnlyRewritable` |
| `FcRewrite.RewriteStatementArrows` | src/fc.ts:14-83 | no contract; described by `FcRewrite.ArrowStatement` and `FcRewrite.RewriteDeclarators` |
| `FcRewrite.FunctionRewritable` | src/fc.ts:91-127 | no contract; described by `FcRewrite.FunctionRewriteChangesOnlyRewritable` and `FcRewrite.FunctionPhase` |
| `ReactImport.NeedsFc` | src/fc.ts:163-170 | no contract; described by `ReactImport.PatchReactImports` and `ReactImport.PatchPrependsFcOnce` |
| `MuiImports.ImportsFrom` | src/imports.ts:17-22 | no contract; described by `MuiImports.SplitLibrary` and `MuiImports.SplitLibraryIsOneScan` |
| `MuiImports.Splittable` | src/imports.ts:27-32 | no contract; described by `MuiImports.SubpathImport` |
| `Strings.EndsWith` | src/fc.ts:42 | no contract; described by `FcRewrite.ArrowRewriteChangesOnlySelected` |
| `Strings.Contains` | src/imports.ts:47 | no contract; described by `Strings.ContainsIffOccurs` |
| `Ast.Reparse` | src/fc.ts:196 | no contract; described by `ReactImport.PatchReparsableIff`, `ReactImport.RepairReadsBack`, `Fc.ReparseOfOutput` and `MuiImports.OutputReadsBack` |
| `ReactImport.RepairImports` | src/fc.ts:159-194 | no contract; described by `ReactImport.RepairInsertsIff`, `ReactImport.RepairMakesFcAvailable`, `ReactImport.RepairLeavesNoReactImportWithoutFc` and `ReactImport.RepairKeepsNonImports` |

## Left out

- Parsing, jscodeshift's `find`/`filter`/`replaceWith` traversal, and
  `toSource` printing are a foreign library. The find patterns and filters
  are stated directly as predicates over the AST. Printing is not modelled.
- Traversal into nested scopes is not modelled. Arrows inside function
  bodies, and declarations wrapped in `export`, are inside `Opaque` leaves
  and are carried through unchanged.
- The node fields `async`, `generator` and `returnType`, which the rewrite
  drops, are not represented. The declarator's own id annotation is
  represented and is dropped by the rewrite; `RestoreInvertsArrowRewrite`
  says it is the one thing lost.
- The declaration kind of a rewritten arrow declarator is kept as it was
  (`let` and `var` included), and only top-level `const`/`let`/`var`
  statements are modelled.
- `importKind` (`import type`) and string-literal imported names
  (`import { "a" as b }`) are not represented.
- `Fc.TransformIsIdempotentAfterReparse`: promises a fixed point only when
  the printed output parses again. A patched namespace import from
  `'react'`, or a second binding of `FC`, does not parse again
  (`Fc.ReparseOfOutput`), and for such a file there is no second run to
  speak of.
- `Fc.ReparseOfOutput`: only names bound by imports are checked for
  clashes. A top-level declaration named `FC` next to the added `FC`
  import would also be rejected by the parser, and the model does not
  track the names other declarations bind.
- `MuiImports.TransformIsIdempotent` and `Fc.TransformIsIdempotentAfterReparse`:
  stated on `Ast.Reparse`, a model of printing and parsing again that
  touches import nodes only. It puts default and namespace specifiers
  before the named ones, turns a `Literal` source into a `StringLiteral`
  and fills in an empty `local` from `imported`. It fails only on a
  specifier clause the import grammar rejects and on a name imported
  twice. The printer itself, and
  syntax errors anywhere else, are not modelled.
- `MuiImports.TransformIsOneScan`: when both throw, they may throw for
  different specifiers, because the passes visit the libraries in a fixed
  order. The agreement is stated on success and failure, not on which
  error comes first.
- The jest fixture tests in `src/__tests__` are not part of this model.
