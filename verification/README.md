# unused-fixer lint rules, modelled in Dafny

This project models the two rules of the `unused-fixer` Deno lint plugin.

- **`no-unused-imports`.** While the host walks the tree, the rule records each default, named and namespace import specifier under its local name. It also records every identifier that counts as a use. At `Program:exit` it groups the unused specifiers by their import statement. A statement whose specifiers are all unused gets one "Unused import" report, and its fix removes the statement. Otherwise each unused specifier gets its own report, and its fix cuts a source range around that specifier.
- **`no-unused-vars`.** The rule records the names bound by each variable declarator: a plain identifier, the identifier values of object-pattern properties, and the identifier elements of an array pattern. It records identifier uses and simple function parameters. At `Program:exit` it reports each recorded name that is neither used nor a parameter. The fix removes the whole statement, or cuts a range around the declarator.

Both rules appear twice in the repository: in `src/plugin.ts` and in `src/rules/`. The two copies are the same logic except for the import collector. The plugin's collector uses `node.specifiers?.forEach`. The standalone rule returns early when `specifiers` is missing or empty. The model defines both collectors and proves them equal (`UnusedImports.CollectorsAgree`).

## How the system is rendered

- **The walk.** The host's traversal is a sequence of `Ast.Event` values, one per visitor callback. `Walk` folds `Visit` over it.
- **Rule state.** Each rule's state is an immutable datatype. `UnusedImports.State` holds `importedIdentifiers` and `usedIdentifiers`. `UnusedVars.State` holds `declaredVars`, `usedVars` and `functionParams`.
- **Maps.** A JavaScript `Map` is an insertion-ordered association list (`OrderedMap`). `set` on a present key replaces the value in place. `set` on a new key appends it. `Set`s of names are Dafny `set<string>`.
- **Reports.** `Program:exit` returns the reports in the order `context.report` is called. Each report carries the lazy `fix(fixer)` result as an `Edits.Fix` value:
  - `RemoveNode(id)` for `fixer.remove`;
  - `RemoveRange(start, end)` for `fixer.removeRange`;
  - `NoFix` for `undefined`;
  - `Throws` for a fix whose body would raise a `TypeError`.
- **Node identity.** Nodes carry explicit `NodeId`s. Where the code compares objects, the model compares values that include the id:
  - `parent.id !== node` and `parent.value === node` compare ids;
  - the `importGroups` key is the `ImportDecl` value;
  - `indexOf` finds a specifier, or a declarator's `Sibling(id, range)`, by value.

Modules:
- `Wrappers` and `Seqs` hold general helpers.
- `OrderedMap` models the JavaScript `Map`.
- `Ast` holds the tree slice the rules read.
- `Edits` holds reports, messages, fixes and the range-cut rule.
- `UnusedImports` and `UnusedVars` are the two rules.
- `ImportsCases` and `VarsCases` are worked walks taken from the repository's tests.

## Model

| member | source | states |
|---|---|---|
| UnusedImports.SpecifierBindings | src/rules/no-unused-imports.ts:14-22 | A pair is recorded exactly when its specifier is a default, named or namespace specifier of the declaration. The pair is keyed by the specifier's local name. |
| UnusedImports.Collect | src/rules/no-unused-imports.ts:9-12 | A side-effect import records nothing: with `specifiers` missing or empty the state is unchanged. Collecting never touches the used names. |
| UnusedImports.CollectorsAgree | src/plugin.ts:11-21 | The plugin's `?.forEach` collector, which has no early return, produces the same state as the standalone rule's collector on every state and declaration. |
| UnusedImports.BoundBySpecifier | src/rules/no-unused-imports.ts:14-22 | A name gets an entry from a declaration if and only if one of its default, named or namespace specifiers has that local name. |
| UnusedImports.CollectRecords | src/plugin.ts:11-21 | After one declaration, each name it binds maps to the last of its specifiers that binds it. Other names keep their earlier binding. New names join the key order after the old ones, in first-binding order. |
| UnusedImports.UsedIffSomeUse | src/rules/no-unused-imports.ts:25-38 | After a walk, a name is used if and only if it was used before, or some callback reads it. A read is an `Identifier` outside import and export specifiers, or any `JSXIdentifier`. |
| UnusedImports.WalkImported | src/plugin.ts:7-21 | After a walk, each name maps to the last binding the walk made for it. Names are iterated in the order they were first bound. |
| UnusedImports.WalkKeepsInv | src/plugin.ts:11-21 | After any walk, the map holds no name twice. Every entry is keyed by its specifier's local name, and that specifier belongs to the entry's declaration. |
| UnusedImports.UnusedPairs | src/rules/no-unused-imports.ts:44-50 | A (declaration, specifier) pair is selected if and only if some recorded name that is not used maps to it. |
| UnusedImports.CollectGroupsIsGrouping | src/rules/no-unused-imports.ts:42-51 | The grouping loop equals pushing every unused pair, in map order, onto its declaration's list in `importGroups`. |
| UnusedImports.UnusedSpecifiersDistinct | src/rules/no-unused-imports.ts:44-50 | No specifier is pushed twice, since the names are distinct and each name is its specifier's local name. |
| UnusedImports.GroupsAreUnusedBindings | src/rules/no-unused-imports.ts:42-51 | The group keys are the declarations of unused bindings, in first-insertion order. Each group holds exactly that declaration's unused specifiers, in map order. No declaration appears twice. |
| UnusedImports.GroupsAreGood | src/rules/no-unused-imports.ts:42-51 | Every group is non-empty and holds no specifier twice. Each of its specifiers belongs to the declaration, binds an unused name, and is recorded with exactly that binding. |
| UnusedImports.SpecifierFix | src/rules/no-unused-imports.ts:67-88 | A one-specifier statement falls back to removing the statement. Otherwise a non-last specifier is cut up to the next specifier's start, and the last one from the previous specifier's end. When the specifier ranges are ordered, the cut is non-empty, covers the specifier and meets no other specifier's range. |
| UnusedImports.SpecifierReports | src/rules/no-unused-imports.ts:63-90 | There is one report per unused specifier, in group order. Each report names the specifier, carries the message `Unused import '<local>'`, and has that specifier's fix. |
| UnusedImports.GroupReportsShape | src/rules/no-unused-imports.ts:53-91 | If the group is as long as the statement's specifier list, the output is exactly one "Unused import" report that removes the statement. Otherwise it is one per-specifier report per group member, none with the whole-statement message. |
| UnusedImports.ReportGroupsMember | src/rules/no-unused-imports.ts:53-92 | A report is emitted if and only if it is among the reports of some group. |
| UnusedImports.ReportGroupsFlatten | src/rules/no-unused-imports.ts:53-92 | The loop over `importGroups` makes all reports of the first group, then all of the second, and so on, each group's reports in its own order. Together with the group order of `GroupsAreUnusedBindings`, this fixes the order and count of the exit reports. |
| UnusedImports.NoImportReportedTwice | src/rules/no-unused-imports.ts:44-92 | Within one pass, a per-specifier message appears on one report only, and no other report carries it. Two whole-statement reports come from different groups, and so from different declarations. |
| UnusedImports.WholeRemovalIsSound | src/rules/no-unused-imports.ts:53-61 | A whole-statement report removes a statement that has at least one specifier, and every specifier of that statement binds an unused name. |
| UnusedImports.PartialReportIsUnused | src/rules/no-unused-imports.ts:62-66 | Every per-specifier report comes from a recorded binding whose name is unused. It points at that binding's specifier and carries its message and fix. |
| UnusedImports.UsedImportNeverReported | src/rules/no-unused-imports.ts:44-45 | A used name never appears in a per-specifier report. |
| UnusedImports.EveryUnusedImportReported | src/rules/no-unused-imports.ts:44-90 | Every unused binding is reported: either its whole statement is removed, or its specifier gets its own report and fix. |
| UnusedImports.SingleSpecifierFallbackUnreachable | src/rules/no-unused-imports.ts:73-75 | The one-specifier fallback inside the per-specifier fix is never reached. Every per-specifier report's fix is a range cut. |
| UnusedImports.ProgramExit | src/plugin.ts:38-91 | `Program:exit` leaves the collected state as it was and only appends to the reports already made. |
| UnusedImports.ExitTwiceRepeats | src/plugin.ts:38-91 | Running `Program:exit` twice on the same state appends the same report sequence twice. |
| Edits.ImportMessageInjective | src/rules/no-unused-imports.ts:55-66 | Two per-specifier messages are equal if and only if the names are equal. No per-specifier message equals "Unused import". |
| Edits.VariableMessageInjective | src/rules/no-unused-vars.ts:75 | Two `Unused variable '<name>'` messages are equal if and only if the names are equal. |
| Edits.CutRange | src/rules/no-unused-vars.ts:87-97 | For ordered sibling ranges, the neighbour rule gives a non-empty cut that contains the node's own range and meets no sibling's range. The cut ends where the next sibling starts, or, for the last sibling, starts where the previous one ends. |
| UnusedVars.PropertyNames | src/rules/no-unused-vars.ts:12-19 | An object pattern binds exactly the names of the `Property` entries whose value is an `Identifier`. Rest elements and nested patterns bind nothing. |
| UnusedVars.ElementNames | src/rules/no-unused-vars.ts:20-25 | An array pattern binds exactly the names of its `Identifier` elements. Holes and other elements bind nothing, and every hole is one fewer possible name. |
| UnusedVars.DeclaratorRecords | src/rules/no-unused-vars.ts:9-27 | After a declarator is visited, each name it binds maps to that whole declarator. Every other name keeps its earlier entry. |
| UnusedVars.FreshPlainDeclarator | src/rules/no-unused-vars.ts:10-11 | A plain identifier declarator with a new name appends exactly one entry, that name mapped to the declarator. |
| UnusedVars.DeclaredIdentifierIsNoUse | src/rules/no-unused-vars.ts:55-57 | The identifier that is its own declarator's `id` is not a use of its name. Visiting it leaves the state unchanged, so a walk that includes it ends where the walk without it ends. |
| UnusedVars.UsedIffSomeUse | src/rules/no-unused-vars.ts:53-66 | After a walk, a name is used if and only if some `Identifier` callback reads it. An identifier read this way is not its declarator's own `id`, and under a `Property` it is the shorthand or the value. |
| UnusedVars.ParamIffSomeParam | src/rules/no-unused-vars.ts:29-51 | After a walk, a name is a parameter if and only if some function declaration, function expression or arrow function has it as an `Identifier` parameter. |
| UnusedVars.WalkDeclared | src/rules/no-unused-vars.ts:4-27 | After a walk, each name maps to the last declarator that bound it. Names are iterated in the order they were first bound. |
| UnusedVars.DeclaratorFix | src/rules/no-unused-vars.ts:76-100 | The fix covers every declarator parent. A non-`VariableDeclaration` parent gives no fix. One declarator removes the whole statement. An empty declarator list throws. Two or more declarators cut with the neighbour rule, and the cut is non-empty and leaves the siblings intact when ranges are ordered. A declarator missing from the list is cut up to the first declarator, as `indexOf` returning -1 makes the code do. |
| UnusedVars.ReportEntries | src/rules/no-unused-vars.ts:69-75 | A report is emitted for an entry if and only if its name is neither used nor a parameter. It points at the declarator, names the variable and carries the declarator's fix. |
| UnusedVars.ReportsInDeclarationOrder | src/rules/no-unused-vars.ts:69-75 | The exit reports match the positions of the unused entries of `declaredVars` one for one, in increasing order. So there are exactly as many reports as unused names, and the k-th report is for the k-th unused entry, with its declarator, message and fix. |
| UnusedVars.ReportedIffUnused | src/rules/no-unused-vars.ts:69-101 | A name is reported at exit if and only if it was declared, is not used, and is not a parameter. Its report belongs to the declarator that last bound it. |
| UnusedVars.OneReportPerName | src/rules/no-unused-vars.ts:69-75 | Iterating a map that holds no name twice gives at most one report per name. |
| UnusedVars.NoNameReportedTwice | src/plugin.ts:163-170 | Over any walk, no two reports carry the same message, so no name is reported twice. |
| UnusedVars.ParameterNeverReported | src/plugin.ts:124-165 | A name that is an `Identifier` parameter of any function anywhere in the walk is never reported. |
| UnusedVars.UnreadNameReported | src/plugin.ts:163-170 | A declared name that no callback reads, and that is no parameter, is reported. |
| UnusedVars.PatternNamesNeverReported | src/rules/no-unused-vars.ts:53-66 | When the walk visits a pattern's own identifiers, the names the pattern binds are never reported. Those identifiers sit under a `Property` as its value, or under an `ArrayPattern`, and the `Identifier` callback counts them as uses. |
| UnusedVars.ProgramExit | src/plugin.ts:163-199 | `Program:exit` leaves the collected state as it was and only appends to the reports already made. |
| UnusedVars.ExitTwiceRepeats | src/plugin.ts:163-199 | Running `Program:exit` twice on the same state appends the same report sequence twice. |
| ImportsCases.PartialReport | tests/no-unused-imports.test.ts:48-81 | `import { a, b }` with only `a` read gives exactly one report, for `b`. Its fix removes the text from the end of `a` to the end of `b`. |
| ImportsCases.WholeReport | src/rules/no-unused-imports.ts:53-61 | `import { a, b }` with neither name read gives exactly one "Unused import" report, which removes the statement. |
| ImportsCases.ThreeNamedReport | tests/no-unused-imports.test.ts:202-258 | `import { a, b, c }` with only `a` read gives exactly two reports, `b` then `c`. The fix for `b` cuts from `b`'s start to `c`'s start. The fix for `c` cuts from `b`'s end to `c`'s end. |
| ImportsCases.ThreeHooksExample | tests/no-unused-imports.test.ts:202-258 | With the specifiers at offsets 9-17, 19-28 and 30-41 and only `useState` read, the reports are `useEffect` with `removeRange([19, 30])`, then `useCallback` with `removeRange([28, 41])`. |
| ImportsCases.SingleDefaultReport | tests/no-unused-imports.test.ts:169-200 | A statement whose only specifier is an unread default import gives exactly one "Unused import" report, whose fix removes the statement node. |
| VarsCases.MiddleUnreadReport | tests/no-unused-vars.test.ts:254-314 | In `const a, b, c` with `a` and `c` read, the only report is for `b`. Its fix cuts from `b`'s start to `c`'s start. |
| VarsCases.ThreeDeclaratorsExample | tests/no-unused-vars.test.ts:254-314 | With the test's offsets, the one report for `unused` carries `removeRange([16, 28])`, a range with start < end. |
| VarsCases.ArrayHolesReport | tests/no-unused-vars.test.ts:398-428 | `const [, second, , fourth]` with nothing read gives exactly two reports, `second` then `fourth`, and none for the holes. The test's declarator is absent from its parent's empty `declarations`, so both fixes throw. |
| VarsCases.ExportedDeclarationReported | tests/no-unused-vars.test.ts:316-352 | A declaration whose statement sits under `export` is still reported when nothing reads it, and its fix removes the statement. |
| VarsCases.DestructuredFixRemovesReadName | src/rules/no-unused-vars.ts:12-81 | In `const { a, b } = obj` with only `a` read afterwards, `b` is reported. Its fix removes the whole statement, including the read name `a`, because a pattern name maps to its whole declarator. |

## Left out

- **The host's traversal.** Which callbacks are made, and in what order, is the given `seq<Event>`.
- **Applying fixes.** `fixer.remove`, `fixer.removeRange` and applying edits to the text are host code. Fixes are returned as data. Fixes from different reports can overlap, and the model does not claim they are disjoint: in `ImportsCases.ThreeHooksExample` the two cuts share the offsets 28-30.
- **Other repository files.** `mod.ts` is a re-export. The sample programs and fixtures are inputs to the real linter. `tests/edge-cases.test.ts` asserts nothing. None of these is part of this model.
- **Missing nodes.** The model always gives a declarator a `parent` and a `range`, and gives a specifier a `range`. A hand-built node without them would make the code read a property of `undefined`.
- **Object identity.** Identity is modelled by `NodeId` plus value equality. Two distinct objects with identical ids and fields would be one object in the model. A parsed tree never produces them.
- **Features the code lacks.** Scope-aware shadowing, type-only imports, and recursion into nested patterns are absent, as they are in the code.
- Edits.CutRange: states the containment and disjointness of the cut only when the sibling ranges are ordered, as a parser produces them. For unordered ranges it still states the neighbour rule, through `SpecifierFix` and `DeclaratorFix`.

## Where the code and its tests disagree

- **Exported declarations.** The tests at tests/no-unused-vars.test.ts:316-396 expect exported declarations to go unreported. Neither copy of the rule looks above the declarator's parent, so an exported declaration that nothing reads is reported. The model follows the code, and `VarsCases.ExportedDeclarationReported` states the report the code makes.
- **Pattern names in a full walk.** In a real walk, the `Identifier` callback also runs on a pattern's own identifiers. Those identifiers are either a `Property` value or an `ArrayPattern` element, and both count as uses. So names bound by destructuring are never reported (`UnusedVars.PatternNamesNeverReported`). The tests hand-build walks without those callbacks, which is why they see reports for pattern names.
