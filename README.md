# Upgrade and install schematics of an Angular component library, modelled in Dafny

This project models three pieces of the library's schematics:

- **The class-name identifier rule** of the upgrade tool (module `ClassNamesIdentifierRule`). A
  walker visits the identifiers of one source file in document order. It keeps two growing sets: the
  listed names imported from the library (trusted identifiers) and the listed aliases of namespace
  imports from it (trusted namespaces), "listed" meaning that some change-table entry replaces the
  name. For each identifier whose text is listed, it checks, in a fixed order, whether the
  identifier is a library namespace import, export specifier or import specifier.
  If it is none of these, it checks whether the identifier sits under a property access whose base is
  a trusted namespace, or is a bare reference to a trusted identifier. It reports a failure carrying
  a replacement: the identifier's start, its width, and the `replaceWith` of the first table entry
  whose `replace` is the identifier's text.
  The class `Walker` holds the sets and the failures and is proved against the value-level functions
  `Decide` (which branch is taken), `Step` (one visit) and `Walk` (a whole pass). The lemmas about
  those functions state trust soundness, the priority of the checks, the growth of the sets, the
  first-match lookup and idempotence of a migration.
- **The rule aggregator** (module `TslintUpdate`): `CreateTslintConfig(target)` folds over the 21
  upgrade rule names and maps each to `[true, target]`, beside the constant list of 10 rule
  directories.
- **The HammerJS main-file patcher** (module `HammerJsImport`): reads the main file, does nothing
  (and reports) when it cannot be read or already contains `import 'hammerjs';`, and otherwise
  inserts that statement and a newline at offset 0. `MainFile.AddHammerJsToMain` changes the file's
  content only in the insert branch.

Inputs the model cannot compute are parameters. The classifier verdicts of each identifier are flags
on `IdentifierNode`. The syntactic parent is `PropertyAccess(base)` or `OtherParent`. The change table
is a sequence of `ChangeEntry(replace, replaceWith)` pairs, the shape of the entries in
`schematics/update/material/data/attribute-selectors.js`. The main file's content is an
`Option<string>`, where `None` means the host could not read it.

Notes on the code as written:

- An identifier under a property access is checked only against the trusted namespaces (the
  `else if` of `visitIdentifier`). That includes an identifier that is itself the base of the access,
  such as `MatOld` in `MatOld.staticMember`: even when `MatOld` was imported from the library, that
  occurrence is not rewritten. The model keeps this behaviour (`PropertyAccessNeedsTrustedNamespace`).
- Every check of `visitIdentifier` sits behind the table filter at line 41. A namespace import
  therefore records its alias as trusted only when the alias itself is a name the table replaces.
  For an ordinary alias such as `import * as mat from '@angular/material'`, the access
  `mat.cdkPortalHost` is never rewritten (`UnlistedNamespaceAliasExample`). This differs from what
  the comment at lines 44-46 describes, where the namespace name is stored so that accesses through
  it can be found. The model keeps the code's behaviour.
- The table lookup takes the first entry whose `replace` matches (`find`). A table that renames a
  token twice is not rejected. The model follows the code, and idempotence of a migration
  (`MigrateIsIdempotent`) is proved for tables without chained renames.
- An empty main file counts as readable: the host returns an empty buffer, which is truthy, so the
  statement is inserted.

Dafny functions are deterministic, so `CreateTslintConfig` gives equal configuration values for the
same target by construction. The object identity and key order of the source's result are not
modelled (see "## Left out"). `ConfigsDifferOnlyInTarget` states what does depend on the target.

## Model

| member | source | states |
|---|---|---|
| `ClassNamesIdentifierRule.FindEntry` | schematics/update/rules/class-names/classNamesIdentifierRule.js:77-82 | the lookup finds an entry exactly when some entry's `replace` equals the text, and the entry found is the first such entry |
| `ClassNamesIdentifierRule.Decide` | schematics/update/rules/class-names/classNamesIdentifierRule.js:41-73 | every identifier whose text is listed in the table takes one of the later branches, and every other identifier is rejected by the first check |
| `ClassNamesIdentifierRule.Walker.constructor` | schematics/update/rules/class-names/classNamesIdentifierRule.js:27-36 | a new walker starts with both trusted sets empty and no failures |
| `ClassNamesIdentifierRule.Walker.VisitIdentifier` | schematics/update/rules/class-names/classNamesIdentifierRule.js:38-74 | the new trusted sets and failures are those of one `Step` from the old ones; each call to the failure helper inside it finds its entry |
| `ClassNamesIdentifierRule.Walker.CreateFailureWithReplacement` | schematics/update/rules/class-names/classNamesIdentifierRule.js:76-86 | a failure is added exactly when the lookup succeeds, spanning the identifier with the entry's new name; otherwise the failures are unchanged |
| `ClassNamesIdentifierRule.Walker.WalkIdentifiers` | schematics/update/rules/class-names/classNamesIdentifierRule.js:37-38 | visiting identifiers one after the other in document order leaves the walker in the state `Walk` gives |
| `ClassNamesIdentifierRule.ApplyRule` | schematics/update/rules/class-names/classNamesIdentifierRule.js:20-24 | applying the rule to a file runs a fresh walker (empty trusted sets) and yields the failures of one pass |
| `ClassNamesIdentifierRule.NotListedIsInert` | schematics/update/rules/class-names/classNamesIdentifierRule.js:41-43 | an identifier whose text no entry replaces gives no failure and leaves both trusted sets unchanged |
| `ClassNamesIdentifierRule.NamespaceImportTrustsAndEmits` | schematics/update/rules/class-names/classNamesIdentifierRule.js:47-50 | a library namespace import of a listed name, whatever its other flags, adds that name to the trusted namespaces and gives exactly one failure |
| `ClassNamesIdentifierRule.ExportSpecifierEmitsImmediately` | schematics/update/rules/class-names/classNamesIdentifierRule.js:53-55 | a library export specifier of a listed name gives a failure in any state, with no earlier import, and changes neither trusted set |
| `ClassNamesIdentifierRule.ImportSpecifierTrustsAndEmits` | schematics/update/rules/class-names/classNamesIdentifierRule.js:59-62 | a library import specifier of a listed name adds that name to the trusted identifiers and gives one failure |
| `ClassNamesIdentifierRule.PropertyAccessNeedsTrustedNamespace` | schematics/update/rules/class-names/classNamesIdentifierRule.js:65-70 | a name under a property access is replaced if and only if its base is an identifier in the trusted namespaces, and the verdict does not depend on the trusted identifiers |
| `ClassNamesIdentifierRule.ReferenceNeedsTrustedIdentifier` | schematics/update/rules/class-names/classNamesIdentifierRule.js:71-73 | any other identifier is replaced if and only if its name is already a trusted identifier, and it trusts nothing new |
| `ClassNamesIdentifierRule.EmittedReplacementIsFirstMatch` | schematics/update/rules/class-names/classNamesIdentifierRule.js:77-85 | whenever a visit reports a failure the lookup succeeds (the "could not find updated name" branch is unreachable), and the replacement spans the identifier and carries the first matching entry's new name |
| `ClassNamesIdentifierRule.StepGrows` | schematics/update/rules/class-names/classNamesIdentifierRule.js:33-35 | one visit only adds to the trusted sets and only appends to the failures |
| `ClassNamesIdentifierRule.WalkTrustedSets` | schematics/update/rules/class-names/classNamesIdentifierRule.js:47-62 | after a pass, the trusted identifiers are the starting ones plus exactly the listed names bound by the library import specifiers seen, and likewise the listed namespace aliases; a library import of an unlisted name trusts nothing |
| `ClassNamesIdentifierRule.TrustedNamesAreListed` | schematics/update/rules/class-names/classNamesIdentifierRule.js:41-62 | starting from a fresh walker, the trusted sets only ever hold names some table entry replaces |
| `ClassNamesIdentifierRule.WalkGrows` | schematics/update/rules/class-names/classNamesIdentifierRule.js:33-73 | the state after any prefix of the file is contained in the state after the whole file: sets grow, failures are extended |
| `ClassNamesIdentifierRule.ReferenceRewrittenIffImportedBefore` | schematics/update/rules/class-names/classNamesIdentifierRule.js:59-73 | a bare reference is rewritten if and only if a library import specifier of the same name comes earlier in the file; a later import does not count |
| `ClassNamesIdentifierRule.AccessRewrittenIffNamespaceImportedBefore` | schematics/update/rules/class-names/classNamesIdentifierRule.js:47-70 | `ns.name` is rewritten if and only if its base is an identifier and a library namespace import named `ns` comes earlier in the file, where `ns` is itself a name the table replaces |
| `ClassNamesIdentifierRule.WalkReplacementsComeFromNodes` | schematics/update/rules/class-names/classNamesIdentifierRule.js:76-85 | every failure of a pass spans one visited listed identifier and carries its first matching entry's new name |
| `ClassNamesIdentifierRule.NoLibraryBindingNoReplacement` | schematics/update/rules/class-names/classNamesIdentifierRule.js:41-73 | when no identifier binds a listed name from the library, a pass reports nothing and trusts nothing, whatever the identifiers are called |
| `ClassNamesIdentifierRule.MigrateIsIdempotent` | schematics/update/rules/class-names/classNamesIdentifierRule.js:38-85 | with a table free of chained renames, a second pass over the migrated identifiers reports no failure |
| `ClassNamesIdentifierRule.UnlistedNamespaceAliasExample` | schematics/update/rules/class-names/classNamesIdentifierRule.js:41-70 | after `import * as mat from` the library, `mat.cdkPortalHost` is not rewritten and `mat` is not trusted, because the alias `mat` is not in the table |
| `ClassNamesIdentifierRule.ReferenceBeforeImportExample` | schematics/update/rules/class-names/classNamesIdentifierRule.js:59-73 | a reference before its import is not rewritten while the import is, and after the import it is |
| `TslintUpdate.CreateTslintConfig` | schematics/update/tslint-update.js:64-70 | the configuration's directories are the fixed list, its rule names are exactly the upgrade rules, and each maps to `[true, target]` |
| `TslintUpdate.EnableRulesSpec` | schematics/update/tslint-update.js:65-68 | the `reduce` keeps the keys it starts with, adds exactly the listed names with `[true, target]`, and leaves other entries alone |
| `TslintUpdate.UpgradeRulesDistinct` | schematics/update/tslint-update.js:12-44 | the list has 21 pairwise distinct rule names |
| `TslintUpdate.ConfigEnablesEveryRule` | schematics/update/tslint-update.js:12-68 | the fold loses no entry: the rule map has exactly 21 entries, one per listed name |
| `TslintUpdate.ConfigsDifferOnlyInTarget` | schematics/update/tslint-update.js:46-70 | the directories and the rule names do not depend on the target; each option carries its own target; two configurations are equal exactly when the targets are |
| `HammerJsImport.Includes` | schematics/install/gestures/hammerjs-import.js:27 | the `includes` test is true exactly when the statement occurs at some offset of the content |
| `HammerJsImport.Patch` | schematics/install/gestures/hammerjs-import.js:21-31 | an unreadable file is a reported no-op; content that already contains the statement is a reported no-op; otherwise the new content is the statement, a newline and the old content |
| `HammerJsImport.PatchedContainsImport` | schematics/install/gestures/hammerjs-import.js:27-31 | after a run on a readable file the content contains the statement, and after an insertion the old content survives intact as the suffix |
| `HammerJsImport.PatchIsIdempotent` | schematics/install/gestures/hammerjs-import.js:27-31 | running the patcher twice leaves the same content as running it once; the second run on a readable file reports the import as present |
| `HammerJsImport.MainFile.AddHammerJsToMain` | schematics/install/gestures/hammerjs-import.js:15-32 | the outcome is the decision on the old content, and the content changes (to the patched text) only when the statement is inserted |

## Left out

- The TypeScript syntax tree and the classifiers `isNamespaceImportNode`, `isExportSpecifierNode`, `isImportSpecifierNode`, `isMaterialImportDeclaration`, `isMaterialExportDeclaration`: their bodies are not part of this model, so their verdicts are input flags of each identifier.
- The TSLint plumbing (`Rule.apply`, `applyWithWalker`, `addFailureAtNode`, `createReplacement`): a failure is modelled as a `Replacement(start, width, text)` record appended to the walker's list; the failure message and its chalk colouring are not modelled.
- The traversal order itself is TSLint's; `Walker.WalkIdentifiers` takes the identifiers already in document order.
- Console logging in both files: the lookup-failure log becomes the `found` result of `Walker.CreateFailureWithReplacement`, and the patcher's two messages become the `MainFileUnreadable` and `AlreadyImported` outcomes.
- The class-name change table (`classNames`) is not part of this model; the rule takes a table as a parameter.
- `path.join(__dirname, …)` in `tslint-update.js`: the rule directories are kept as the relative strings the source joins onto the schematic's directory.
- Workspace and project lookup, `host.beginUpdate`, `host.read`, `host.commitUpdate` and UTF-8 decoding in `hammerjs-import.js`: the main file is a `MainFile` object whose content is text or `None`.
- `ClassNamesIdentifierRule.MigrateIsIdempotent`: proved only for tables without chained renames; the code does not reject such tables. The migrated identifiers keep their start offsets, which the second pass does not consult. `MigrateNode` renames an identifier's own text but leaves the base name of its property access as it was, so when a listed namespace alias is renamed the migrated accesses still name the old alias; the second pass trusts nothing, so the result does not depend on it.
- `TslintUpdate.CreateTslintConfig`: returns a value, not an object. In the source every configuration's `rulesDirectory` is the same module-level array, so a caller that mutates one configuration's list changes it for every later configuration; the model does not capture this sharing. The `rules` object also keeps the key order of the rule list, which a Dafny `map` does not have.
- `schematics/address-form/index.js` (scaffolding glue with no logic of its own), the data file `attribute-selectors.js` beyond its entry shape, and `typings/stepper/stepper-button.d.ts` (type declarations only).
