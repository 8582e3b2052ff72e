/**
 * The class-name identifier rule of the upgrade tool: a single pass over the identifiers of one
 * source file, in document order, that rewrites a deprecated class name only where the name can be
 * attributed to the component library (imported from it, re-exported from it, or reached through
 * a namespace imported from it). Every check sits behind the table filter, so a namespace alias is
 * trusted only when the alias itself is a name the table replaces.
 *
 * The syntax tree and the classifier functions are not part of this model: each identifier arrives
 * as an `IdentifierNode` carrying the classifiers' verdicts as flags.
 */
module ClassNamesIdentifierRule {
  import opened Options

  /** One entry of the class-name change table: a deprecated name and the name replacing it. */
  datatype ChangeEntry = ChangeEntry(replace: string, replaceWith: string)

  /**
   * The syntactic parent of an identifier. `PropertyAccess(Some(b))` is `b.name` where the base
   * expression is the identifier `b`; `PropertyAccess(None)` has another kind of base expression.
   */
  datatype Parent = PropertyAccess(baseIdentifier: Option<string>) | OtherParent

  /**
   * An identifier of the source file. Each flag is the conjunction of two classifier verdicts:
   * namespace import and import declaration from the library, export specifier and export
   * declaration from the library, import specifier and import declaration from the library.
   */
  datatype IdentifierNode = IdentifierNode(
    text: string,
    start: nat,
    width: nat,
    namespaceImportFromLibrary: bool,
    exportSpecifierFromLibrary: bool,
    importSpecifierFromLibrary: bool,
    parent: Parent)

  /** A failure with its fix: replace `width` characters at `start` by `text`. */
  datatype Replacement = Replacement(start: nat, width: nat, text: string)

  /** The walker's state: the two trusted sets and the failures reported so far. */
  datatype WalkState = WalkState(
    trustedIdentifiers: set<string>,
    trustedNamespaces: set<string>,
    replacements: seq<Replacement>)

  /** The state of a fresh walker: one is created per source file. */
  const Initial := WalkState({}, {}, [])

  /** The branch of `visitIdentifier` an identifier takes. */
  datatype Verdict =
    | NotListed            // no table entry replaces this name
    | NamespaceImport      // `import * as name from` the library
    | ExportSpecifier      // `export { name } from` the library
    | ImportSpecifier      // `import { name } from` the library
    | NamespaceAccess      // `ns.name` with `ns` a trusted namespace
    | UntrustedAccess      // any other property access
    | TrustedReference     // a bare reference to a trusted identifier
    | UntrustedReference   // a bare reference to anything else
  {
    /** True for the branches that report a failure with a replacement. */
    predicate Emits() {
      this == NamespaceImport || this == ExportSpecifier || this == ImportSpecifier
      || this == NamespaceAccess || this == TrustedReference
    }
  }

  /** Some table entry replaces `text` (the `some` filter of `visitIdentifier`). */
  predicate Listed(table: seq<ChangeEntry>, text: string) {
    exists i :: 0 <= i < |table| && table[i].replace == text
  }

  /** Entry `i` is the first entry of the table that replaces `text`. */
  predicate IsFirstMatch(table: seq<ChangeEntry>, text: string, i: int) {
    0 <= i < |table| && table[i].replace == text
    && forall j :: 0 <= j < i ==> table[j].replace != text
  }

  /** The table lookup of `_createFailureWithReplacement` (`find`): the first entry replacing `text`. */
  function FindEntry(table: seq<ChangeEntry>, text: string): (r: Option<ChangeEntry>)
    ensures r.Some? <==> Listed(table, text)
    ensures r.Some? ==> exists i :: IsFirstMatch(table, text, i) && table[i] == r.value
  {
    if table == [] then None
    else if table[0].replace == text then
      assert IsFirstMatch(table, text, 0);
      Some(table[0])
    else
      var r := FindEntry(table[1..], text);
      if r.Some? then
        var i :| IsFirstMatch(table[1..], text, i) && table[1..][i] == r.value;
        assert IsFirstMatch(table, text, i + 1);
        r
      else
        assert !Listed(table, text) by {
          forall i | 0 <= i < |table| ensures table[i].replace != text {
            if i > 0 { assert table[i] == table[1..][i - 1]; }
          }
        }
        r
  }

  /** The replacement reported for a listed identifier: its own span and its new name. */
  function ReplacementFor(table: seq<ChangeEntry>, node: IdentifierNode): Replacement
    requires Listed(table, node.text)
  {
    Replacement(node.start, node.width, FindEntry(table, node.text).value.replaceWith)
  }

  /** The order of checks in `visitIdentifier`. */
  function Decide(table: seq<ChangeEntry>, st: WalkState, node: IdentifierNode): (v: Verdict)
    ensures v != NotListed <==> Listed(table, node.text)
  {
    if !Listed(table, node.text) then NotListed
    else if node.namespaceImportFromLibrary then NamespaceImport
    else if node.exportSpecifierFromLibrary then ExportSpecifier
    else if node.importSpecifierFromLibrary then ImportSpecifier
    else match node.parent
      case PropertyAccess(base) =>
        if base.Some? && base.value in st.trustedNamespaces then NamespaceAccess else UntrustedAccess
      case OtherParent =>
        if node.text in st.trustedIdentifiers then TrustedReference else UntrustedReference
  }

  /** One visit: the new trusted sets and failures after the walker sees `node`. */
  function Step(table: seq<ChangeEntry>, st: WalkState, node: IdentifierNode): WalkState {
    var v := Decide(table, st, node);
    WalkState(
      if v == ImportSpecifier then st.trustedIdentifiers + {node.text} else st.trustedIdentifiers,
      if v == NamespaceImport then st.trustedNamespaces + {node.text} else st.trustedNamespaces,
      if v.Emits() then st.replacements + [ReplacementFor(table, node)] else st.replacements)
  }

  /** The walker's state after visiting `nodes` in document order, starting from `st`. */
  function Walk(table: seq<ChangeEntry>, st: WalkState, nodes: seq<IdentifierNode>): WalkState
    decreases |nodes|
  {
    if nodes == [] then st
    else Step(table, Walk(table, st, nodes[..|nodes| - 1]), nodes[|nodes| - 1])
  }

  /** The node, a library import specifier of a listed name, makes that name trusted when visited. */
  predicate TrustsIdentifier(table: seq<ChangeEntry>, node: IdentifierNode) {
    Listed(table, node.text) && !node.namespaceImportFromLibrary
    && !node.exportSpecifierFromLibrary && node.importSpecifierFromLibrary
  }

  /** The node, a library namespace import with a listed alias, makes the alias trusted when visited. */
  predicate TrustsNamespace(table: seq<ChangeEntry>, node: IdentifierNode) {
    Listed(table, node.text) && node.namespaceImportFromLibrary
  }

  /** The listed names bound by library import specifiers among `nodes`. */
  function ImportedNames(table: seq<ChangeEntry>, nodes: seq<IdentifierNode>): set<string> {
    set k | 0 <= k < |nodes| && TrustsIdentifier(table, nodes[k]) :: nodes[k].text
  }

  /** The aliases of library namespace imports among `nodes` whose own name the table replaces. */
  function ImportedNamespaces(table: seq<ChangeEntry>, nodes: seq<IdentifierNode>): set<string> {
    set k | 0 <= k < |nodes| && TrustsNamespace(table, nodes[k]) :: nodes[k].text
  }

  /** The `k`-th node gets a replacement when a fresh walker reaches it. */
  predicate Rewritten(table: seq<ChangeEntry>, nodes: seq<IdentifierNode>, k: int)
    requires 0 <= k < |nodes|
  {
    Decide(table, Walk(table, Initial, nodes[..k]), nodes[k]).Emits()
  }

  // ---------------------------------------------------------------------------------------------
  // The walker as the source has it: mutable trusted sets and a growing list of failures.
  // ---------------------------------------------------------------------------------------------

  class Walker {
    /** The class-name change table the rule consults. */
    const table: seq<ChangeEntry>
    /** Listed names imported from the library in the current file. */
    var trustedIdentifiers: set<string>
    /** Listed namespace aliases imported from the library in the current file. */
    var trustedNamespaces: set<string>
    /** Failures reported so far, each with its replacement. */
    var failures: seq<Replacement>

    /** The walker's fields as a `WalkState` value. */
    function State(): WalkState
      reads this
    {
      WalkState(trustedIdentifiers, trustedNamespaces, failures)
    }

    constructor (table: seq<ChangeEntry>)
      ensures this.table == table && State() == Initial
    {
      this.table := table;
      trustedIdentifiers := {};
      trustedNamespaces := {};
      failures := [];
    }

    /** Called for every identifier of the file, in document order. */
    method VisitIdentifier(node: IdentifierNode)
      modifies this
      ensures State() == Step(table, old(State()), node)
    {
      if !Listed(table, node.text) {
        return;
      }
      if node.namespaceImportFromLibrary {
        trustedNamespaces := trustedNamespaces + {node.text};
        var found := CreateFailureWithReplacement(node);
        assert found;
        return;
      }
      if node.exportSpecifierFromLibrary {
        var found := CreateFailureWithReplacement(node);
        assert found;
        return;
      }
      if node.importSpecifierFromLibrary {
        trustedIdentifiers := trustedIdentifiers + {node.text};
        var found := CreateFailureWithReplacement(node);
        assert found;
        return;
      }
      match node.parent {
        case PropertyAccess(base) =>
          if base.Some? && base.value in trustedNamespaces {
            var found := CreateFailureWithReplacement(node);
            assert found;
          }
        case OtherParent =>
          if node.text in trustedIdentifiers {
            var found := CreateFailureWithReplacement(node);
            assert found;
          }
      }
    }

    /**
     * Looks up the new name and reports a failure with its replacement; `found` is false on the
     * "could not find updated name" path, which only logs.
     */
    method CreateFailureWithReplacement(node: IdentifierNode) returns (found: bool)
      modifies this`failures
      ensures found == Listed(table, node.text)
      ensures failures == if found then old(failures) + [ReplacementFor(table, node)] else old(failures)
    {
      var classData := FindEntry(table, node.text);
      if classData.None? {
        found := false;
        return;
      }
      found := true;
      failures := failures + [Replacement(node.start, node.width, classData.value.replaceWith)];
    }

    /** The traversal: visits `nodes` one after the other. */
    method WalkIdentifiers(nodes: seq<IdentifierNode>)
      modifies this
      ensures State() == Walk(table, old(State()), nodes)
    {
      var i := 0;
      while i < |nodes|
        invariant 0 <= i <= |nodes|
        invariant State() == Walk(table, old(State()), nodes[..i])
      {
        VisitIdentifier(nodes[i]);
        assert nodes[..i + 1][..i] == nodes[..i];
        i := i + 1;
      }
      assert nodes[..|nodes|] == nodes;
    }
  }

  /** The rule applied to one file: a fresh walker over the file's identifiers. */
  method ApplyRule(table: seq<ChangeEntry>, nodes: seq<IdentifierNode>) returns (failures: seq<Replacement>)
    ensures failures == Walk(table, Initial, nodes).replacements
  {
    var walker := new Walker(table);
    walker.WalkIdentifiers(nodes);
    failures := walker.failures;
  }

  // ---------------------------------------------------------------------------------------------
  // Properties of one visit.
  // ---------------------------------------------------------------------------------------------

  /** An identifier no entry replaces is skipped and changes nothing. */
  lemma NotListedIsInert(table: seq<ChangeEntry>, st: WalkState, node: IdentifierNode)
    requires !Listed(table, node.text)
    ensures Step(table, st, node) == st
  {
  }

  /**
   * A library namespace import takes priority over every other check: whatever the other flags,
   * its name becomes a trusted namespace and it is replaced.
   */
  lemma NamespaceImportTrustsAndEmits(table: seq<ChangeEntry>, st: WalkState, node: IdentifierNode)
    requires Listed(table, node.text) && node.namespaceImportFromLibrary
    ensures Step(table, st, node)
      == WalkState(st.trustedIdentifiers, st.trustedNamespaces + {node.text},
                   st.replacements + [ReplacementFor(table, node)])
  {
  }

  /** A library export specifier is replaced in any state, and trusts nothing. */
  lemma ExportSpecifierEmitsImmediately(table: seq<ChangeEntry>, st: WalkState, node: IdentifierNode)
    requires Listed(table, node.text) && !node.namespaceImportFromLibrary && node.exportSpecifierFromLibrary
    ensures Step(table, st, node)
      == WalkState(st.trustedIdentifiers, st.trustedNamespaces, st.replacements + [ReplacementFor(table, node)])
  {
  }

  /** A library import specifier makes its name trusted and is replaced. */
  lemma ImportSpecifierTrustsAndEmits(table: seq<ChangeEntry>, st: WalkState, node: IdentifierNode)
    requires TrustsIdentifier(table, node)
    ensures Step(table, st, node)
      == WalkState(st.trustedIdentifiers + {node.text}, st.trustedNamespaces,
                   st.replacements + [ReplacementFor(table, node)])
  {
  }

  /**
   * A name under a property access is replaced exactly when its base is an identifier in the
   * trusted namespaces; the trusted identifiers are never consulted for it.
   */
  lemma PropertyAccessNeedsTrustedNamespace(
    table: seq<ChangeEntry>, st: WalkState, ids: set<string>, node: IdentifierNode)
    requires Listed(table, node.text)
    requires !node.namespaceImportFromLibrary && !node.exportSpecifierFromLibrary
    requires !node.importSpecifierFromLibrary && node.parent.PropertyAccess?
    ensures Decide(table, st, node).Emits()
      <==> node.parent.baseIdentifier.Some? && node.parent.baseIdentifier.value in st.trustedNamespaces
    ensures Decide(table, st.(trustedIdentifiers := ids), node) == Decide(table, st, node)
  {
  }

  /** A bare reference is replaced exactly when its name is a trusted identifier. */
  lemma ReferenceNeedsTrustedIdentifier(table: seq<ChangeEntry>, st: WalkState, node: IdentifierNode)
    requires Listed(table, node.text)
    requires !node.namespaceImportFromLibrary && !node.exportSpecifierFromLibrary
    requires !node.importSpecifierFromLibrary && node.parent == OtherParent
    ensures Decide(table, st, node).Emits() <==> node.text in st.trustedIdentifiers
    ensures Step(table, st, node).trustedIdentifiers == st.trustedIdentifiers
    ensures Step(table, st, node).trustedNamespaces == st.trustedNamespaces
  {
  }

  /**
   * Every emitted replacement spans the identifier and carries the first matching entry's new name:
   * the "could not find updated name" path is never taken from a visit.
   */
  lemma EmittedReplacementIsFirstMatch(table: seq<ChangeEntry>, st: WalkState, node: IdentifierNode)
    requires Decide(table, st, node).Emits()
    ensures FindEntry(table, node.text).Some?
    ensures Step(table, st, node).replacements == st.replacements + [ReplacementFor(table, node)]
    ensures exists i ::
      IsFirstMatch(table, node.text, i)
      && ReplacementFor(table, node) == Replacement(node.start, node.width, table[i].replaceWith)
  {
  }

  /** A visit only adds to the trusted sets and only appends to the failures. */
  lemma StepGrows(table: seq<ChangeEntry>, st: WalkState, node: IdentifierNode)
    ensures st.trustedIdentifiers <= Step(table, st, node).trustedIdentifiers
    ensures st.trustedNamespaces <= Step(table, st, node).trustedNamespaces
    ensures st.replacements <= Step(table, st, node).replacements
  {
  }

  // ---------------------------------------------------------------------------------------------
  // Properties of a whole pass.
  // ---------------------------------------------------------------------------------------------

  /** The names imported by a prefix, plus the name the next node imports, if it imports one. */
  lemma ImportedNamesExtend(table: seq<ChangeEntry>, nodes: seq<IdentifierNode>)
    requires nodes != []
    ensures ImportedNames(table, nodes)
      == ImportedNames(table, nodes[..|nodes| - 1])
         + if TrustsIdentifier(table, nodes[|nodes| - 1]) then {nodes[|nodes| - 1].text} else {}
  {
    var n := |nodes| - 1;
    var front := nodes[..n];
    forall x | x in ImportedNames(table, nodes) && x !in ImportedNames(table, front)
      ensures TrustsIdentifier(table, nodes[n]) && x == nodes[n].text
    {
      var k :| 0 <= k < |nodes| && TrustsIdentifier(table, nodes[k]) && nodes[k].text == x;
    }
    forall x | x in ImportedNames(table, front) ensures x in ImportedNames(table, nodes) {
      var k :| 0 <= k < |front| && TrustsIdentifier(table, front[k]) && front[k].text == x;
      assert nodes[k] == front[k];
    }
  }

  /** The namespaces imported by a prefix, plus the alias the next node records, if it records one. */
  lemma ImportedNamespacesExtend(table: seq<ChangeEntry>, nodes: seq<IdentifierNode>)
    requires nodes != []
    ensures ImportedNamespaces(table, nodes)
      == ImportedNamespaces(table, nodes[..|nodes| - 1])
         + if TrustsNamespace(table, nodes[|nodes| - 1]) then {nodes[|nodes| - 1].text} else {}
  {
    var n := |nodes| - 1;
    var front := nodes[..n];
    forall x | x in ImportedNamespaces(table, nodes) && x !in ImportedNamespaces(table, front)
      ensures TrustsNamespace(table, nodes[n]) && x == nodes[n].text
    {
      var k :| 0 <= k < |nodes| && TrustsNamespace(table, nodes[k]) && nodes[k].text == x;
    }
    forall x | x in ImportedNamespaces(table, front) ensures x in ImportedNamespaces(table, nodes) {
      var k :| 0 <= k < |front| && TrustsNamespace(table, front[k]) && front[k].text == x;
      assert nodes[k] == front[k];
    }
  }

  /**
   * After a pass, the trusted identifiers are those the walk started with plus exactly the listed
   * names bound by the library import specifiers seen, and likewise the listed namespace aliases.
   */
  lemma {:induction false} WalkTrustedSets(table: seq<ChangeEntry>, st: WalkState, nodes: seq<IdentifierNode>)
    ensures Walk(table, st, nodes).trustedIdentifiers == st.trustedIdentifiers + ImportedNames(table, nodes)
    ensures Walk(table, st, nodes).trustedNamespaces == st.trustedNamespaces + ImportedNamespaces(table, nodes)
  {
    if nodes != [] {
      WalkTrustedSets(table, st, nodes[..|nodes| - 1]);
      ImportedNamesExtend(table, nodes);
      ImportedNamespacesExtend(table, nodes);
    }
  }

  /** Trust only ever holds names of the table, when the walk starts from a fresh walker. */
  lemma TrustedNamesAreListed(table: seq<ChangeEntry>, nodes: seq<IdentifierNode>)
    ensures forall x :: x in Walk(table, Initial, nodes).trustedIdentifiers ==> Listed(table, x)
    ensures forall x :: x in Walk(table, Initial, nodes).trustedNamespaces ==> Listed(table, x)
  {
    WalkTrustedSets(table, Initial, nodes);
  }

  /**
   * Visiting more nodes only grows the trusted sets and extends the failures: the state after a
   * prefix of the file is contained in the state after the whole file.
   */
  lemma {:induction false} WalkGrows(table: seq<ChangeEntry>, st: WalkState, nodes: seq<IdentifierNode>, k: nat)
    requires k <= |nodes|
    ensures Walk(table, st, nodes[..k]).trustedIdentifiers <= Walk(table, st, nodes).trustedIdentifiers
    ensures Walk(table, st, nodes[..k]).trustedNamespaces <= Walk(table, st, nodes).trustedNamespaces
    ensures Walk(table, st, nodes[..k]).replacements <= Walk(table, st, nodes).replacements
    decreases |nodes| - k
  {
    if k == |nodes| {
      assert nodes[..k] == nodes;
    } else {
      WalkGrows(table, st, nodes, k + 1);
      assert nodes[..k + 1][..k] == nodes[..k];
      StepGrows(table, Walk(table, st, nodes[..k]), nodes[k]);
    }
  }

  /**
   * Trust soundness for bare references: the `k`-th node, a reference to a listed name, is rewritten
   * exactly when a library import specifier of the same name comes EARLIER in the file. A later
   * import does not validate it, and a same-named identifier never imported is never touched.
   */
  lemma ReferenceRewrittenIffImportedBefore(table: seq<ChangeEntry>, nodes: seq<IdentifierNode>, k: int)
    requires 0 <= k < |nodes|
    requires Listed(table, nodes[k].text)
    requires !nodes[k].namespaceImportFromLibrary && !nodes[k].exportSpecifierFromLibrary
    requires !nodes[k].importSpecifierFromLibrary && nodes[k].parent == OtherParent
    ensures Rewritten(table, nodes, k)
      <==> exists j :: 0 <= j < k && TrustsIdentifier(table, nodes[j]) && nodes[j].text == nodes[k].text
  {
    WalkTrustedSets(table, Initial, nodes[..k]);
    if exists j :: 0 <= j < k && TrustsIdentifier(table, nodes[j]) && nodes[j].text == nodes[k].text {
      var j :| 0 <= j < k && TrustsIdentifier(table, nodes[j]) && nodes[j].text == nodes[k].text;
      assert nodes[..k][j] == nodes[j];
    }
  }

  /**
   * Namespace propagation: `ns.name` at position `k` is rewritten exactly when a library namespace
   * import named `ns` comes earlier in the file and `ns` is itself a name the table replaces.
   */
  lemma AccessRewrittenIffNamespaceImportedBefore(table: seq<ChangeEntry>, nodes: seq<IdentifierNode>, k: int)
    requires 0 <= k < |nodes|
    requires Listed(table, nodes[k].text)
    requires !nodes[k].namespaceImportFromLibrary && !nodes[k].exportSpecifierFromLibrary
    requires !nodes[k].importSpecifierFromLibrary && nodes[k].parent.PropertyAccess?
    ensures Rewritten(table, nodes, k)
      <==> nodes[k].parent.baseIdentifier.Some?
           && exists j :: 0 <= j < k && TrustsNamespace(table, nodes[j])
                          && nodes[j].text == nodes[k].parent.baseIdentifier.value
  {
    WalkTrustedSets(table, Initial, nodes[..k]);
    var base := nodes[k].parent.baseIdentifier;
    if base.Some? && exists j :: 0 <= j < k && TrustsNamespace(table, nodes[j]) && nodes[j].text == base.value {
      var j :| 0 <= j < k && TrustsNamespace(table, nodes[j]) && nodes[j].text == base.value;
      assert nodes[..k][j] == nodes[j];
    }
  }

  /**
   * Each failure of a pass belongs to one of the visited identifiers: it spans that identifier and
   * carries the first matching entry's new name.
   */
  lemma {:induction false} WalkReplacementsComeFromNodes(table: seq<ChangeEntry>, nodes: seq<IdentifierNode>)
    ensures forall r :: r in Walk(table, Initial, nodes).replacements ==>
      exists k :: 0 <= k < |nodes| && Listed(table, nodes[k].text) && r == ReplacementFor(table, nodes[k])
  {
    if nodes != [] {
      var n := |nodes| - 1;
      WalkReplacementsComeFromNodes(table, nodes[..n]);
      forall r | r in Walk(table, Initial, nodes).replacements
        ensures exists k :: 0 <= k < |nodes| && Listed(table, nodes[k].text) && r == ReplacementFor(table, nodes[k])
      {
        if r in Walk(table, Initial, nodes[..n]).replacements {
          var k :| 0 <= k < n && Listed(table, nodes[..n][k].text) && r == ReplacementFor(table, nodes[..n][k]);
          assert nodes[..n][k] == nodes[k];
        } else {
          assert Listed(table, nodes[n].text) && r == ReplacementFor(table, nodes[n]);
        }
      }
    }
  }

  /**
   * Trust soundness for a whole file: when no identifier of the file binds a listed name from the
   * library (no library namespace import, export or import specifier of a listed name), the pass
   * reports nothing, whatever the identifiers are called.
   */
  lemma {:induction false} NoLibraryBindingNoReplacement(table: seq<ChangeEntry>, nodes: seq<IdentifierNode>)
    requires forall k :: 0 <= k < |nodes| && Listed(table, nodes[k].text) ==>
      !nodes[k].namespaceImportFromLibrary && !nodes[k].exportSpecifierFromLibrary
      && !nodes[k].importSpecifierFromLibrary
    ensures Walk(table, Initial, nodes) == Initial
  {
    if nodes != [] {
      var n := |nodes| - 1;
      assert forall k :: 0 <= k < n ==> nodes[..n][k] == nodes[k];
      NoLibraryBindingNoReplacement(table, nodes[..n]);
    }
  }

  // ---------------------------------------------------------------------------------------------
  // Running the rule twice.
  // ---------------------------------------------------------------------------------------------

  /** No entry's new name is itself deprecated by the table (no chained rename). */
  predicate NoChainedRename(table: seq<ChangeEntry>) {
    forall i, j :: 0 <= i < |table| && 0 <= j < |table| ==> table[i].replaceWith != table[j].replace
  }

  /** The identifier as it reads once its replacement (if any) has been applied. */
  function MigrateNode(table: seq<ChangeEntry>, st: WalkState, node: IdentifierNode): IdentifierNode {
    if Decide(table, st, node).Emits() then
      var name := FindEntry(table, node.text).value.replaceWith;
      node.(text := name, width := |name|)
    else node
  }

  /** The file's identifiers after the fix runner has applied every replacement of one pass. */
  function Migrate(table: seq<ChangeEntry>, nodes: seq<IdentifierNode>): (r: seq<IdentifierNode>)
    ensures |r| == |nodes|
  {
    seq(|nodes|, k requires 0 <= k < |nodes| => MigrateNode(table, Walk(table, Initial, nodes[..k]), nodes[k]))
  }

  /**
   * Idempotence: with a table free of chained renames, a second pass over the migrated file reports
   * nothing, since every library binding of a listed name was renamed to an unlisted name.
   */
  lemma MigrateIsIdempotent(table: seq<ChangeEntry>, nodes: seq<IdentifierNode>)
    requires NoChainedRename(table)
    ensures Walk(table, Initial, Migrate(table, nodes)) == Initial
  {
    var m := Migrate(table, nodes);
    forall k | 0 <= k < |m| && Listed(table, m[k].text)
      ensures !m[k].namespaceImportFromLibrary && !m[k].exportSpecifierFromLibrary
        && !m[k].importSpecifierFromLibrary
    {
      var st := Walk(table, Initial, nodes[..k]);
      var v := Decide(table, st, nodes[k]);
      if v.Emits() {
        assert false;
      }
    }
    NoLibraryBindingNoReplacement(table, m);
  }

  /**
   * A reference that comes before its import is left alone while the import itself is rewritten
   * (`MatOld` at offset 10 is used before `import { MatOld }` at offset 40).
   */
  lemma ReferenceBeforeImportExample()
    ensures
      var table := [ChangeEntry("MatOld", "MatNew")];
      var reference := IdentifierNode("MatOld", 10, 6, false, false, false, OtherParent);
      var importNode := IdentifierNode("MatOld", 40, 6, false, false, true, OtherParent);
      Walk(table, Initial, [reference, importNode]).replacements == [Replacement(40, 6, "MatNew")]
      && Walk(table, Initial, [importNode, reference]).replacements
         == [Replacement(40, 6, "MatNew"), Replacement(10, 6, "MatNew")]
  {
    var table := [ChangeEntry("MatOld", "MatNew")];
    var reference := IdentifierNode("MatOld", 10, 6, false, false, false, OtherParent);
    var importNode := IdentifierNode("MatOld", 40, 6, false, false, true, OtherParent);
    assert IsFirstMatch(table, "MatOld", 0);
    assert FindEntry(table, "MatOld") == Some(table[0]);
    assert [reference, importNode][..1] == [reference];
    assert [importNode, reference][..1] == [importNode];
    assert Walk(table, Initial, [reference]) == Initial;
    assert Walk(table, Initial, [importNode]) == WalkState({"MatOld"}, {}, [Replacement(40, 6, "MatNew")]);
  }

  /**
   * An ordinary namespace alias is never trusted: after `import * as mat from` the library, the
   * access `mat.cdkPortalHost` is left alone, because `mat` is not in the table and the visit of
   * the alias returns at the table filter before it could record the namespace.
   */
  lemma UnlistedNamespaceAliasExample()
    ensures
      var table := [ChangeEntry("cdkPortalHost", "cdkPortalOutlet")];
      var alias := IdentifierNode("mat", 12, 3, true, false, false, OtherParent);
      var access := IdentifierNode("cdkPortalHost", 60, 13, false, false, false, PropertyAccess(Some("mat")));
      Walk(table, Initial, [alias, access]) == Initial
  {
    var table := [ChangeEntry("cdkPortalHost", "cdkPortalOutlet")];
    var alias := IdentifierNode("mat", 12, 3, true, false, false, OtherParent);
    var access := IdentifierNode("cdkPortalHost", 60, 13, false, false, false, PropertyAccess(Some("mat")));
    assert !Listed(table, "mat");
    assert [alias, access][..1] == [alias];
    assert Walk(table, Initial, [alias]) == Initial;
  }
}
