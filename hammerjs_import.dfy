/**
 * The main-file import patcher of the install schematic: makes sure the project's main file
 * imports HammerJS, inserting the import statement at the top exactly once.
 *
 * Locating the main file through the workspace and decoding its bytes are not modelled: the file
 * is its text, `None` when the host cannot read it.
 */
module HammerJsImport {
  import opened Options

  /** The statement the patcher makes sure the main file contains. */
  const HammerjsImportStatement: string := "import 'hammerjs';"

  /** What one run of the patcher did; the two no-op outcomes are the ones the source logs. */
  datatype PatchOutcome =
    | MainFileUnreadable       // reported as an error; nothing is written
    | AlreadyImported          // reported; nothing is written
    | Inserted(content: string) // the new file content that is committed

  /** `part` occurs in `s` at offset `i`. */
  predicate OccursAt(s: string, part: string, i: int) {
    0 <= i && i + |part| <= |s| && s[i..i + |part|] == part
  }

  /** The `includes` test: `part` occurs somewhere in `s`. */
  function Includes(s: string, part: string): (r: bool)
    ensures r <==> exists i :: OccursAt(s, part, i)
    decreases |s|
  {
    if |s| < |part| then
      assert forall i :: !OccursAt(s, part, i);
      false
    else if s[..|part|] == part then
      assert OccursAt(s, part, 0);
      true
    else
      var r := Includes(s[1..], part);
      assert forall i :: OccursAt(s, part, i) && i > 0 ==> OccursAt(s[1..], part, i - 1) by {
        forall i | OccursAt(s, part, i) && i > 0 ensures OccursAt(s[1..], part, i - 1) {
          assert s[1..][i - 1..i - 1 + |part|] == s[i..i + |part|];
        }
      }
      assert forall i :: OccursAt(s[1..], part, i) ==> OccursAt(s, part, i + 1) by {
        forall i | OccursAt(s[1..], part, i) ensures OccursAt(s, part, i + 1) {
          assert s[1..][i..i + |part|] == s[i + 1..i + 1 + |part|];
        }
      }
      r
  }

  /** The decision of `addHammerJsToMain` on the main file's content. */
  function Patch(content: Option<string>): (o: PatchOutcome)
    ensures content.None? <==> o == MainFileUnreadable
    ensures content.Some? && Includes(content.value, HammerjsImportStatement) <==> o == AlreadyImported
    ensures o.Inserted? ==> content.Some? && o.content == HammerjsImportStatement + "\n" + content.value
  {
    match content
    case None => MainFileUnreadable
    case Some(text) =>
      if Includes(text, HammerjsImportStatement) then AlreadyImported
      else Inserted(HammerjsImportStatement + "\n" + text)
  }

  /** The main file's content after one run: changed only when the statement was inserted. */
  function Patched(content: Option<string>): Option<string> {
    match Patch(content)
    case Inserted(text) => Some(text)
    case _ => content
  }

  /**
   * After a run that could read the file, the file contains the import statement, and the old
   * content survives intact after the inserted line.
   */
  lemma PatchedContainsImport(content: Option<string>)
    requires content.Some?
    ensures Patched(content).Some?
    ensures Includes(Patched(content).value, HammerjsImportStatement)
    ensures Patch(content).Inserted? ==>
      Patched(content).value[|HammerjsImportStatement| + 1..] == content.value
  {
    var text := Patched(content).value;
    if Patch(content).Inserted? {
      assert text[..|HammerjsImportStatement|] == HammerjsImportStatement;
      assert OccursAt(text, HammerjsImportStatement, 0);
    }
  }

  /** Idempotence: a second run changes nothing, so the statement is inserted at most once. */
  lemma PatchIsIdempotent(content: Option<string>)
    ensures Patched(Patched(content)) == Patched(content)
    ensures content.Some? ==> Patch(Patched(content)) == AlreadyImported
  {
    if content.Some? {
      PatchedContainsImport(content);
    }
  }

  /** The project's main file as the host holds it. */
  class MainFile {
    /** The file's text, or `None` when the host cannot read it. */
    var content: Option<string>

    constructor (content: Option<string>)
      ensures this.content == content
    {
      this.content := content;
    }

    /** Reads the file, and inserts the import at offset 0 unless it is already present. */
    method AddHammerJsToMain() returns (outcome: PatchOutcome)
      modifies this
      ensures outcome == Patch(old(content))
      ensures content == Patched(old(content))
      ensures !outcome.Inserted? ==> content == old(content)
    {
      if content.None? {
        outcome := MainFileUnreadable;
        return;
      }
      var fileContent := content.value;
      if Includes(fileContent, HammerjsImportStatement) {
        outcome := AlreadyImported;
        return;
      }
      var updated := HammerjsImportStatement + "\n" + fileContent;
      content := Some(updated);
      outcome := Inserted(updated);
    }
  }
}
