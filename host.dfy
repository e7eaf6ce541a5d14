/** What a handler reads from the editor and what it asks the editor to do.
    The editor itself (document model, word ranges, edit application,
    commands) is not modelled: a handler gets one snapshot of the document
    and the cursors, and returns an Outcome. */
module Host {
  import opened Text

  datatype Position = Position(line: nat, character: nat)

  /** One cursor: where it stands (the end of its selection) and the text of
      the word range the editor reports one column to its left. */
  datatype Cursor = Cursor(pos: Position, word: string)

  /** A document snapshot: its lines without terminators and its end-of-line
      sequence. */
  datatype Doc = Doc(lines: seq<string>, eol: string)

  /** Replace columns [start, end) of one line by text. */
  datatype Edit = Edit(line: nat, start: nat, end: nat, text: string)

  /** What a handler makes the editor do. */
  datatype Outcome =
    | NoOp
      // one atomic batch, undone by a single undo
    | ApplyEdits(edits: seq<Edit>)
      // the `deleteLeft` command and then the `cursorRight` command
    | DeleteAndAdvance
      // a 50 ms timer that re-reads the document and the word at the column
      // left of the cursor `at` (the typed '0') and, if the re-check passes,
      // issues `deleteLeft` and `cursorRight`
    | RecheckThenDeleteAndAdvance(at: Position)

  /** The extension's configuration keys the handlers read. */
  datatype Settings = Settings(
    allEnabled: bool,           // LazyKey.AllEnabled
    numberToParentheses: bool,  // LazyKey.NumberToParentheses
    dotToPoint: bool,           // LazyKey.DotToPoint
    dotToPointDisabledOnce: bool) // LazyKey.DotToPointDisabledOnce

  /** The text left of the typed character, the typed character and the
      text right of the cursor. */
  datatype LineContext = LineContext(left: string, inpt: string, right: string)

  /** The editor only hands out positions inside the document. */
  predicate ValidCursor(doc: Doc, c: Cursor) {
    c.pos.line < |doc.lines| && c.pos.character <= |doc.lines[c.pos.line]|
  }

  predicate ValidCursors(doc: Doc, cs: seq<Cursor>) {
    forall k :: 0 <= k < |cs| ==> ValidCursor(doc, cs[k])
  }

  function LineOf(doc: Doc, c: Cursor): string
    requires ValidCursor(doc, c)
  {
    doc.lines[c.pos.line]
  }

  /** `document.getText()` */
  function Full(doc: Doc): string {
    Join(doc.lines, doc.eol)
  }

  /** `substring(0, col - 1)`, `substring(col - 1, col)` and `substring(col)`
      of the cursor's line, for a cursor past column 0. */
  function Split(line: string, col: nat): (ctx: LineContext)
    requires 1 <= col <= |line|
    ensures ctx.left + ctx.inpt + ctx.right == line
    ensures ctx.inpt == [line[col - 1]] && |ctx.left| == col - 1
  {
    LineContext(line[..col - 1], line[col - 1..col], line[col..])
  }

  function ContextOf(doc: Doc, c: Cursor): LineContext
    requires ValidCursor(doc, c) && c.pos.character >= 1
  {
    Split(LineOf(doc, c), c.pos.character)
  }

  /** The line as the editor leaves it after one edit on it. */
  function ApplyToLine(line: string, e: Edit): string
    requires e.start <= e.end <= |line|
  {
    line[..e.start] + e.text + line[e.end..]
  }
}
