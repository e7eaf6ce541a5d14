/** The '.' to '->' converter for C, C++ and PHP (src/key_dot.js): a '.'
    typed after a pointer becomes '->', two dots become '->', and a '.'
    typed right after an arrow turns it back into '.' and suppresses the
    handler's next run. */
module KeyDot {
  import opened Text
  import opened Pattern
  import opened Host

  /** The languages the handler acts in (src/key_dot.js:19). */
  const Languages: seq<string> := ["c", "cpp", "php"]

  /** What one cursor contributes: the handler ends here (`return`), the
      cursor is passed over (`continue`), or it yields an edit; `reversal`
      marks the arrow-to-dot edit, which also arms the suppression flag. */
  datatype Action =
    | Abort
    | Skip
    | Emit(edit: Edit, reversal: bool)

  /** The loop's state: ended by a `return` (the flag it has written so
      far survives), or the edits collected so far and the flag. */
  datatype Tally =
    | Halted(disabledOnce: bool)
    | Running(edits: seq<Edit>, disabledOnce: bool)

  /** What one invocation leaves behind: the editor action, the value of
      `LazyKey.DotToPointDisabledOnce` afterwards, and whether the 100 ms
      suggest trigger is scheduled. */
  datatype Reaction = Reaction(outcome: Outcome, disabledOnce: bool, suggest: bool)

  /** `\*\s*word\b`, `\bword\s*->` or `\bword\b\s*=\s*new\b` somewhere in the
      document: the word was declared or used as a pointer
      (src/key_dot.js:73-76). */
  predicate PointerEvidence(word: string, full: string) {
    Test(PointerDecl(word), full) || Test(ArrowUse(word), full) || Test(NewAlloc(word), full)
  }

  /** The text left of the typed '.' already ends in '.', and is at least
      two characters long (src/key_dot.js:60). */
  predicate DoubleDot(left: string) {
    |left| >= 2 && EndsWith(left, ".")
  }

  /** A third dot, a dot after a tab, or the variadic ` ..`: the handler
      gives up (src/key_dot.js:61-64). */
  predicate DotRunStops(left: string) {
    EndsWith(left, "..") || EndsWith(left, "\t.") || EndsWith(left, " .")
  }

  /** The upward scan's verdict (src/key_dot.js:80-95): looking at the lines
      above line k from the nearest one up, the first line that mentions
      `word.` means '.', the first that mentions `word->` means '->', and a
      word never mentioned above means '->'. */
  predicate UsePointAbove(lines: seq<string>, k: nat, word: string)
    requires k <= |lines|
  {
    if k == 0 then true
    else if Test(DotMember(word), lines[k - 1]) then false
    else if Test(ArrowMember(word), lines[k - 1]) then true
    else UsePointAbove(lines, k - 1, word)
  }

  /** The line mentions `word.` or `word->`. */
  predicate Mentions(line: string, word: string) {
    Test(DotMember(word), line) || Test(ArrowMember(word), line)
  }

  /** No line strictly between lines j and k mentions the word. */
  predicate Quiet(lines: seq<string>, j: int, k: nat, word: string)
    requires k <= |lines|
  {
    forall m :: j < m < k && 0 <= m ==> !Mentions(lines[m], word)
  }

  /** The scan stated without the recursion: the verdict is '.' exactly
      when some line above mentions `word.` and no line between it and the
      cursor's line mentions `word.` or `word->`. */
  lemma {:induction false} NearestMentionDecides(lines: seq<string>, k: nat, word: string)
    requires k <= |lines|
    ensures !UsePointAbove(lines, k, word) <==>
              exists j :: 0 <= j < k && Test(DotMember(word), lines[j]) && Quiet(lines, j, k, word)
  {
    if k > 0 {
      NearestMentionDecides(lines, k - 1, word);
      if Test(DotMember(word), lines[k - 1]) {
        assert Quiet(lines, k - 1, k, word);
      } else if Test(ArrowMember(word), lines[k - 1]) {
        forall j | 0 <= j < k && Test(DotMember(word), lines[j])
          ensures !Quiet(lines, j, k, word)
        {
          assert j < k - 1 && Mentions(lines[k - 1], word);
        }
      } else {
        forall j | 0 <= j < k - 1
          ensures Quiet(lines, j, k, word) <==> Quiet(lines, j, k - 1, word)
        {
        }
      }
    }
  }

  /** The scan as the handler runs it, one line at a time upwards from the
      cursor's line (src/key_dot.js:80-95). */
  method NearestUsePoint(lines: seq<string>, line: nat, word: string) returns (usePoint: bool)
    requires line <= |lines|
    ensures usePoint == UsePointAbove(lines, line, word)
  {
    var pos: nat := line;
    usePoint := true;
    while pos > 0
      invariant pos <= line
      invariant UsePointAbove(lines, pos, word) == UsePointAbove(lines, line, word)
      invariant usePoint
    {
      pos := pos - 1;
      var prevLine := lines[pos];
      if Test(DotMember(word), prevLine) {
        usePoint := false;
        assert !UsePointAbove(lines, pos + 1, word);
        break;
      } else if Test(ArrowMember(word), prevLine) {
        usePoint := true;
        break;
      }
    }
  }

  /** What one cursor contributes (src/key_dot.js:32-103). A cursor at
      column 0 ends the handler: `new vscode.Position(line, -1)` throws. */
  function Decide(doc: Doc, c: Cursor): Action
    requires ValidCursor(doc, c)
  {
    if c.pos.character == 0 then Abort
    else
      var ctx := ContextOf(doc, c);
      var col := c.pos.character;
      if ctx.inpt != "." then Abort
      else if EndsWith(ctx.left, "->") then Emit(Edit(c.pos.line, col - 3, col, "."), true)
      else if EndsWithDigit(ctx.left) then Abort
      else if DoubleDot(ctx.left) then
        if DotRunStops(ctx.left) then Abort
        else Emit(Edit(c.pos.line, col - 2, col, "->"), false)
      else if c.word != "this" && !PointerEvidence(c.word, Full(doc)) then Abort
      else if UsePointAbove(doc.lines, c.pos.line, c.word) then Emit(Edit(c.pos.line, col - 1, col, "->"), false)
      else Skip
  }

  function Decisions(doc: Doc, cs: seq<Cursor>): seq<Action>
    requires ValidCursors(doc, cs)
  {
    seq(|cs|, j requires 0 <= j < |cs| => Decide(doc, cs[j]))
  }

  /** One loop iteration. */
  function Absorb(t: Tally, a: Action): Tally {
    match t
    case Halted(_) => t
    case Running(edits, flag) =>
      match a
      case Abort => Halted(flag)
      case Skip => t
      case Emit(e, reversal) => Running(edits + [e], flag || reversal)
  }

  /** The state after visiting ds[|ds|-1], ..., ds[k]. */
  function Fold(ds: seq<Action>, k: nat): Tally
    requires k <= |ds|
    decreases |ds| - k
  {
    if k == |ds| then Running([], false)
    else Absorb(Fold(ds, k + 1), ds[k])
  }

  /** The text right of a cursor. */
  function RightOf(doc: Doc, c: Cursor): string
    requires ValidCursor(doc, c)
  {
    LineOf(doc, c)[c.pos.character..]
  }

  /** `right == "" || /^\W/.test(right)`: nothing word-like follows, so a
      member list is worth showing (src/key_dot.js:119). */
  predicate Suggests(right: string) {
    |right| == 0 || !IsWordChar(right[0])
  }

  /** The whole invocation (src/key_dot.js:9-124). The `right` the suggest
      test sees is the one of the first cursor, the loop's last. */
  function Spec(s: Settings, languageId: string, doc: Doc, cs: seq<Cursor>): Reaction
    requires |cs| >= 1 && ValidCursors(doc, cs)
  {
    if !s.allEnabled || !s.dotToPoint then Reaction(NoOp, s.dotToPointDisabledOnce, false)
    else if s.dotToPointDisabledOnce then Reaction(NoOp, false, false)
    else if languageId !in Languages then Reaction(NoOp, false, false)
    else Finish(Fold(Decisions(doc, cs), 0), RightOf(doc, cs[0]))
  }

  /** What the handler does once the loop is over (src/key_dot.js:109-123):
      nothing after a `return` or with no edits, otherwise the batch, and
      the suggest trigger when `right` allows it. */
  function Finish(t: Tally, right: string): Reaction {
    match t
    case Halted(flag) => Reaction(NoOp, flag, false)
    case Running(edits, flag) =>
      if |edits| == 0 then Reaction(NoOp, flag, false)
      else Reaction(ApplyEdits(edits), flag, Suggests(right))
  }

  /** The body of the cursor loop up to the edit (src/key_dot.js:32-103). */
  method DecideCursor(doc: Doc, full: string, c: Cursor) returns (a: Action)
    requires ValidCursor(doc, c) && full == Full(doc)
    ensures a == Decide(doc, c)
  {
    var position := c.pos;
    if position.character == 0 {
      return Abort;
    }
    var word := c.word;
    var ctx := Split(doc.lines[position.line], position.character);
    var left, inpt := ctx.left, ctx.inpt;
    if inpt != "." {
      return Abort;
    }
    var start: nat := position.character - 1;
    var newText: string;
    var reversal := false;
    if EndsWith(left, "->") {
      newText := ".";
      start := start - 2;
      reversal := true;
    } else if EndsWithDigit(left) {
      return Abort;
    } else {
      newText := "->";
      var doublePoint := false;
      if DoubleDot(left) {
        if DotRunStops(left) {
          return Abort;
        }
        start := start - 1;
        doublePoint := true;
      }
      if word != "this" && !doublePoint && !PointerEvidence(word, full) {
        return Abort;
      }
      if !doublePoint {
        var usePoint := NearestUsePoint(doc.lines, position.line, word);
        if !usePoint {
          return Skip;
        }
      }
    }
    a := Emit(Edit(position.line, start, position.character, newText), reversal);
  }

  /** The reverse loop over the cursors (src/key_dot.js:26-107); a
      `return` inside it comes back as the Halted state, with the flag as
      the loop has written it. */
  method VisitCursors(doc: Doc, cs: seq<Cursor>) returns (t: Tally, right: string)
    requires |cs| >= 1 && ValidCursors(doc, cs)
    ensures t == Fold(Decisions(doc, cs), 0)
    ensures t.Running? ==> right == RightOf(doc, cs[0])
  {
    ghost var ds := Decisions(doc, cs);
    var full := Full(doc);
    var disabledOnce := false;
    var textEdits: seq<Edit> := [];
    right := "";
    var i := |cs|;
    while i > 0
      invariant 0 <= i <= |cs|
      invariant Fold(ds, i) == Running(textEdits, disabledOnce)
      invariant i < |cs| ==> right == RightOf(doc, cs[i])
    {
      i := i - 1;
      right := doc.lines[cs[i].pos.line][cs[i].pos.character..];
      var a := DecideCursor(doc, full, cs[i]);
      assert a == ds[i];
      if a.Abort? {
        HaltedStays(ds, 0, i);
        return Halted(disabledOnce), right;
      }
      Step(ds, i, textEdits, disabledOnce);
      if a.Emit? {
        if a.reversal {
          disabledOnce := true;
        }
        textEdits := textEdits + [a.edit];
      }
    }
    t := Running(textEdits, disabledOnce);
  }

  /** `provideCompletionItems` (src/key_dot.js:9-124). */
  method Provide(s: Settings, languageId: string, doc: Doc, cs: seq<Cursor>) returns (r: Reaction)
    requires |cs| >= 1 && ValidCursors(doc, cs)
    ensures r == Spec(s, languageId, doc, cs)
  {
    if !s.allEnabled || !s.dotToPoint {
      return Reaction(NoOp, s.dotToPointDisabledOnce, false);
    }
    if s.dotToPointDisabledOnce {
      return Reaction(NoOp, false, false);
    }
    if languageId !in Languages {
      return Reaction(NoOp, false, false);
    }
    var t, right := VisitCursors(doc, cs);
    if t.Halted? || |t.edits| == 0 {
      return Reaction(NoOp, t.disabledOnce, false);
    }
    r := Reaction(ApplyEdits(t.edits), t.disabledOnce, right == "" || !IsWordChar(right[0]));
  }

  /** One iteration on a cursor that does not abort. */
  lemma Step(ds: seq<Action>, i: nat, edits: seq<Edit>, flag: bool)
    requires i < |ds| && !ds[i].Abort? && Fold(ds, i + 1) == Running(edits, flag)
    ensures Fold(ds, i) == if ds[i].Emit? then Running(edits + [ds[i].edit], flag || ds[i].reversal)
                           else Running(edits, flag)
  {
  }

  /** Once the loop has returned, visiting more cursors changes nothing. */
  lemma {:induction false} HaltedStays(ds: seq<Action>, k: nat, j: nat)
    requires k <= j <= |ds| && Fold(ds, j).Halted?
    ensures Fold(ds, k) == Fold(ds, j)
    decreases j - k
  {
    if k < j {
      HaltedStays(ds, k + 1, j);
    }
  }

  /** The loop ends early exactly when some cursor aborts. */
  lemma {:induction false} FoldHalts(ds: seq<Action>, k: nat)
    requires k <= |ds|
    ensures Fold(ds, k).Halted? <==> exists j :: k <= j < |ds| && ds[j].Abort?
    decreases |ds| - k
  {
    if k < |ds| {
      FoldHalts(ds, k + 1);
      if ds[k].Abort? {
        assert exists j :: k <= j < |ds| && ds[j].Abort?;
      }
    }
  }

  /** The flag is only ever armed by a reversal. */
  lemma {:induction false} FlagNeedsReversal(ds: seq<Action>, k: nat)
    requires k <= |ds|
    ensures Fold(ds, k).disabledOnce ==> exists j :: k <= j < |ds| && ds[j].Emit? && ds[j].reversal
    decreases |ds| - k
  {
    if k < |ds| {
      FlagNeedsReversal(ds, k + 1);
      if ds[k].Emit? && ds[k].reversal {
        assert k <= k < |ds|;
      }
    }
  }

  /** How many of ds[k..] emit an edit. */
  function EmitCount(ds: seq<Action>, k: nat): nat
    requires k <= |ds|
    decreases |ds| - k
  {
    if k == |ds| then 0
    else (if ds[k].Emit? then 1 else 0) + EmitCount(ds, k + 1)
  }

  /** Without an abort, the batch holds exactly the edits of the emitting
      cursors, one entry per emitting cursor, is empty exactly when every cursor is passed over, and the
      flag is armed exactly when some cursor reverses an arrow. */
  lemma {:induction false} FoldRuns(ds: seq<Action>, k: nat)
    requires k <= |ds|
    requires forall j :: k <= j < |ds| ==> !ds[j].Abort?
    ensures Fold(ds, k).Running?
    ensures |Fold(ds, k).edits| == EmitCount(ds, k)
    ensures forall j :: k <= j < |ds| && ds[j].Emit? ==> ds[j].edit in Fold(ds, k).edits
    ensures forall m :: 0 <= m < |Fold(ds, k).edits| ==>
              exists j :: k <= j < |ds| && ds[j].Emit? && ds[j].edit == Fold(ds, k).edits[m]
    ensures |Fold(ds, k).edits| == 0 <==> forall j :: k <= j < |ds| ==> ds[j].Skip?
    ensures Fold(ds, k).disabledOnce <==> exists j :: k <= j < |ds| && ds[j].Emit? && ds[j].reversal
    decreases |ds| - k
  {
    if k < |ds| {
      FoldRuns(ds, k + 1);
      var t := Fold(ds, k + 1);
      if ds[k].Emit? {
        var edits := t.edits + [ds[k].edit];
        assert edits[|t.edits|] == ds[k].edit;
        forall m | 0 <= m < |edits|
          ensures exists j :: k <= j < |ds| && ds[j].Emit? && ds[j].edit == edits[m]
        {
          if m < |t.edits| {
            assert edits[m] == t.edits[m];
          }
        }
        if ds[k].reversal {
          assert k <= k < |ds| && ds[k].Emit? && ds[k].reversal;
        }
      } else {
        assert ds[k].Skip?;
      }
    }
  }

  /** An armed flag makes the next run a no-op and clears it
      (src/key_dot.js:15-18). */
  lemma SuppressedOnce(s: Settings, languageId: string, doc: Doc, cs: seq<Cursor>)
    requires |cs| >= 1 && ValidCursors(doc, cs)
    requires s.allEnabled && s.dotToPoint && s.dotToPointDisabledOnce
    ensures Spec(s, languageId, doc, cs) == Reaction(NoOp, false, false)
  {
  }

  /** Typing '.' right after '->' replaces the three characters by a single
      '.' and arms the flag (src/key_dot.js:47-51). */
  lemma RevertArrow(doc: Doc, c: Cursor, before: string, after: string)
    requires ValidCursor(doc, c)
    requires LineOf(doc, c) == before + "->." + after && c.pos.character == |before| + 3
    ensures Decide(doc, c) == Emit(Edit(c.pos.line, |before|, |before| + 3, "."), true)
    ensures ApplyToLine(LineOf(doc, c), Decide(doc, c).edit) == before + "." + after
  {
    var line := LineOf(doc, c);
    var ctx := ContextOf(doc, c);
    assert ctx.left == before + "->";
    assert ctx.inpt == ".";
    assert line[..|before|] == before && line[|before| + 3..] == after;
  }

  /** The round trip: a '.' typed after a pointer word becomes "->", and a
      '.' typed right after that arrow gives back the line with the '.' the
      user first typed (src/key_dot.js:47-51, 97-103). */
  lemma DotArrowDot(doc: Doc, c: Cursor, doc2: Doc, c2: Cursor, before: string, after: string)
    requires ValidCursor(doc, c) && ValidCursor(doc2, c2)
    requires LineOf(doc, c) == before + "." + after && c.pos.character == |before| + 1
    requires !EndsWith(before, "->") && !EndsWithDigit(before) && !DoubleDot(before)
    requires c.word == "this" || PointerEvidence(c.word, Full(doc))
    requires UsePointAbove(doc.lines, c.pos.line, c.word)
    requires LineOf(doc2, c2) == before + "->." + after && c2.pos.character == |before| + 3
    ensures Decide(doc, c).Emit? && !Decide(doc, c).reversal
    ensures ApplyToLine(LineOf(doc, c), Decide(doc, c).edit) == before + "->" + after
    ensures Decide(doc2, c2).Emit? && Decide(doc2, c2).reversal
    ensures ApplyToLine(LineOf(doc2, c2), Decide(doc2, c2).edit) == LineOf(doc, c)
  {
    var ctx := ContextOf(doc, c);
    assert ctx.left == before && ctx.inpt == "." && ctx.right == after;
    SingleDot(doc, c);
    RevertArrow(doc2, c2, before, after);
  }

  /** A '.' after a digit is a decimal point: the handler ends
      (src/key_dot.js:53-55). */
  lemma DecimalPointDeclines(doc: Doc, c: Cursor)
    requires ValidCursor(doc, c) && c.pos.character >= 1
    requires ContextOf(doc, c).inpt == "." && EndsWithDigit(ContextOf(doc, c).left)
    ensures Decide(doc, c).Abort?
  {
    var left := ContextOf(doc, c).left;
    if EndsWith(left, "->") {
      EndsWithLast(left, "->");
    }
  }

  /** A second '.' typed after a '.' (src/key_dot.js:59-70): the handler
      ends when the character before that '.' is another '.', a tab or a
      space; otherwise both dots become '->', without any pointer test. */
  lemma TwoDots(doc: Doc, c: Cursor)
    requires ValidCursor(doc, c) && c.pos.character >= 1
    requires ContextOf(doc, c).inpt == "." && DoubleDot(ContextOf(doc, c).left)
    ensures var left := ContextOf(doc, c).left;
            Decide(doc, c).Abort? <==> left[|left| - 2] in {'.', '\t', ' '}
    ensures var ctx := ContextOf(doc, c);
            !Decide(doc, c).Abort? ==>
              Decide(doc, c) == Emit(Edit(c.pos.line, c.pos.character - 2, c.pos.character, "->"), false) &&
              ApplyToLine(LineOf(doc, c), Decide(doc, c).edit) == ctx.left[..|ctx.left| - 1] + "->" + ctx.right
  {
    var ctx := ContextOf(doc, c);
    var left := ctx.left;
    var line := LineOf(doc, c);
    var col := c.pos.character;
    EndsWithLast(left, ".");
    EndsWithPair(left, "->");
    EndsWithPair(left, "..");
    EndsWithPair(left, "\t.");
    EndsWithPair(left, " .");
    assert line[..col - 2] == left[..|left| - 1] && line[col..] == ctx.right;
  }

  /** A single '.' after anything else (src/key_dot.js:72-99): the handler
      ends unless the word is `this` or was seen used as a pointer, and then
      the '.' becomes '->' exactly when the nearest line above that
      mentions the word uses '->' (or none does). */
  lemma SingleDot(doc: Doc, c: Cursor)
    requires ValidCursor(doc, c) && c.pos.character >= 1
    requires var ctx := ContextOf(doc, c);
             ctx.inpt == "." && !EndsWith(ctx.left, "->") && !EndsWithDigit(ctx.left) && !DoubleDot(ctx.left)
    ensures Decide(doc, c).Abort? <==> c.word != "this" && !PointerEvidence(c.word, Full(doc))
    ensures Decide(doc, c).Emit? <==>
              (c.word == "this" || PointerEvidence(c.word, Full(doc))) && UsePointAbove(doc.lines, c.pos.line, c.word)
    ensures var ctx := ContextOf(doc, c);
            Decide(doc, c).Emit? ==>
              Decide(doc, c) == Emit(Edit(c.pos.line, c.pos.character - 1, c.pos.character, "->"), false) &&
              ApplyToLine(LineOf(doc, c), Decide(doc, c).edit) == ctx.left + "->" + ctx.right
  {
    var ctx := ContextOf(doc, c);
    var line := LineOf(doc, c);
    var col := c.pos.character;
    assert line[..col - 1] == ctx.left && line[col..] == ctx.right;
  }

  /** A cursor that aborts discards every edit, so nothing happens and no
      suggestion is triggered (what happens to the flag: AbortKeepsFlag). */
  lemma AbortDiscardsEdits(s: Settings, languageId: string, doc: Doc, cs: seq<Cursor>, k: nat)
    requires |cs| >= 1 && ValidCursors(doc, cs)
    requires k < |cs| && Decide(doc, cs[k]).Abort?
    ensures Spec(s, languageId, doc, cs).outcome == NoOp
    ensures !Spec(s, languageId, doc, cs).suggest
  {
    var ds := Decisions(doc, cs);
    assert ds[k].Abort?;
    FoldHalts(ds, 0);
  }

  /** The loop state a `return` leaves behind: with k the last cursor (in
      cursor order) that aborts, the loop halts, and the flag is armed
      exactly when a cursor after k, visited before it, reversed an arrow. */
  lemma {:induction false} HaltFlag(ds: seq<Action>, k: nat)
    requires k < |ds| && ds[k].Abort?
    requires forall j :: k < j < |ds| ==> !ds[j].Abort?
    ensures Fold(ds, 0).Halted?
    ensures Fold(ds, 0).disabledOnce <==> exists j :: k < j < |ds| && ds[j].Emit? && ds[j].reversal
  {
    FoldRuns(ds, k + 1);
    assert Fold(ds, k) == Halted(Fold(ds, k + 1).disabledOnce);
    HaltedStays(ds, 0, k);
  }

  /** A reversal at a cursor the loop visits before an aborting one arms
      the flag although nothing is applied (the configuration write at
      src/key_dot.js:50 happens inside the loop): with the handler active
      and k the last aborting cursor, the flag ends up armed exactly when
      some cursor after k reverses an arrow. */
  lemma AbortKeepsFlag(s: Settings, languageId: string, doc: Doc, cs: seq<Cursor>, k: nat)
    requires |cs| >= 1 && ValidCursors(doc, cs)
    requires s.allEnabled && s.dotToPoint && !s.dotToPointDisabledOnce && languageId in Languages
    requires k < |cs| && Decide(doc, cs[k]).Abort?
    requires forall j :: k < j < |cs| ==> !Decide(doc, cs[j]).Abort?
    ensures Spec(s, languageId, doc, cs).outcome == NoOp
    ensures Spec(s, languageId, doc, cs).disabledOnce <==>
              exists j :: k < j < |cs| && Decide(doc, cs[j]).Emit? && Decide(doc, cs[j]).reversal
  {
    var ds := Decisions(doc, cs);
    forall j | 0 <= j < |cs|
      ensures ds[j] == Decide(doc, cs[j])
    {
    }
    HaltFlag(ds, k);
  }

  /** With the handler active, the flag ends up armed only after a cursor
      reverses an arrow, and is armed whenever that happens without an
      abort; the run after that is then suppressed. */
  lemma ReversalArmsSuppression(s: Settings, languageId: string, doc: Doc, cs: seq<Cursor>)
    requires |cs| >= 1 && ValidCursors(doc, cs)
    requires s.allEnabled && s.dotToPoint && !s.dotToPointDisabledOnce && languageId in Languages
    ensures Spec(s, languageId, doc, cs).disabledOnce ==>
              exists j :: 0 <= j < |cs| && Decide(doc, cs[j]).Emit? && Decide(doc, cs[j]).reversal
    ensures (forall j :: 0 <= j < |cs| ==> !Decide(doc, cs[j]).Abort?) &&
            (exists j :: 0 <= j < |cs| && Decide(doc, cs[j]).Emit? && Decide(doc, cs[j]).reversal) ==>
              Spec(s, languageId, doc, cs).disabledOnce && Spec(s, languageId, doc, cs).outcome.ApplyEdits?
  {
    var ds := Decisions(doc, cs);
    forall j | 0 <= j < |cs|
      ensures ds[j] == Decide(doc, cs[j])
    {
    }
    FlagNeedsReversal(ds, 0);
    if forall j :: 0 <= j < |cs| ==> !Decide(doc, cs[j]).Abort? {
      FoldRuns(ds, 0);
    }
  }

  /** Without an abort, nothing is applied exactly when every cursor was
      passed over (src/key_dot.js:97-99, 110-111). */
  lemma BatchEmpty(s: Settings, languageId: string, doc: Doc, cs: seq<Cursor>)
    requires |cs| >= 1 && ValidCursors(doc, cs)
    requires s.allEnabled && s.dotToPoint && !s.dotToPointDisabledOnce && languageId in Languages
    requires forall j :: 0 <= j < |cs| ==> !Decide(doc, cs[j]).Abort?
    ensures Spec(s, languageId, doc, cs).outcome == NoOp <==> forall j :: 0 <= j < |cs| ==> Decide(doc, cs[j]).Skip?
  {
    var ds := Decisions(doc, cs);
    forall j | 0 <= j < |cs|
      ensures ds[j] == Decide(doc, cs[j]) && !ds[j].Abort?
    {
    }
    FoldRuns(ds, 0);
  }

  /** Without an abort, every emitted edit is in the applied batch
      (src/key_dot.js:103-106). */
  lemma EmitsApplied(s: Settings, languageId: string, doc: Doc, cs: seq<Cursor>, k: nat)
    requires |cs| >= 1 && ValidCursors(doc, cs)
    requires s.allEnabled && s.dotToPoint && !s.dotToPointDisabledOnce && languageId in Languages
    requires forall j :: 0 <= j < |cs| ==> !Decide(doc, cs[j]).Abort?
    requires k < |cs| && Decide(doc, cs[k]).Emit?
    ensures Spec(s, languageId, doc, cs).outcome.ApplyEdits?
    ensures Decide(doc, cs[k]).edit in Spec(s, languageId, doc, cs).outcome.edits
    ensures Spec(s, languageId, doc, cs).suggest == Suggests(RightOf(doc, cs[0]))
  {
    var ds := Decisions(doc, cs);
    forall j | 0 <= j < |cs|
      ensures !ds[j].Abort?
    {
    }
    assert ds[k].Emit? && ds[k].edit == Decide(doc, cs[k]).edit;
    FoldRuns(ds, 0);
  }

  /** Every edit in the applied batch is the edit some cursor emitted. */
  lemma AppliedAreEmits(s: Settings, languageId: string, doc: Doc, cs: seq<Cursor>, m: nat)
    requires |cs| >= 1 && ValidCursors(doc, cs)
    requires s.allEnabled && s.dotToPoint && !s.dotToPointDisabledOnce && languageId in Languages
    requires Spec(s, languageId, doc, cs).outcome.ApplyEdits?
    requires m < |Spec(s, languageId, doc, cs).outcome.edits|
    ensures exists j :: 0 <= j < |cs| && Decide(doc, cs[j]).Emit? &&
              Decide(doc, cs[j]).edit == Spec(s, languageId, doc, cs).outcome.edits[m]
  {
    var ds := Decisions(doc, cs);
    FoldHalts(ds, 0);
    forall j | 0 <= j < |cs|
      ensures !ds[j].Abort?
    {
    }
    FoldRuns(ds, 0);
    var t := Fold(ds, 0);
    var j :| 0 <= j < |ds| && ds[j].Emit? && ds[j].edit == t.edits[m];
    assert ds[j] == Decide(doc, cs[j]);
  }
}
