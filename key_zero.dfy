/** The '0' to ')' handler with the literal-versus-closer heuristic
    (src/key_zero.js). On each '0' it decides, per cursor, whether the digit
    is a literal (the handler ends without touching anything) or a stand-in
    for ')', which is then inserted or, when the parentheses on the line are
    already balanced, simply dropped. */
module KeyZero {
  import opened Text
  import opened Pattern
  import opened Host
  import opened Balance
  import opened Aggregate

  /** The document languages the handler acts on. */
  const Languages: seq<string> := ["c", "cpp", "java", "js", "javascript", "jsp", "php", "cs"]

  /** `/\D0$/.test(left) && right.startsWith(')')`: a lone '0' already left
      of the cursor and ')' right of it, the one digit context let through. */
  predicate SoleZeroBeforeCloser(left: string, right: string) {
    |left| >= 2 && left[|left| - 1] == '0' && !IsDigit(left[|left| - 2]) && StartsWith(right, ")")
  }

  /** `/(\+\+|\-\-)$/` */
  predicate EndsWithIncDec(left: string) {
    EndsWith(left, "++") || EndsWith(left, "--")
  }

  /** `/[ =\+\-*\/%\.<>]$/` */
  predicate EndsWithOperator(left: string) {
    |left| > 0 && left[|left| - 1] in " =+-*/%.<>"
  }

  /** "set" at i followed by at least one word character up to a final '(' */
  predicate SetterFrom(left: string, i: int) {
    0 <= i && i + 3 < |left| - 1 && left[i] == 's' && left[i + 1] == 'e' && left[i + 2] == 't'
    && (forall k :: i + 3 <= k < |left| - 1 ==> IsWordChar(left[k]))
    && left[|left| - 1] == '('
  }

  /** `/(at|insert|of|remove|add|set\w+)\($/` (there is no `\b` before the
      name, so "format(" ends in "at(" too) */
  predicate EndsWithCallOpen(left: string) {
    EndsWith(left, "at(") || EndsWith(left, "insert(") || EndsWith(left, "of(")
    || EndsWith(left, "remove(") || EndsWith(left, "add(")
    || exists i :: 0 <= i < |left| && SetterFrom(left, i)
  }

  /** `full.match(new RegExp("\\b" + word, 'g')).length > 1`; no match at
      all makes `match` return `null`, and reading its length throws, which
      ends the handler just as the `return` does. */
  predicate RepeatedWordStops(word: string, full: string) {
    Occurrences(word, full) == 0 || Occurrences(word, full) > 1
  }

  /** The layers of src/key_zero.js:41-59, first match wins: true when the
      cursor goes on to the parenthesis count, false when the handler
      returns. */
  predicate CloserCandidate(left: string, right: string, word: string, full: string) {
    if !SoleZeroBeforeCloser(left, right) && (EndsWithDigit(left) || StartsWithDigit(right)) then false
    else if EndsWithIncDec(left) then true
    else if EndsWithOperator(left) then false
    else if EndsWithCallOpen(left) && StartsWith(right, ")") then false
    else if EndsWithWordChar(left) && RepeatedWordStops(word, full) then false
    else true
  }

  /** What one cursor contributes. A cursor at column 0 ends the handler:
      `new vscode.Position(line, -1)` throws. */
  function Decide(doc: Doc, c: Cursor): Decision
    requires ValidCursor(doc, c)
  {
    if c.pos.character == 0 then Decline
    else
      var ctx := ContextOf(doc, c);
      if ctx.inpt != "0" || !CloserCandidate(ctx.left, ctx.right, c.word, Full(doc)) then Decline
      else
        var skip := Balanced(ctx.left, ctx.right);
        Resolve(skip,
                Edit(c.pos.line, c.pos.character - 1, c.pos.character, if skip then "" else ")"),
                StartsWith(ctx.right, ")"))
  }

  function Decisions(doc: Doc, cs: seq<Cursor>): seq<Decision>
    requires ValidCursors(doc, cs)
  {
    seq(|cs|, j requires 0 <= j < |cs| => Decide(doc, cs[j]))
  }

  /** The whole invocation. The fast path is the delayed re-check at the
      first cursor, the one the loop visits last. */
  function Spec(s: Settings, languageId: string, doc: Doc, cs: seq<Cursor>): Outcome
    requires |cs| >= 1 && ValidCursors(doc, cs)
  {
    if !s.allEnabled || !s.numberToParentheses then NoOp
    else if languageId !in Languages then NoOp
    else Settle(Fold(Decisions(doc, cs), 0), RecheckThenDeleteAndAdvance(cs[0].pos))
  }

  /** The body of the cursor loop up to the edit: the typed character, the
      layers, the two counting loops (src/key_zero.js:28-90). */
  method DecideCursor(doc: Doc, full: string, c: Cursor) returns (d: Decision)
    requires ValidCursor(doc, c) && full == Full(doc)
    ensures d == Decide(doc, c)
  {
    var position := c.pos;
    if position.character == 0 {
      return Decline;
    }
    var ctx := Split(doc.lines[position.line], position.character);
    var left, inpt, right := ctx.left, ctx.inpt, ctx.right;
    if inpt != "0" || !CloserCandidate(left, right, c.word, full) {
      return Decline;
    }
    var ll, lr := CountParens(left);
    var rl, rr := CountParens(right);
    var isSkip := ll + rl <= lr + rr;
    var newText := if isSkip then "" else ")";
    d := Resolve(isSkip, Edit(position.line, position.character - 1, position.character, newText),
                 |right| != 0 && right[..1] == ")");
  }

  /** `provideCompletionItems`: the reverse loop over the cursors, where a
      declining cursor returns at once, and the flags that pick the action. */
  method Provide(s: Settings, languageId: string, doc: Doc, cs: seq<Cursor>) returns (outcome: Outcome)
    requires |cs| >= 1 && ValidCursors(doc, cs)
    ensures outcome == Spec(s, languageId, doc, cs)
  {
    if !s.allEnabled || !s.numberToParentheses {
      return NoOp;
    }
    if languageId !in Languages {
      return NoOp;
    }
    ghost var ds := Decisions(doc, cs);
    var full := Full(doc);
    var textEdits: seq<Edit> := [];
    var isAllSkip, canSkipIfAllSkip := true, true;
    var i := |cs|;
    while i > 0
      invariant 0 <= i <= |cs|
      invariant Fold(ds, i) == Running(textEdits, isAllSkip, canSkipIfAllSkip)
    {
      i := i - 1;
      var d := DecideCursor(doc, full, cs[i]);
      assert d == ds[i];
      if d.Decline? {
        HaltedStays(ds, 0, i);
        return NoOp;
      }
      Step(ds, i, textEdits, isAllSkip, canSkipIfAllSkip);
      if !d.skip {
        isAllSkip := false;
      } else if !d.closerAhead {
        canSkipIfAllSkip := false;
      }
      textEdits := textEdits + [d.edit];
    }
    if !isAllSkip {
      outcome := ApplyEdits(textEdits);
    } else if canSkipIfAllSkip {
      outcome := RecheckThenDeleteAndAdvance(cs[0].pos);
    } else {
      outcome := NoOp;
    }
  }

  /** The timer callback's test on the re-read word and document
      (src/key_zero.js:101-104): the word must still end in '0', and a word
      found more than once stops it, as does one not found at all (reading
      the length of `null` throws). */
  predicate RecheckPasses(word: string, full: string) {
    EndsWith(word, "0") && !(EndsWithWordChar(word) && RepeatedWordStops(word, full))
  }

  /** The re-check lets the deletion through exactly when the word still
      ends in the typed '0' and occurs once in the document. */
  lemma RecheckOnce(word: string, full: string)
    ensures RecheckPasses(word, full) <==> EndsWith(word, "0") && Occurrences(word, full) == 1
  {
    if EndsWith(word, "0") {
      EndsWithLast(word, "0");
    }
  }

  /** For an identifier word, the re-check lets the deletion through
      exactly when the word still ends in the typed '0' and `\bword`
      matches at one place only in the re-read document. */
  lemma RecheckSoleOccurrence(word: string, full: string)
    requires AllWordChars(word)
    ensures RecheckPasses(word, full) <==> EndsWith(word, "0") && SoleWordStart(word, full)
  {
    RecheckOnce(word, full);
    if EndsWith(word, "0") {
      OccurrencesCases(word, full);
    }
  }

  /** The digit layer lets the cursor through: no digit on either side of
      the typed '0', or the lone '0' before ')'. */
  predicate PassesDigitLayer(left: string, right: string) {
    SoleZeroBeforeCloser(left, right) || !(EndsWithDigit(left) || StartsWithDigit(right))
  }

  /** After a word character that the digit layer lets through, no other
      layer before the word test can fire, and the word test stops the
      handler exactly when the identifier starts nowhere in the document
      or at two places or more. */
  lemma WordTestDecides(left: string, right: string, word: string, full: string)
    requires EndsWithWordChar(left) && PassesDigitLayer(left, right)
    requires |word| > 0 && AllWordChars(word)
    ensures CloserCandidate(left, right, word, full) <==>
              !(NoWordStart(word, full) || TwoWordStarts(word, full))
  {
    if EndsWithIncDec(left) {
      IncDecEndsInSign(left);
    }
    if EndsWithCallOpen(left) {
      CallOpenEndsInParen(left);
    }
    OccurrencesCases(word, full);
  }

  /** A digit right of the cursor always marks a literal. */
  lemma DigitRightDeclines(left: string, right: string, word: string, full: string)
    requires StartsWithDigit(right)
    ensures !CloserCandidate(left, right, word, full)
  {
  }

  /** A digit left of the typed '0' marks it as a literal, unless it is
      the lone '0' before ')' that the first layer lets through. */
  lemma LeftDigitDeclines(left: string, right: string, word: string, full: string)
    requires EndsWithDigit(left) && !SoleZeroBeforeCloser(left, right)
    ensures !CloserCandidate(left, right, word, full)
  {
  }

  /** A lone '0' already left of the cursor with ')' right of it passes the
      digit layer and every later one up to the repeated-word test, which
      alone decides. */
  lemma SoleZeroGoesToWordTest(left: string, right: string, word: string, full: string)
    requires SoleZeroBeforeCloser(left, right)
    ensures CloserCandidate(left, right, word, full) <==> !RepeatedWordStops(word, full)
  {
    if EndsWithIncDec(left) {
      IncDecEndsInSign(left);
    }
    if EndsWithCallOpen(left) {
      CallOpenEndsInParen(left);
    }
  }

  /** "++" and "--" win over the operator class that holds '+' and '-'. */
  lemma IncDecWins(left: string, right: string, word: string, full: string)
    requires EndsWithIncDec(left) && !StartsWithDigit(right)
    ensures CloserCandidate(left, right, word, full)
  {
    IncDecEndsInSign(left);
  }

  /** After a space or any other operator the digit is a literal. */
  lemma OperatorDeclines(left: string, right: string, word: string, full: string)
    requires EndsWithOperator(left) && !EndsWithIncDec(left)
    ensures !CloserCandidate(left, right, word, full)
  {
  }

  /** `at(0)`, `insert(0)`, `setX(0)`, ...: the digit is an argument. */
  lemma KnownCallDeclines(left: string, right: string, word: string, full: string)
    requires EndsWithCallOpen(left) && StartsWith(right, ")")
    ensures !CloserCandidate(left, right, word, full)
  {
    CallOpenEndsInParen(left);
    assert right[0] == ")"[0];
    if EndsWithIncDec(left) {
      IncDecEndsInSign(left);
    }
  }

  lemma CallOpenEndsInParen(left: string)
    requires EndsWithCallOpen(left)
    ensures |left| > 0 && left[|left| - 1] == '('
  {
    if EndsWith(left, "at(") {
      EndsWithLast(left, "at(");
    } else if EndsWith(left, "insert(") {
      EndsWithLast(left, "insert(");
    } else if EndsWith(left, "of(") {
      EndsWithLast(left, "of(");
    } else if EndsWith(left, "remove(") {
      EndsWithLast(left, "remove(");
    } else if EndsWith(left, "add(") {
      EndsWithLast(left, "add(");
    }
  }

  lemma IncDecEndsInSign(left: string)
    requires EndsWithIncDec(left)
    ensures |left| > 0 && (left[|left| - 1] == '+' || left[|left| - 1] == '-')
  {
    if EndsWith(left, "++") {
      EndsWithLast(left, "++");
    } else {
      EndsWithLast(left, "--");
    }
  }

  /** A word found twice in the document is a real identifier ending in 0. */
  lemma RepeatedWordDeclines(left: string, right: string, word: string, full: string)
    requires EndsWithWordChar(left) && Occurrences(word, full) >= 2
    ensures !CloserCandidate(left, right, word, full)
  {
    if EndsWithIncDec(left) {
      IncDecEndsInSign(left);
    }
    if EndsWithCallOpen(left) {
      CallOpenEndsInParen(left);
    }
  }

  /** Two occurrences of an identifier word at word starts in the document
      stop the conversion after that word. */
  lemma RepeatedIdentifierDeclines(left: string, right: string, word: string, full: string, i: nat, j: nat)
    requires EndsWithWordChar(left)
    requires |word| > 0 && AllWordChars(word)
    requires i < j <= |full|
    requires MatchAt(WordStart(word), full, i) && MatchAt(WordStart(word), full, j)
    ensures !CloserCandidate(left, right, word, full)
  {
    CountSeesTwo(word, full, 0, i, j);
    RepeatedWordDeclines(left, right, word, full);
  }

  /** Each edit replaces exactly the typed '0' (columns c-1 to c): by
      nothing when the cursor's parentheses are balanced, by ')' otherwise. */
  lemma EditReplacesTypedZero(doc: Doc, c: Cursor)
    requires ValidCursor(doc, c) && Decide(doc, c).Resolve?
    ensures c.pos.character >= 1
    ensures var ctx := ContextOf(doc, c);
            var d := Decide(doc, c);
            LineOf(doc, c) == ctx.left + "0" + ctx.right &&
            d.edit.line == c.pos.line && d.edit.start == c.pos.character - 1 && d.edit.end == c.pos.character &&
            (d.skip <==> Balanced(ctx.left, ctx.right)) &&
            (d.closerAhead <==> StartsWith(ctx.right, ")")) &&
            ApplyToLine(LineOf(doc, c), d.edit) == ctx.left + (if d.skip then "" else ")") + ctx.right
  {
    var ctx := ContextOf(doc, c);
    var line := LineOf(doc, c);
    var col := c.pos.character;
    assert line[..col - 1] == ctx.left && line[col..] == ctx.right;
  }

  /** One declining cursor discards the edits of all the others. */
  lemma DeclineDiscardsAll(s: Settings, languageId: string, doc: Doc, cs: seq<Cursor>, k: nat)
    requires |cs| >= 1 && ValidCursors(doc, cs)
    requires k < |cs| && Decide(doc, cs[k]).Decline?
    ensures Spec(s, languageId, doc, cs) == NoOp
  {
    var ds := Decisions(doc, cs);
    assert ds[k].Decline?;
    SettleCases(ds, RecheckThenDeleteAndAdvance(cs[0].pos));
  }

  /** One cursor that needs ')' applies every cursor's edit, the removals
      of the skipping cursors too, last cursor first. */
  lemma CloserAppliesBatch(s: Settings, languageId: string, doc: Doc, cs: seq<Cursor>, k: nat)
    requires |cs| >= 1 && ValidCursors(doc, cs)
    requires s.allEnabled && s.numberToParentheses && languageId in Languages
    requires forall j :: 0 <= j < |cs| ==> Decide(doc, cs[j]).Resolve?
    requires k < |cs| && !Decide(doc, cs[k]).skip
    ensures Spec(s, languageId, doc, cs).ApplyEdits?
    ensures |Spec(s, languageId, doc, cs).edits| == |cs|
    ensures forall j :: 0 <= j < |cs| ==>
              Spec(s, languageId, doc, cs).edits[|cs| - 1 - j] == Decide(doc, cs[j]).edit
  {
    var ds := Decisions(doc, cs);
    forall j | 0 <= j < |cs|
      ensures ds[j].Resolve? && ds[j].edit == Decide(doc, cs[j]).edit
    {
    }
    assert !ds[k].skip;
    FoldRuns(ds, 0);
    var t := Fold(ds, 0);
    assert !t.allSkip;
    assert Spec(s, languageId, doc, cs) == ApplyEdits(t.edits);
    forall j | 0 <= j < |cs|
      ensures t.edits[|cs| - 1 - j] == Decide(doc, cs[j]).edit
    {
      assert |ds| == |cs|;
      assert t.edits[|ds| - 1 - j] == ds[j].edit;
      assert ds[j].edit == Decide(doc, cs[j]).edit;
    }
  }

  /** Every cursor skipping: the re-check path when every cursor has ')'
      right of it, nothing otherwise. */
  lemma AllSkipPath(s: Settings, languageId: string, doc: Doc, cs: seq<Cursor>)
    requires |cs| >= 1 && ValidCursors(doc, cs)
    requires s.allEnabled && s.numberToParentheses && languageId in Languages
    requires forall j :: 0 <= j < |cs| ==> Decide(doc, cs[j]).Resolve? && Decide(doc, cs[j]).skip
    ensures (forall j :: 0 <= j < |cs| ==> Decide(doc, cs[j]).closerAhead) ==>
              Spec(s, languageId, doc, cs) == RecheckThenDeleteAndAdvance(cs[0].pos)
    ensures (exists j :: 0 <= j < |cs| && !Decide(doc, cs[j]).closerAhead) ==>
              Spec(s, languageId, doc, cs) == NoOp
  {
    var ds := Decisions(doc, cs);
    forall j | 0 <= j < |cs|
      ensures ds[j].Resolve? && ds[j].skip && (ds[j].closerAhead <==> Decide(doc, cs[j]).closerAhead)
    {
    }
    FoldRuns(ds, 0);
    var t := Fold(ds, 0);
    assert t.allSkip;
    assert Spec(s, languageId, doc, cs) == if t.canSkipIfAllSkip then RecheckThenDeleteAndAdvance(cs[0].pos) else NoOp;
  }
}
