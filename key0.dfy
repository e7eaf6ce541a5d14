/** The earlier '0' to ')' balancer (src/key0.js): no literal-versus-closer
    layers beyond digit adjacency, and every collected edit writes ')'. */
module Key0 {
  import opened Text
  import opened Host
  import opened Balance
  import opened Aggregate

  /** The typed '0' continues a number: a digit on either side of it. */
  predicate DigitAdjacent(left: string, right: string) {
    EndsWithDigit(left) || StartsWithDigit(right)
  }

  /** What one cursor contributes (src/key0.js:24-70). A cursor at column 0
      ends the handler: `new vscode.Position(line, -1)` throws. */
  function Decide(doc: Doc, c: Cursor): Decision
    requires ValidCursor(doc, c)
  {
    if c.pos.character == 0 then Decline
    else
      var ctx := ContextOf(doc, c);
      if ctx.inpt != "0" || DigitAdjacent(ctx.left, ctx.right) then Decline
      else
        Resolve(Balanced(ctx.left, ctx.right),
                Edit(c.pos.line, c.pos.character - 1, c.pos.character, ")"),
                StartsWith(ctx.right, ")"))
  }

  function Decisions(doc: Doc, cs: seq<Cursor>): seq<Decision>
    requires ValidCursors(doc, cs)
  {
    seq(|cs|, j requires 0 <= j < |cs| => Decide(doc, cs[j]))
  }

  /** The whole invocation; the fast path runs the two commands at once. */
  function Spec(s: Settings, doc: Doc, cs: seq<Cursor>): Outcome
    requires ValidCursors(doc, cs)
  {
    if !s.allEnabled || !s.numberToParentheses then NoOp
    else Settle(Fold(Decisions(doc, cs), 0), DeleteAndAdvance)
  }

  /** The body of the cursor loop up to the edit, with its two index loops
      over the line (src/key0.js:24-67). */
  method DecideCursor(doc: Doc, c: Cursor) returns (d: Decision)
    requires ValidCursor(doc, c)
    ensures d == Decide(doc, c)
  {
    var position := c.pos;
    if position.character == 0 {
      return Decline;
    }
    var ctx := Split(doc.lines[position.line], position.character);
    var left, inpt, right := ctx.left, ctx.inpt, ctx.right;
    if inpt != "0" {
      return Decline;
    }
    if DigitAdjacent(left, right) {
      return Decline;
    }
    var ll, lr := CountParens(left);
    var rl, rr := CountParens(right);
    var isSkip := ll + rl <= lr + rr;
    d := Resolve(isSkip, Edit(position.line, position.character - 1, position.character, ")"),
                 |right| != 0 && right[..1] == ")");
  }

  /** `provideCompletionItems`: the reverse loop over the cursors and the
      flags that pick the action (src/key0.js:16-81). */
  method Provide(s: Settings, doc: Doc, cs: seq<Cursor>) returns (outcome: Outcome)
    requires ValidCursors(doc, cs)
    ensures outcome == Spec(s, doc, cs)
  {
    if !s.allEnabled || !s.numberToParentheses {
      return NoOp;
    }
    ghost var ds := Decisions(doc, cs);
    var textEdits: seq<Edit> := [];
    var isAllSkip, canSkipIfAllSkip := true, true;
    var i := |cs|;
    while i > 0
      invariant 0 <= i <= |cs|
      invariant Fold(ds, i) == Running(textEdits, isAllSkip, canSkipIfAllSkip)
    {
      i := i - 1;
      var d := DecideCursor(doc, cs[i]);
      assert d == ds[i];
      if d.Decline? {
        HaltedStays(ds, 0, i);
        return NoOp;
      }
      Step(ds, i, textEdits, isAllSkip, canSkipIfAllSkip);
      if !d.skip {
        isAllSkip := false;
      } else if !d.closerAhead {
        canSkipIfAllSkip := false;
      }
      textEdits := textEdits + [d.edit];
    }
    if !isAllSkip {
      outcome := ApplyEdits(textEdits);
    } else if canSkipIfAllSkip {
      outcome := DeleteAndAdvance;
    } else {
      outcome := NoOp;
    }
  }

  /** Any digit next to the typed '0' ends the handler; unlike the later
      handler there is no exception for a lone '0' before ')'. */
  lemma DigitAdjacentDeclines(doc: Doc, c: Cursor)
    requires ValidCursor(doc, c) && c.pos.character >= 1
    requires EndsWithDigit(ContextOf(doc, c).left) || StartsWithDigit(ContextOf(doc, c).right)
    ensures Decide(doc, c).Decline?
  {
  }

  /** A cursor that goes through yields ')' in place of the typed '0'
      whether or not it skips, and skips exactly when balanced. */
  lemma EditAlwaysCloser(doc: Doc, c: Cursor)
    requires ValidCursor(doc, c) && Decide(doc, c).Resolve?
    ensures c.pos.character >= 1
    ensures var ctx := ContextOf(doc, c);
            var d := Decide(doc, c);
            LineOf(doc, c) == ctx.left + "0" + ctx.right &&
            d.edit.line == c.pos.line && d.edit.start == c.pos.character - 1 && d.edit.end == c.pos.character &&
            (d.skip <==> Balanced(ctx.left, ctx.right)) &&
            (d.closerAhead <==> StartsWith(ctx.right, ")")) &&
            ApplyToLine(LineOf(doc, c), d.edit) == ctx.left + ")" + ctx.right
  {
    var ctx := ContextOf(doc, c);
    var line := LineOf(doc, c);
    var col := c.pos.character;
    assert line[..col - 1] == ctx.left && line[col..] == ctx.right;
  }

  /** One declining cursor discards the edits of all the others. */
  lemma DeclineDiscardsAll(s: Settings, doc: Doc, cs: seq<Cursor>, k: nat)
    requires ValidCursors(doc, cs)
    requires k < |cs| && Decide(doc, cs[k]).Decline?
    ensures Spec(s, doc, cs) == NoOp
  {
    var ds := Decisions(doc, cs);
    assert ds[k].Decline?;
    SettleCases(ds, DeleteAndAdvance);
  }

  /** One unbalanced cursor applies every cursor's ')' edit, the skipping
      cursors' too, last cursor first. */
  lemma CloserAppliesBatch(s: Settings, doc: Doc, cs: seq<Cursor>, k: nat)
    requires ValidCursors(doc, cs)
    requires s.allEnabled && s.numberToParentheses
    requires forall j :: 0 <= j < |cs| ==> Decide(doc, cs[j]).Resolve?
    requires k < |cs| && !Decide(doc, cs[k]).skip
    ensures Spec(s, doc, cs).ApplyEdits?
    ensures |Spec(s, doc, cs).edits| == |cs|
    ensures forall j :: 0 <= j < |cs| ==> Spec(s, doc, cs).edits[|cs| - 1 - j] == Decide(doc, cs[j]).edit
  {
    var ds := Decisions(doc, cs);
    forall j | 0 <= j < |cs|
      ensures ds[j].Resolve? && ds[j].edit == Decide(doc, cs[j]).edit
    {
    }
    assert !ds[k].skip;
    FoldRuns(ds, 0);
    var t := Fold(ds, 0);
    assert !t.allSkip;
    assert Spec(s, doc, cs) == ApplyEdits(t.edits);
    forall j | 0 <= j < |cs|
      ensures t.edits[|cs| - 1 - j] == Decide(doc, cs[j]).edit
    {
      assert |ds| == |cs|;
      assert t.edits[|ds| - 1 - j] == ds[j].edit;
      assert ds[j].edit == Decide(doc, cs[j]).edit;
    }
  }

  /** Every cursor balanced: delete-and-advance when every cursor has ')'
      right of it, nothing otherwise. */
  lemma AllSkipPath(s: Settings, doc: Doc, cs: seq<Cursor>)
    requires ValidCursors(doc, cs)
    requires s.allEnabled && s.numberToParentheses
    requires forall j :: 0 <= j < |cs| ==> Decide(doc, cs[j]).Resolve? && Decide(doc, cs[j]).skip
    ensures (forall j :: 0 <= j < |cs| ==> Decide(doc, cs[j]).closerAhead) ==>
              Spec(s, doc, cs) == DeleteAndAdvance
    ensures (exists j :: 0 <= j < |cs| && !Decide(doc, cs[j]).closerAhead) ==>
              Spec(s, doc, cs) == NoOp
  {
    var ds := Decisions(doc, cs);
    forall j | 0 <= j < |cs|
      ensures ds[j].Resolve? && ds[j].skip && (ds[j].closerAhead <==> Decide(doc, cs[j]).closerAhead)
    {
    }
    FoldRuns(ds, 0);
  }
}
