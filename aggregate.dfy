/** The multi-cursor bookkeeping both '0' handlers share
    (src/key_zero.js:22-26, 78-98 and src/key0.js:18-22, 60-81): cursors are
    visited from last to first, a `return` inside the loop throws away every
    edit collected so far, and the flags `isAllSkip` / `canSkipIfAllSkip`
    pick the final action. */
module Aggregate {
  import opened Host

  /** What one cursor contributes: the handler ends here (Decline), or the
      cursor yields an edit, whether it is a skip, and whether the text
      right of it starts with ')'. */
  datatype Decision =
    | Decline
    | Resolve(skip: bool, edit: Edit, closerAhead: bool)

  /** The loop's state: ended by a `return`, or the edits collected so far
      with the two flags. */
  datatype Tally =
    | Halted
    | Running(edits: seq<Edit>, allSkip: bool, canSkipIfAllSkip: bool)

  /** One loop iteration. */
  function Absorb(t: Tally, d: Decision): Tally {
    if t.Halted? || d.Decline? then Halted
    else Running(t.edits + [d.edit],
                 t.allSkip && d.skip,
                 t.canSkipIfAllSkip && (d.skip ==> d.closerAhead))
  }

  /** The state after visiting ds[|ds|-1], ..., ds[k]. */
  function Fold(ds: seq<Decision>, k: nat): Tally
    requires k <= |ds|
    decreases |ds| - k
  {
    if k == |ds| then Running([], true, true)
    else Absorb(Fold(ds, k + 1), ds[k])
  }

  /** The action after the loop; `allSkipAction` is the handler's fast path. */
  function Settle(t: Tally, allSkipAction: Outcome): Outcome {
    match t
    case Halted => NoOp
    case Running(edits, allSkip, canSkip) =>
      if !allSkip then ApplyEdits(edits)
      else if canSkip then allSkipAction
      else NoOp
  }

  /** One iteration of the handlers' loop on a cursor that goes through. */
  lemma Step(ds: seq<Decision>, i: nat, edits: seq<Edit>, allSkip: bool, canSkip: bool)
    requires i < |ds| && ds[i].Resolve?
    requires Fold(ds, i + 1) == Running(edits, allSkip, canSkip)
    ensures Fold(ds, i) == Running(edits + [ds[i].edit], allSkip && ds[i].skip,
                                   canSkip && (ds[i].skip ==> ds[i].closerAhead))
  {
  }

  /** The loop ends early exactly when some cursor declines. */
  lemma {:induction false} FoldHalts(ds: seq<Decision>, k: nat)
    requires k <= |ds|
    ensures Fold(ds, k).Halted? <==> exists j :: k <= j < |ds| && ds[j].Decline?
    decreases |ds| - k
  {
    if k < |ds| {
      FoldHalts(ds, k + 1);
      if ds[k].Decline? {
        assert exists j :: k <= j < |ds| && ds[j].Decline?;
      }
    }
  }

  /** Once the loop has returned, visiting more cursors changes nothing. */
  lemma {:induction false} HaltedStays(ds: seq<Decision>, k: nat, j: nat)
    requires k <= j <= |ds| && Fold(ds, j).Halted?
    ensures Fold(ds, k).Halted?
    decreases j - k
  {
    if k < j {
      HaltedStays(ds, k + 1, j);
    }
  }

  /** Without a decline, every cursor contributes its edit, last cursor
      first, and the flags are the conjunctions over all cursors. */
  lemma {:induction false} FoldRuns(ds: seq<Decision>, k: nat)
    requires k <= |ds|
    requires forall j :: k <= j < |ds| ==> ds[j].Resolve?
    ensures Fold(ds, k).Running?
    ensures |Fold(ds, k).edits| == |ds| - k
    ensures forall j :: k <= j < |ds| ==> Fold(ds, k).edits[|ds| - 1 - j] == ds[j].edit
    ensures Fold(ds, k).allSkip <==> forall j :: k <= j < |ds| ==> ds[j].skip
    ensures Fold(ds, k).canSkipIfAllSkip <==>
              forall j :: k <= j < |ds| ==> (ds[j].skip ==> ds[j].closerAhead)
    decreases |ds| - k
  {
    if k < |ds| {
      FoldRuns(ds, k + 1);
    }
  }

  /** The three outcomes of the aggregation, stated over the cursors'
      decisions: any decline discards everything; otherwise one cursor that
      does not skip applies the whole batch (skips included); otherwise the
      fast path is taken only when every cursor has ')' right of it. */
  lemma SettleCases(ds: seq<Decision>, allSkipAction: Outcome)
    ensures (exists j :: 0 <= j < |ds| && ds[j].Decline?) ==>
              Settle(Fold(ds, 0), allSkipAction) == NoOp
    ensures (forall j :: 0 <= j < |ds| ==> ds[j].Resolve?) && (exists j :: 0 <= j < |ds| && !ds[j].skip) ==>
              Settle(Fold(ds, 0), allSkipAction).ApplyEdits? &&
              var edits := Settle(Fold(ds, 0), allSkipAction).edits;
              |edits| == |ds| && forall j :: 0 <= j < |ds| ==> edits[|ds| - 1 - j] == ds[j].edit
    ensures (forall j :: 0 <= j < |ds| ==> ds[j].Resolve? && ds[j].skip) ==>
              Settle(Fold(ds, 0), allSkipAction) ==
                if forall j :: 0 <= j < |ds| ==> ds[j].closerAhead then allSkipAction else NoOp
  {
    FoldHalts(ds, 0);
    if forall j :: 0 <= j < |ds| ==> ds[j].Resolve? {
      FoldRuns(ds, 0);
    }
  }
}
