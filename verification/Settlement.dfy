/** Settlement as a step system: which runs the rules allow, and what holds in all of them. */
module Settlement {
  import opened Common
  import opened ChallengeWindow

  const MAX_PENDING: nat := 4096

  /** One rollup's batches in index order, the chain tip, and the rollup's window. */
  datatype State = State(batches: seq<Batch>, tip: Tip, windowSecs: u64)

  datatype Action =
    | Submit(timed: bool)
    | Advance(to: Tip)
    | Challenge(i: nat)
    | Finalize(i: nat)
    | Reject(i: nat)

  function Pending(bs: seq<Batch>): nat {
    if |bs| == 0 then 0 else Pending(bs[..|bs| - 1]) + if IsFinal(bs[|bs| - 1].status) then 0 else 1
  }

  predicate SettledBefore(bs: seq<Batch>, i: nat) { forall j :: 0 <= j < i && j < |bs| ==> IsFinal(bs[j].status) }

  function WithStatus(bs: seq<Batch>, i: nat, s: Status): (r: seq<Batch>)
    requires i < |bs|
    ensures |r| == |bs|
  {
    bs[i := bs[i].(status := s)]
  }

  /** An upheld fraud rejects the batch and every later one that is not settled yet. */
  function RejectedFrom(bs: seq<Batch>, i: nat): (r: seq<Batch>)
    ensures |r| == |bs|
  {
    seq(|bs|, j requires 0 <= j < |bs| =>
      if j >= i && !IsFinal(bs[j].status) then bs[j].(status := Rejected) else bs[j])
  }

  /** One step: the transition table, the window, in-order finality, and the bound on waiting batches. */
  predicate Step(s: State, a: Action, t: State) {
    && t.windowSecs == s.windowSecs
    && match a
       case Submit(timed) =>
         && Pending(s.batches) < MAX_PENDING && t.tip == s.tip
         && t.batches == s.batches + [Batch(Submitted, s.tip.height, if timed then s.tip.timeSecs else 0)]
       case Advance(to) => Later(s.tip, to) && t.tip == to && t.batches == s.batches
       case Challenge(i) =>
         && i < |s.batches| && Challenged in Transitions(s.batches[i].status)
         && WindowOf(s.batches[i], s.windowSecs, s.tip).open
         && t.tip == s.tip && t.batches == WithStatus(s.batches, i, Challenged)
       case Finalize(i) =>
         && i < |s.batches| && Finalized in Transitions(s.batches[i].status) && SettledBefore(s.batches, i)
         && (s.batches[i].status == Submitted ==> WindowOf(s.batches[i], s.windowSecs, s.tip).finalizable)
         && t.tip == s.tip && t.batches == WithStatus(s.batches, i, Finalized)
       case Reject(i) =>
         && i < |s.batches| && Rejected in Transitions(s.batches[i].status)
         && t.tip == s.tip && t.batches == RejectedFrom(s.batches, i)
  }

  ghost predicate Next(s: State, t: State) { exists a :: Step(s, a, t) }

  predicate Initial(s: State) { s.batches == [] && s.tip.height >= 0 && s.tip.timeSecs >= 0 }

  ghost predicate IsRun(run: seq<State>) {
    && |run| >= 1 && Initial(run[0])
    && forall k :: 0 <= k < |run| - 1 ==> Next(run[k], run[k + 1])
  }

  // ---------------------------------------------------------------------------
  // What every step keeps

  /** No finalized batch has an unsettled one before it. */
  predicate InOrder(bs: seq<Batch>) {
    forall i, j :: 0 <= i < j < |bs| && bs[j].status == Finalized ==> IsFinal(bs[i].status)
  }

  predicate NoneRejected(bs: seq<Batch>) { forall i :: 0 <= i < |bs| ==> bs[i].status != Rejected }

  predicate Wellformed(s: State) {
    && s.tip.height >= 0 && s.tip.timeSecs >= 0
    && (forall i :: 0 <= i < |s.batches| ==> s.batches[i].submittedAt >= 0 && s.batches[i].submittedTime >= 0)
  }

  /** How far a status has come; every move goes up. */
  function Rank(s: Status): nat { match s case Submitted => 0 case Challenged => 1 case _ => 2 }

  /** What one step may do to one batch: keep it, or move it up, leaving when it was submitted alone. */
  predicate MovesUp(b: Batch, c: Batch) {
    c.submittedAt == b.submittedAt && c.submittedTime == b.submittedTime
    && (c.status == b.status || Rank(c.status) > Rank(b.status))
  }

  lemma StepMovesUp(s: State, a: Action, t: State)
    requires Step(s, a, t)
    ensures |s.batches| <= |t.batches| && Later(s.tip, t.tip) && t.windowSecs == s.windowSecs
    ensures forall i :: 0 <= i < |s.batches| ==> MovesUp(s.batches[i], t.batches[i])
  {
    hide WindowOf, Pending;
  }

  lemma StepKeepsOrder(s: State, a: Action, t: State)
    requires Step(s, a, t) && InOrder(s.batches)
    ensures InOrder(t.batches)
  {
    hide WindowOf, Pending;
    StepMovesUp(s, a, t);
  }

  lemma StepWellformed(s: State, a: Action, t: State)
    requires Step(s, a, t) && Wellformed(s)
    ensures Wellformed(t)
  {
    hide WindowOf, Pending;
  }

  lemma {:induction false} PendingMonotone(bs: seq<Batch>, cs: seq<Batch>)
    requires |bs| == |cs| && forall i :: 0 <= i < |bs| ==> MovesUp(bs[i], cs[i])
    ensures Pending(cs) <= Pending(bs)
  {
    if |bs| == 0 {
    } else {
      PendingMonotone(bs[..|bs| - 1], cs[..|cs| - 1]);
      assert MovesUp(bs[|bs| - 1], cs[|cs| - 1]);
    }
  }

  lemma StepKeepsBound(s: State, a: Action, t: State)
    requires Step(s, a, t) && Pending(s.batches) <= MAX_PENDING
    ensures Pending(t.batches) <= MAX_PENDING
  {
    hide WindowOf;
    StepMovesUp(s, a, t);
    if a.Submit? {
      assert t.batches[..|t.batches| - 1] == s.batches;
    } else {
      hide Pending;
      PendingMonotone(s.batches, t.batches);
    }
  }

  /** Every batch was submitted while fewer than the allowed number waited, and no earlier one waits anew. */
  ghost predicate Admitted(bs: seq<Batch>) { forall i :: 0 <= i < |bs| ==> Pending(bs[..i]) < MAX_PENDING }

  lemma StepKeepsAdmission(s: State, a: Action, t: State)
    requires Step(s, a, t) && Admitted(s.batches)
    ensures Admitted(t.batches)
  {
    hide WindowOf, Pending;
    StepMovesUp(s, a, t);
    var bs, cs := s.batches, t.batches;
    forall i | 0 <= i < |cs| ensures Pending(cs[..i]) < MAX_PENDING {
      if i < |bs| {
        PendingMonotone(bs[..i], cs[..i]);
      } else {
        assert a.Submit? && cs[..i] == bs;
      }
    }
  }

  // ---------------------------------------------------------------------------
  // Whole runs

  ghost predicate Good(s: State) {
    Wellformed(s) && InOrder(s.batches) && Pending(s.batches) <= MAX_PENDING && Admitted(s.batches)
  }

  /** In every run finality is in order, at most 4096 batches wait, and fewer waited before each one. */
  lemma {:induction false} RunsAreGood(run: seq<State>, k: nat)
    requires IsRun(run) && k < |run|
    ensures Good(run[k])
  {
    if k == 0 {
    } else {
      RunsAreGood(run, k - 1);
      assert Next(run[k - 1], run[k - 1 + 1]);
      var a :| Step(run[k - 1], a, run[k]);
      hide Step, Pending;
      StepKeepsOrder(run[k - 1], a, run[k]);
      StepWellformed(run[k - 1], a, run[k]);
      StepKeepsBound(run[k - 1], a, run[k]);
      StepKeepsAdmission(run[k - 1], a, run[k]);
    }
  }

  lemma {:induction false} RunMovesUp(run: seq<State>, k: nat, l: nat, i: nat)
    requires IsRun(run) && k <= l < |run| && i < |run[k].batches|
    ensures i < |run[l].batches| && Later(run[k].tip, run[l].tip) && run[l].windowSecs == run[k].windowSecs
    ensures MovesUp(run[k].batches[i], run[l].batches[i])
    decreases l
  {
    if k == l {
    } else {
      RunMovesUp(run, k, l - 1, i);
      assert Next(run[l - 1], run[l - 1 + 1]);
      var a :| Step(run[l - 1], a, run[l]);
      hide Step;
      StepMovesUp(run[l - 1], a, run[l]);
      assert MovesUp(run[l - 1].batches[i], run[l].batches[i]);
    }
  }

  /** A settled batch keeps its status for the rest of the run. */
  lemma FinalIsPermanent(run: seq<State>, k: nat, l: nat, i: nat)
    requires IsRun(run) && k <= l < |run| && i < |run[k].batches| && IsFinal(run[k].batches[i].status)
    ensures i < |run[l].batches| && run[l].batches[i] == run[k].batches[i]
  {
    hide Step;
    RunMovesUp(run, k, l, i);
  }

  /** How often batch i changes status between positions k and l of a run. */
  ghost function Moves(run: seq<State>, k: nat, l: nat, i: nat): nat
    requires k <= l < |run| && forall m :: k <= m <= l ==> i < |run[m].batches|
    decreases l
  {
    if k == l then 0
    else Moves(run, k, l - 1, i) + if run[l].batches[i].status != run[l - 1].batches[i].status then 1 else 0
  }

  lemma {:induction false} MovesBounded(run: seq<State>, k: nat, l: nat, i: nat)
    requires IsRun(run) && k <= l < |run| && i < |run[k].batches|
    ensures forall m :: k <= m <= l ==> i < |run[m].batches|
    ensures Moves(run, k, l, i) <= Rank(run[l].batches[i].status) - Rank(run[k].batches[i].status)
    decreases l
  {
    hide Step;
    forall m | k <= m <= l ensures i < |run[m].batches| { RunMovesUp(run, k, m, i); }
    if k == l {
    } else {
      MovesBounded(run, k, l - 1, i);
      RunMovesUp(run, l - 1, l, i);
    }
  }

  /** No batch moves more than twice. */
  lemma AtMostTwoMoves(run: seq<State>, k: nat, l: nat, i: nat)
    requires IsRun(run) && k <= l < |run| && i < |run[k].batches|
    ensures (forall m :: k <= m <= l ==> i < |run[m].batches|) && Moves(run, k, l, i) <= 2
  {
    hide Step;
    MovesBounded(run, k, l, i);
  }

  /** Along every run a closed window stays closed and a finalizable batch stays finalizable. */
  lemma WindowsNeverReopen(run: seq<State>, k: nat, l: nat, i: nat)
    requires IsRun(run) && k <= l < |run| && i < |run[k].batches|
    ensures i < |run[l].batches|
    ensures var v := WindowOf(run[k].batches[i], run[k].windowSecs, run[k].tip);
            var w := WindowOf(run[l].batches[i], run[l].windowSecs, run[l].tip);
            (w.open ==> v.open) && (v.finalizable ==> w.finalizable)
  {
    hide Step, WindowOf, Pending;
    RunsAreGood(run, k);
    RunMovesUp(run, k, l, i);
    var b, c := run[k].batches[i], run[l].batches[i];
    WindowMonotone(b, run[k].windowSecs, run[k].tip, run[l].tip);
    SameWindow(b, c, run[k].windowSecs, run[l].tip);
  }

  lemma SameWindow(b: Batch, c: Batch, windowSecs: u64, tip: Tip)
    requires b.submittedAt == c.submittedAt && b.submittedTime == c.submittedTime
    ensures WindowOf(b, windowSecs, tip) == WindowOf(c, windowSecs, tip)
  {
  }

  /** While nothing was rejected, every batch after an unsettled one is unsettled. */
  lemma UnsettledIsSuffix(bs: seq<Batch>, i: nat, j: nat)
    requires InOrder(bs) && NoneRejected(bs) && i <= j < |bs| && !IsFinal(bs[i].status)
    ensures !IsFinal(bs[j].status)
  {
  }

  lemma {:induction false} PendingCounts(bs: seq<Batch>, i: nat)
    requires i <= |bs| && forall j :: i <= j < |bs| ==> !IsFinal(bs[j].status)
    ensures Pending(bs) >= |bs| - i
    decreases |bs|
  {
    if i == |bs| {
    } else {
      PendingCounts(bs[..|bs| - 1], i);
    }
  }

  /** While nothing was rejected, every unsettled batch is among the last 4096. */
  lemma UnsettledIsRecent(run: seq<State>, k: nat, i: nat)
    requires IsRun(run) && k < |run| && i < |run[k].batches|
    requires NoneRejected(run[k].batches) && !IsFinal(run[k].batches[i].status)
    ensures i + MAX_PENDING >= |run[k].batches|
  {
    hide Step, Pending;
    RunsAreGood(run, k);
    var bs := run[k].batches;
    forall j | i <= j < |bs| ensures !IsFinal(bs[j].status) { UnsettledIsSuffix(bs, i, j); }
    PendingCounts(bs, i);
  }

  // ---------------------------------------------------------------------------
  // Moves off the transition table

  /** A step moves a batch along the table, except a submitted one behind the batch whose fraud is upheld. */
  lemma StepFollowsTable(s: State, a: Action, t: State, i: nat)
    requires Step(s, a, t) && i < |s.batches| && i < |t.batches| && t.batches[i].status != s.batches[i].status
    ensures t.batches[i].status in Transitions(s.batches[i].status)
       <==> !(a.Reject? && i > a.i && s.batches[i].status == Submitted)
  {
    hide WindowOf, Pending;
  }

  predicate FraudUpheld(before: seq<Batch>, after: seq<Batch>, j: nat) {
    j < |before| && j < |after| && before[j].status == Challenged && after[j].status == Rejected
  }

  /**
   * In every run a batch moves off the table exactly when it goes from submitted to rejected, and then an
   * earlier batch goes from challenged to rejected at the same moment.
   */
  lemma RunFollowsTable(run: seq<State>, k: nat, i: nat)
    requires IsRun(run) && k + 1 < |run| && i < |run[k].batches| && i < |run[k + 1].batches|
    requires run[k + 1].batches[i].status != run[k].batches[i].status
    ensures var before, after := run[k].batches, run[k + 1].batches;
            var offTable := after[i].status !in Transitions(before[i].status);
            && (offTable <==> before[i].status == Submitted && after[i].status == Rejected)
            && (offTable ==> exists j :: 0 <= j < i && FraudUpheld(before, after, j))
  {
    assert Next(run[k], run[k + 1]);
    var a :| Step(run[k], a, run[k + 1]);
    StepFollowsTable(run[k], a, run[k + 1], i);
    hide WindowOf, Pending;
    if a.Reject? && i > a.i {
      assert FraudUpheld(run[k].batches, run[k + 1].batches, a.i);
    }
  }

  function Quiet(statuses: seq<Status>): State {
    State(seq(|statuses|, i requires 0 <= i < |statuses| => Batch(statuses[i], 0, 0)), Tip(0, 0), 6)
  }

  /** The states of a run: two submissions, a challenge of the first batch, and the fraud upheld. */
  function Cascade(): seq<State> {
    [Quiet([]), Quiet([Submitted]), Quiet([Submitted, Submitted]), Quiet([Challenged, Submitted]),
     Quiet([Rejected, Rejected])]
  }

  lemma CascadeSteps()
    ensures Step(Cascade()[0], Submit(false), Cascade()[1]) && Step(Cascade()[1], Submit(false), Cascade()[2])
    ensures Step(Cascade()[2], Challenge(0), Cascade()[3]) && Step(Cascade()[3], Reject(0), Cascade()[4])
  {
    assert Pending([]) == 0;
    assert Pending(Quiet([Submitted]).batches) <= 1;
  }

  /** A run in which the second batch goes from submitted to rejected, a move the table does not have. */
  lemma CascadeLeavesTable()
    ensures IsRun(Cascade()) && Rejected !in Transitions(Submitted)
    ensures Cascade()[3].batches[1].status == Submitted && Cascade()[4].batches[1].status == Rejected
  {
    hide Step;
    CascadeSteps();
    var run := Cascade();
    assert Next(run[0], run[1]) && Next(run[1], run[2]) && Next(run[2], run[3]) && Next(run[3], run[4]);
  }

  // ---------------------------------------------------------------------------
  // The windows are respected

  /** When a batch's window closes: a time if it records one, a height otherwise. */
  predicate BeforeDeadline(b: Batch, windowSecs: u64, tip: Tip) {
    if b.submittedTime > 0 then tip.timeSecs < b.submittedTime + windowSecs
    else tip.height <= b.submittedAt + windowSecs / 6
  }

  predicate FromDeadline(b: Batch, windowSecs: u64, tip: Tip) {
    if b.submittedTime > 0 then tip.timeSecs >= b.submittedTime + windowSecs
    else tip.height >= b.submittedAt + windowSecs / 6
  }

  /**
   * In every run a batch is challenged only up to its deadline, finalized unchallenged only from it on, and
   * finalized at all only when every earlier batch is final.
   */
  lemma WindowsAreRespected(run: seq<State>, k: nat, i: nat)
    requires IsRun(run) && k + 1 < |run| && i < |run[k].batches| && i < |run[k + 1].batches|
    ensures var before, after := run[k].batches[i], run[k + 1].batches[i];
            && (before.status != Challenged && after.status == Challenged ==>
                  before.status == Submitted && BeforeDeadline(before, run[k].windowSecs, run[k].tip))
            && (before.status == Submitted && after.status == Finalized ==>
                  FromDeadline(before, run[k].windowSecs, run[k].tip))
            && (before.status != Finalized && after.status == Finalized ==>
                  forall j :: 0 <= j < i ==> IsFinal(run[k].batches[j].status))
  {
    RunsAreGood(run, k);
    assert Next(run[k], run[k + 1]);
    var a :| Step(run[k], a, run[k + 1]);
    hide WindowOf, Pending, InOrder, Admitted;
    WindowMeaning(run[k].batches[i], run[k].windowSecs, run[k].tip);
  }
}
