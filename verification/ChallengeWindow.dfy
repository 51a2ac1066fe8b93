/** Batch statuses and the two-mode challenge window. */
module ChallengeWindow {
  import opened Common

  datatype Status = Submitted | Challenged | Finalized | Rejected

  /** BatchTransitions. */
  function Transitions(s: Status): seq<Status> {
    match s
    case Submitted => [Finalized, Challenged]
    case Challenged => [Rejected, Finalized]
    case Finalized => []
    case Rejected => []
  }

  /** IsBatchFinal. */
  predicate IsFinal(s: Status) { |Transitions(s)| == 0 }

  /** The moves a batch can make: a submitted one is finalized or challenged, a challenged one rejected or finalized. */
  const MOVES: set<(Status, Status)> :=
    {(Submitted, Finalized), (Submitted, Challenged), (Challenged, Rejected), (Challenged, Finalized)}

  /** The table has these moves and no others, so settled batches are exactly those with none. */
  lemma TableIsMoves(s: Status, t: Status)
    ensures t in Transitions(s) <==> (s, t) in MOVES
    ensures IsFinal(s) <==> s == Finalized || s == Rejected
  {
    match s case Submitted => case Challenged => case Finalized => case Rejected =>
  }

  datatype Batch = Batch(status: Status, submittedAt: i64, submittedTime: i64)

  datatype Tip = Tip(height: i64, timeSecs: i64)

  datatype Mode = Time | Blocks

  datatype Window = Window(mode: Mode, open: bool, finalizable: bool, deadlineSecs: i64, secondsRemaining: i64,
                           windowBlocks: i64, deadlineHeight: i64, blocksRemaining: i64)

  /** 64-bit two's complement: what an int64 operation leaves of an integer. */
  function Wrap(n: int): (r: i64)
    ensures -TWO_63 <= n < TWO_63 ==> r == n
  {
    (n + TWO_63) % TWO_64 - TWO_63
  }

  /** BatchChallengeWindow, machine arithmetic included. */
  function WindowOf(b: Batch, windowSecs: u64, tip: Tip): Window {
    if b.submittedTime > 0 then
      var elapsed := Wrap(tip.timeSecs - b.submittedTime);
      var full := elapsed >= 0 && elapsed >= windowSecs;
      var deadline := Wrap(b.submittedTime + Wrap(windowSecs));
      Window(Time, !full, full, deadline, Wrap(deadline - tip.timeSecs), 0, 0, 0)
    else
      var blocks := Wrap(windowSecs / 6);
      var since := Wrap(tip.height - b.submittedAt);
      var deadline := Wrap(b.submittedAt + blocks);
      Window(Blocks, since <= blocks, since >= blocks, 0, 0, blocks, deadline, Wrap(deadline - tip.height))
  }

  /** Heights and times as chains produce them. */
  predicate Natural(b: Batch, tip: Tip) {
    b.submittedAt >= 0 && b.submittedTime >= 0 && tip.height >= 0 && tip.timeSecs >= 0
  }

  /** In exact integers: a closing time in one mode, a closing height in the other, for every window. */
  lemma WindowMeaning(b: Batch, windowSecs: u64, tip: Tip)
    requires Natural(b, tip)
    ensures var w := WindowOf(b, windowSecs, tip);
            if b.submittedTime > 0 then
              && (w.open <==> tip.timeSecs < b.submittedTime + windowSecs)
              && (w.finalizable <==> tip.timeSecs >= b.submittedTime + windowSecs)
            else
              && (w.open <==> tip.height <= b.submittedAt + windowSecs / 6)
              && (w.finalizable <==> tip.height >= b.submittedAt + windowSecs / 6)
  {
    hide Wrap;
    assert windowSecs / 6 < TWO_63;
  }

  /** Wrapping is exact precisely inside the range, and may be put off to the end of a sum or difference. */
  lemma WrapFacts(a: int, b: int, c: int)
    requires 0 <= a < TWO_64 && 0 <= b < TWO_64 && 0 <= c < TWO_64
    ensures Wrap(a + b) == a + b <==> a + b < TWO_63
    ensures Wrap(a + Wrap(b)) == Wrap(a + b) && Wrap(Wrap(a + b) - c) == Wrap(a + b - c)
  {
  }

  /** A wrapped distance is the distance, and has its sign, exactly in these ranges. */
  lemma WrapDistance(d: int)
    requires -TWO_63 < d < TWO_64 + TWO_63
    ensures Wrap(d) == d <==> d < TWO_63
    ensures (Wrap(d) > 0 <==> d > 0) <==> d < TWO_63 || d > TWO_64
    ensures d < TWO_64 ==> ((Wrap(d) >= 0 <==> d >= 0) <==> d < TWO_63)
    ensures d < TWO_64 ==> ((Wrap(d) <= 0 <==> d <= 0) <==> d < TWO_63)
  {
  }

  /**
   * The reported deadline is submission plus window exactly when that is an int64. What remains is its
   * distance from the tip exactly when the distance is an int64, whether or not the deadline is; its sign
   * tells an open window from a closed one exactly when the distance is an int64 or, in time mode, above 2^64.
   */
  lemma DeadlineExact(b: Batch, windowSecs: u64, tip: Tip)
    requires Natural(b, tip)
    ensures var w := WindowOf(b, windowSecs, tip);
            if b.submittedTime > 0 then
              var due := b.submittedTime + windowSecs;
              var away := due - tip.timeSecs;
              && w.mode == Time && w.windowBlocks == 0 && w.deadlineHeight == 0 && w.blocksRemaining == 0
              && (w.deadlineSecs == due <==> due < TWO_63)
              && (w.secondsRemaining == away <==> away < TWO_63)
              && ((w.open <==> w.secondsRemaining > 0) <==> away < TWO_63 || away > TWO_64)
            else
              var due := b.submittedAt + windowSecs / 6;
              var away := due - tip.height;
              && w.mode == Blocks && w.deadlineSecs == 0 && w.secondsRemaining == 0 && w.windowBlocks == windowSecs / 6
              && (w.deadlineHeight == due <==> due < TWO_63)
              && (w.blocksRemaining == away <==> away < TWO_63)
              && ((w.open <==> w.blocksRemaining >= 0) <==> away < TWO_63)
              && ((w.finalizable <==> w.blocksRemaining <= 0) <==> away < TWO_63)
  {
    hide Wrap;
    WindowMeaning(b, windowSecs, tip);
    if b.submittedTime > 0 {
      WrapFacts(b.submittedTime, windowSecs, tip.timeSecs);
      WrapDistance(b.submittedTime + windowSecs - tip.timeSecs);
    } else {
      var blocks := windowSecs / 6;
      assert blocks < TWO_63 && Wrap(blocks) == blocks;
      WrapFacts(b.submittedAt, blocks, tip.height);
      WrapDistance(b.submittedAt + blocks - tip.height);
    }
  }

  /** A deadline past the int64 range is reported wrong while what remains is still right. */
  lemma WrongDeadlineRightRemainder()
    ensures var w := WindowOf(Batch(Submitted, 0, 1), TWO_63 - 1, Tip(0, 10));
            w.deadlineSecs == -TWO_63 && w.secondsRemaining == TWO_63 - 10 && w.open
  {
  }

  /** A batch is open and finalizable at once exactly at the block-mode deadline height. */
  lemma BothOnlyAtDeadline(b: Batch, windowSecs: u64, tip: Tip)
    requires Natural(b, tip)
    ensures var w := WindowOf(b, windowSecs, tip);
            && (w.open || w.finalizable)
            && (w.open && w.finalizable <==> b.submittedTime == 0 && tip.height == b.submittedAt + windowSecs / 6)
  {
    hide WindowOf;
    WindowMeaning(b, windowSecs, tip);
  }

  predicate Later(s: Tip, t: Tip) { s.height <= t.height && s.timeSecs <= t.timeSecs }

  /** As the chain advances a closed window never reopens and a finalizable batch stays so. */
  lemma WindowMonotone(b: Batch, windowSecs: u64, s: Tip, t: Tip)
    requires Natural(b, s) && Later(s, t)
    ensures WindowOf(b, windowSecs, t).open ==> WindowOf(b, windowSecs, s).open
    ensures WindowOf(b, windowSecs, s).finalizable ==> WindowOf(b, windowSecs, t).finalizable
  {
    hide WindowOf;
    WindowMeaning(b, windowSecs, s);
    WindowMeaning(b, windowSecs, t);
  }
}
