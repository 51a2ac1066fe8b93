/** The paged, windowed search for the batch that holds a rollup's latest batch back. */
module HealthSearch {
  import opened Common
  import opened ChallengeWindow
  import opened Settlement

  /** A batch as a node lists it. */
  datatype BatchView = BatchView(index: nat, status: Status)

  /** A node's answer for a start index: one page and the next index, 0 for no further page, or a failed read. */
  type Node = nat -> Option<(seq<BatchView>, nat)>

  datatype Listing = Listing(batches: seq<BatchView>, pages: nat)

  const MAX_PAGES: nat := 100_000
  const PAGE: nat := 100

  // ---------------------------------------------------------------------------
  // Paging

  /** What following at most `budget` pages collects, and how many are read; one failed read fails the whole. */
  function Collected(node: Node, start: nat, budget: nat): Option<Listing>
    decreases budget
  {
    if budget == 0 then Some(Listing([], 0))
    else
      match node(start)
      case None => None
      case Some((page, next)) =>
        if next == 0 || |page| == 0 then Some(Listing(page, 1))
        else Behind(page, 1, Collected(node, next, budget - 1))
  }

  /** A listing behind batches and pages already read. */
  function Behind(read: seq<BatchView>, pages: nat, rest: Option<Listing>): Option<Listing> {
    match rest case None => None case Some(l) => Some(Listing(read + l.batches, pages + l.pages))
  }

  lemma BehindTwice(out: seq<BatchView>, pages: nat, page: seq<BatchView>, rest: Option<Listing>)
    ensures Behind(out, pages, Behind(page, 1, rest)) == Behind(out + page, pages + 1, rest)
  {
    if rest.Some? { assert out + (page + rest.value.batches) == (out + page) + rest.value.batches; }
  }

  lemma BehindNothing(out: seq<BatchView>, pages: nat)
    ensures Behind(out, pages, Some(Listing([], 0))) == Some(Listing(out, pages))
  {
    assert out + [] == out;
  }

  /** The pages read from given starts, one after the other. */
  function PagesAt(node: Node, starts: seq<nat>): Option<seq<BatchView>> {
    if |starts| == 0 then Some([])
    else
      match (node(starts[0]), PagesAt(node, starts[1..]))
      case (Some((page, _)), Some(rest)) => Some(page + rest)
      case _ => None
  }

  /** A page that names a next one and is not empty leads there; only the last of a chain may fail to. */
  predicate Leads(node: Node, start: nat, next: nat) {
    node(start).Some? && |node(start).value.0| > 0 && node(start).value.1 == next != 0
  }

  predicate Chain(node: Node, starts: seq<nat>) {
    |starts| >= 1 && forall i :: 0 <= i < |starts| - 1 ==> Leads(node, starts[i], starts[i + 1])
  }

  predicate Ends(node: Node, start: nat) {
    match node(start) case None => true case Some((page, next)) => next == 0 || page == []
  }

  /**
   * Listing is following the chain of next indices: the pages of a whole chain within the bound, or of as
   * many as the bound allows, are put together in order, and it fails exactly if one of them cannot be read.
   */
  lemma {:induction false} ListingFollowsChain(node: Node, starts: seq<nat>, budget: nat)
    requires Chain(node, starts) && |starts| <= budget && (|starts| == budget || Ends(node, starts[|starts| - 1]))
    ensures Collected(node, starts[0], budget)
         == match PagesAt(node, starts) case None => None case Some(bs) => Some(Listing(bs, |starts|))
    decreases |starts|
  {
    if |starts| == 1 {
      LastPage(node, starts[0], budget);
      assert starts == [starts[0]];
      OnePage(node, starts[0]);
    } else {
      assert Leads(node, starts[0], starts[1]);
      ListingFollowsChain(node, starts[1..], budget - 1);
    }
  }

  lemma OnePage(node: Node, start: nat)
    ensures PagesAt(node, [start]) == match node(start) case None => None case Some((page, _)) => Some(page)
  {
    assert [start][1..] == [];
    assert PagesAt(node, []) == Some([]);
    if node(start).Some? { assert node(start).value.0 + [] == node(start).value.0; }
  }

  lemma LastPage(node: Node, start: nat, budget: nat)
    requires budget >= 1 && (budget == 1 || Ends(node, start))
    ensures Collected(node, start, budget)
         == match node(start) case None => None case Some((page, _)) => Some(Listing(page, 1))
  {
    if node(start).Some? {
      var (page, next) := node(start).value;
      BehindNothing(page, 1);
      assert Collected(node, next, 0) == Some(Listing([], 0));
    }
  }

  /** ListBatchesFrom: bounded against a node that never ends its pages. */
  method ListBatchesFrom(node: Node, startIndex: nat) returns (r: Option<Listing>)
    ensures r == Collected(node, startIndex, 100_000)
    ensures r.Some? ==> r.value.pages <= 100_000
  {
    hide Behind;
    var out: seq<BatchView>, pages, start := [], 0, startIndex;
    assert Behind([], 0, Collected(node, startIndex, MAX_PAGES)) == Collected(node, startIndex, MAX_PAGES) by {
      BehindStart(Collected(node, startIndex, MAX_PAGES));
    }
    while pages < MAX_PAGES
      invariant pages <= MAX_PAGES
      invariant Behind(out, pages, Collected(node, start, MAX_PAGES - pages)) == Collected(node, startIndex, MAX_PAGES)
    {
      var answer := node(start);
      if answer.None? {
        BehindFailure(out, pages);
        return None;
      }
      var (page, next) := answer.value;
      if next == 0 || |page| == 0 {
        BehindLast(out, pages, page);
        return Some(Listing(out + page, pages + 1));
      }
      BehindTwice(out, pages, page, Collected(node, next, MAX_PAGES - pages - 1));
      out := out + page;
      start := next;
      pages := pages + 1;
    }
    BehindNothing(out, pages);
    return Some(Listing(out, pages));
  }

  lemma BehindStart(rest: Option<Listing>)
    ensures Behind([], 0, rest) == rest
  {
    if rest.Some? { assert [] + rest.value.batches == rest.value.batches; }
  }

  lemma BehindFailure(out: seq<BatchView>, pages: nat)
    ensures Behind(out, pages, None) == None
  {
  }

  lemma BehindLast(out: seq<BatchView>, pages: nat, page: seq<BatchView>)
    ensures Behind(out, pages, Some(Listing(page, 1))) == Some(Listing(out + page, pages + 1))
  {
  }

  /** A rollup's batches as views. */
  function Views(bs: seq<Batch>): (vs: seq<BatchView>)
    ensures |vs| == |bs|
  {
    seq(|bs|, i requires 0 <= i < |bs| => BatchView(i, bs[i].status))
  }

  /** A node that serves full pages of 100 in index order. */
  function Served(vs: seq<BatchView>, start: nat): (seq<BatchView>, nat) {
    if start >= |vs| then ([], 0)
    else if start + PAGE >= |vs| then (vs[start..], 0)
    else (vs[start..start + PAGE], start + PAGE)
  }

  function Honest(vs: seq<BatchView>): Node { start => Some(Served(vs, start)) }

  /** Pages of an honest node: everything from the start on, in as few pages as that takes. */
  lemma {:induction false} HonestPages(vs: seq<BatchView>, start: nat, budget: nat)
    requires start < |vs| && |vs| - start <= budget * PAGE
    ensures Collected(Honest(vs), start, budget).Some?
    ensures var l := Collected(Honest(vs), start, budget).value;
            l.batches == vs[start..] && (l.pages - 1) * PAGE < |vs| - start
    decreases budget
  {
    if start + PAGE >= |vs| {
    } else {
      HonestPages(vs, start + PAGE, budget - 1);
      assert vs[start..] == vs[start..start + PAGE] + vs[start + PAGE..];
    }
  }

  // ---------------------------------------------------------------------------
  // The search

  predicate Waiting(b: BatchView, latest: int) { b.index < latest && (b.status == Submitted || b.status == Challenged) }

  /** The waiting batch of least index in a list. */
  predicate IsOldest(found: Option<BatchView>, list: seq<BatchView>, latest: int) {
    match found
    case None => forall b :: b in list ==> !Waiting(b, latest)
    case Some(o) =>
      && o in list && Waiting(o, latest)
      && forall b :: b in list && Waiting(b, latest) ==> o.index <= b.index
  }

  /** Where the search starts. */
  function WindowStart(latest: nat): nat { if latest < MAX_PENDING then 0 else latest - MAX_PENDING }

  datatype SearchError = ListFailed

  /** oldestUnsettledBefore. */
  method OldestUnsettledBefore(node: Node, latestIndex: nat) returns (r: Result<Option<BatchView>, SearchError>)
    ensures r.Ok? <==> Collected(node, WindowStart(latestIndex), MAX_PAGES).Some?
    ensures r.Ok? ==> IsOldest(r.value, Collected(node, WindowStart(latestIndex), MAX_PAGES).value.batches, latestIndex)
  {
    hide Collected;
    var start := latestIndex - MAX_PENDING;
    if start < 0 {
      start := 0;
    }
    var listing := ListBatchesFrom(node, start);
    if listing.None? {
      return Err(ListFailed);
    }
    var batches := listing.value.batches;
    var oldest: Option<BatchView> := None;
    for k := 0 to |batches|
      invariant IsOldest(oldest, batches[..k], latestIndex)
    {
      var b := batches[k];
      assert batches[..k + 1] == batches[..k] + [b];
      if !(b.index >= latestIndex || (b.status != Submitted && b.status != Challenged)) {
        if oldest.None? || b.index < oldest.value.index {
          oldest := Some(b);
        }
      }
    }
    assert batches[..|batches|] == batches;
    return Ok(oldest);
  }

  lemma SameOldest(found: Option<BatchView>, bs: seq<Batch>, start: nat, latest: int)
    requires start <= |bs| && forall i :: 0 <= i < start ==> !Waiting(Views(bs)[i], latest)
    ensures IsOldest(found, Views(bs)[start..], latest) <==> IsOldest(found, Views(bs), latest)
  {
    var all := Views(bs);
    assert forall b :: b in all <==> b in all[..start] || b in all[start..] by {
      assert all == all[..start] + all[start..];
    }
  }

  /** What an honest node lists for the search. */
  function Window(bs: seq<Batch>): seq<BatchView>
    requires |bs| >= 1
  {
    Views(bs)[WindowStart(|bs| - 1)..]
  }

  /** The window is the latest batch and the 4096 before it, or everything. */
  lemma WindowSize(bs: seq<Batch>)
    requires |bs| >= 1
    ensures |Window(bs)| == (if |bs| <= 4097 then |bs| else 4097)
    ensures forall i :: 0 <= i < |Window(bs)| ==>
              var j := |bs| - |Window(bs)| + i; Window(bs)[i] == BatchView(j, bs[j].status)
  {
  }

  /** The search answers from the window what a scan of all batches would. */
  ghost predicate Exact(bs: seq<Batch>)
    requires |bs| >= 1
  {
    forall found :: SameAnswer(found, bs)
  }

  ghost predicate SameAnswer(found: Option<BatchView>, bs: seq<Batch>)
    requires |bs| >= 1
  {
    IsOldest(found, Window(bs), |bs| - 1) <==> HoldsBack(found, bs)
  }

  /** What a scan of all batches tells: the first that is not final before the latest, if there is one. */
  predicate HoldsBack(found: Option<BatchView>, bs: seq<Batch>)
    requires |bs| >= 1
  {
    match found
    case None => forall i :: 0 <= i < |bs| - 1 ==> IsFinal(bs[i].status)
    case Some(o) =>
      && o.index < |bs| - 1 && o.status == bs[o.index].status && !IsFinal(o.status)
      && forall i :: 0 <= i < o.index ==> IsFinal(bs[i].status)
  }

  /** The search waits for exactly the batches that the transition table does not call final. */
  lemma WaitingIsUnsettled(b: BatchView, latest: int)
    ensures Waiting(b, latest) <==> b.index < latest && !IsFinal(b.status)
  {
  }

  lemma OldestHoldsBack(found: Option<BatchView>, bs: seq<Batch>)
    requires |bs| >= 1
    ensures IsOldest(found, Views(bs), |bs| - 1) <==> HoldsBack(found, bs)
  {
    var vs, latest := Views(bs), |bs| - 1;
    hide Waiting, IsFinal;
    forall i | 0 <= i < |bs|
      ensures vs[i] in vs && vs[i] == BatchView(i, bs[i].status)
      ensures Waiting(vs[i], latest) <==> i < latest && !IsFinal(bs[i].status)
    {
      WaitingIsUnsettled(vs[i], latest);
    }
    assert forall b :: b in vs ==> b.index < |bs| && b == vs[b.index];
  }

  /** An honest node lists the window, in at most 41 pages. */
  ghost predicate ListedBriefly(bs: seq<Batch>)
    requires |bs| >= 1
  {
    var listing := Collected(Honest(Views(bs)), WindowStart(|bs| - 1), MAX_PAGES);
    listing.Some? && listing.value.batches == Window(bs) && listing.value.pages <= 41
  }

  lemma WindowIsListed(bs: seq<Batch>)
    requires |bs| >= 1
    ensures ListedBriefly(bs)
  {
    hide Collected;
    HonestPages(Views(bs), WindowStart(|bs| - 1), MAX_PAGES);
  }

  lemma NothingBefore(bs: seq<Batch>)
    requires |bs| >= 1 && forall i :: 0 <= i < WindowStart(|bs| - 1) ==> IsFinal(bs[i].status)
    ensures Exact(bs)
  {
    hide Waiting, IsOldest, HoldsBack;
    var start, latest := WindowStart(|bs| - 1), |bs| - 1;
    forall i | 0 <= i < start ensures !Waiting(Views(bs)[i], latest) { WaitingIsUnsettled(Views(bs)[i], latest); }
    forall found ensures SameAnswer(found, bs) {
      SameOldest(found, bs, start, latest);
      OldestHoldsBack(found, bs);
    }
  }

  /**
   * In every run, while nothing was rejected, the search over an honest node finds what a scan of all
   * batches would, and reads at most 41 pages.
   */
  lemma SearchIsExact(run: seq<State>, k: nat)
    requires IsRun(run) && k < |run| && |run[k].batches| >= 1 && NoneRejected(run[k].batches)
    ensures ListedBriefly(run[k].batches) && Exact(run[k].batches)
  {
    hide IsRun, ListedBriefly, Exact;
    var bs := run[k].batches;
    WindowIsListed(bs);
    forall i | 0 <= i < WindowStart(|bs| - 1) ensures IsFinal(bs[i].status) {
      if !IsFinal(bs[i].status) { UnsettledIsRecent(run, k, i); }
    }
    NothingBefore(bs);
  }

  // ---------------------------------------------------------------------------
  // With rejections: what the listing itself tells

  /** The listed statuses as batches of a chain that has not moved. */
  function AsBatches(list: seq<BatchView>): (bs: seq<Batch>)
    ensures |bs| == |list|
  {
    seq(|list|, i requires 0 <= i < |list| => Batch(list[i].status, 0, 0))
  }

  function Unsettled(list: seq<BatchView>): nat { Pending(AsBatches(list)) }

  /**
   * The listing starts at batch 0, or shows a finalized batch, or shows 4095 waiting batches before the
   * latest one.
   */
  predicate Telling(list: seq<BatchView>, start: nat)
    requires |list| >= 1
  {
    || start == 0
    || (exists b :: b in list && b.status == Finalized)
    || Unsettled(list[..|list| - 1]) >= MAX_PENDING - 1
  }

  lemma {:induction false} PendingByStatus(bs: seq<Batch>, cs: seq<Batch>)
    requires |bs| == |cs| && forall i :: 0 <= i < |bs| ==> bs[i].status == cs[i].status
    ensures Pending(bs) == Pending(cs)
  {
    if |bs| == 0 {
    } else {
      PendingByStatus(bs[..|bs| - 1], cs[..|cs| - 1]);
    }
  }

  lemma {:induction false} PendingAppend(bs: seq<Batch>, cs: seq<Batch>)
    ensures Pending(bs + cs) == Pending(bs) + Pending(cs)
  {
    if |cs| == 0 {
      assert bs + cs == bs;
    } else {
      var init := cs[..|cs| - 1];
      PendingAppend(bs, init);
      assert (bs + cs)[..|bs + cs| - 1] == bs + init;
    }
  }

  lemma {:induction false} OneIsPending(bs: seq<Batch>, i: nat)
    requires i < |bs| && !IsFinal(bs[i].status)
    ensures Pending(bs) >= 1
  {
    if i == |bs| - 1 {
    } else {
      OneIsPending(bs[..|bs| - 1], i);
    }
  }

  /** In every state whose listing is telling, rejections or not, the search is exact. */
  lemma TellingIsExact(s: State)
    requires Good(s) && |s.batches| >= 1
    requires Telling(Window(s.batches), WindowStart(|s.batches| - 1))
    ensures Exact(s.batches)
  {
    hide Exact, Pending, InOrder, Admitted, Wellformed, IsFinal;
    var bs := s.batches;
    var start := WindowStart(|bs| - 1);
    forall i | 0 <= i < start ensures IsFinal(bs[i].status) {
      if !IsFinal(bs[i].status) {
        CrowdedOut(bs, start, i);
        NoneFinalizedAfter(bs, start, i);
      }
    }
    NothingBefore(bs);
  }

  lemma NoneFinalizedAfter(bs: seq<Batch>, start: nat, i: nat)
    requires InOrder(bs) && i < start < |bs| && !IsFinal(bs[i].status)
    ensures forall b :: b in Views(bs)[start..] ==> b.status != Finalized
  {
    var list := Views(bs)[start..];
    forall b | b in list ensures b.status != Finalized {
      var j :| 0 <= j < |list| && list[j] == b;
      assert b.status == bs[start + j].status;
    }
  }

  /** A waiting batch before the window leaves room for fewer than 4095 in it, the latest not counted. */
  lemma CrowdedOut(bs: seq<Batch>, start: nat, i: nat)
    requires Admitted(bs) && i < start < |bs| && !IsFinal(bs[i].status)
    ensures var list := Views(bs)[start..]; Unsettled(list[..|list| - 1]) < MAX_PENDING - 1
  {
    hide Pending;
    var list, latest := Views(bs)[start..], |bs| - 1;
    assert bs[..latest] == bs[..start] + bs[start..latest];
    PendingAppend(bs[..start], bs[start..latest]);
    OneIsPending(bs[..start], i);
    PendingByStatus(bs[start..latest], AsBatches(list[..|list| - 1]));
    assert Pending(bs[..latest]) < MAX_PENDING;
  }

  // ---------------------------------------------------------------------------
  // Every admitted list of batches without a finalized one is reached by some run

  /** A chain at height 0 with a window of one block. */
  function Still(bs: seq<Batch>): State { State(bs, Tip(0, 0), 6) }

  function Fresh(status: Status): Batch { Batch(status, 0, 0) }

  lemma SubmitStep(bs: seq<Batch>)
    requires Pending(bs) < MAX_PENDING
    ensures Step(Still(bs), Submit(false), Still(bs + [Fresh(Submitted)]))
  {
    hide Pending;
  }

  lemma ChallengeStep(bs: seq<Batch>)
    ensures Step(Still(bs + [Fresh(Submitted)]), Challenge(|bs|), Still(bs + [Fresh(Challenged)]))
  {
    hide Pending;
  }

  lemma RejectStep(bs: seq<Batch>)
    requires forall i :: 0 <= i < |bs| ==> bs[i].submittedAt == 0 && bs[i].submittedTime == 0
    ensures Step(Still(bs + [Fresh(Challenged)]), Reject(|bs|), Still(bs + [Fresh(Rejected)]))
  {
    hide Pending;
    assert RejectedFrom(bs + [Fresh(Challenged)], |bs|) == bs + [Fresh(Rejected)];
  }

  lemma Extend(run: seq<State>, s: State, a: Action)
    requires IsRun(run) && Step(run[|run| - 1], a, s)
    ensures IsRun(run + [s])
  {
    hide Step;
    var r := run + [s];
    forall k | 0 <= k < |r| - 1 ensures Next(r[k], r[k + 1]) {
      if k < |run| - 1 { assert Next(run[k], run[k + 1]); }
    }
  }

  predicate AllFresh(bs: seq<Batch>) {
    forall i :: 0 <= i < |bs| ==> bs[i] == Fresh(bs[i].status) && bs[i].status != Finalized
  }

  ghost predicate Reaches(run: seq<State>, bs: seq<Batch>) { IsRun(run) && run[|run| - 1] == Still(bs) }

  /** One more batch: submitted, then challenged, then rejected, as far as its status asks. */
  lemma Grow(run: seq<State>, bs: seq<Batch>, status: Status) returns (more: seq<State>)
    requires Reaches(run, bs) && AllFresh(bs) && Pending(bs) < MAX_PENDING && status != Finalized
    ensures Reaches(more, bs + [Fresh(status)])
  {
    hide IsRun, Step, Pending;
    RunIsNonEmpty(run);
    SubmitStep(bs);
    Extend(run, Still(bs + [Fresh(Submitted)]), Submit(false));
    more := run + [Still(bs + [Fresh(Submitted)])];
    if status != Submitted {
      ChallengeStep(bs);
      Extend(more, Still(bs + [Fresh(Challenged)]), Challenge(|bs|));
      more := more + [Still(bs + [Fresh(Challenged)])];
      if status == Rejected {
        RejectStep(bs);
        Extend(more, Still(bs + [Fresh(Rejected)]), Reject(|bs|));
        more := more + [Still(bs + [Fresh(Rejected)])];
      }
    }
  }

  lemma RunIsNonEmpty(run: seq<State>)
    requires IsRun(run)
    ensures |run| > 0
  {
  }

  lemma {:induction false} RunTo(bs: seq<Batch>) returns (run: seq<State>)
    requires AllFresh(bs) && Admitted(bs)
    ensures Reaches(run, bs)
  {
    if |bs| == 0 {
      run := [Still([])];
    } else {
      hide IsRun, Pending;
      var init, last := bs[..|bs| - 1], bs[|bs| - 1];
      forall i | 0 <= i < |init| ensures Pending(init[..i]) < MAX_PENDING { assert init[..i] == bs[..i]; }
      run := RunTo(init);
      run := Grow(run, init, last.status);
      assert bs == init + [last];
    }
  }

  // ---------------------------------------------------------------------------
  // A listing that is not telling hides a waiting batch in some run

  /** One waiting batch with k rejected ones behind it. */
  function Stuck(k: nat): (bs: seq<Batch>)
    ensures |bs| == k + 1
  {
    [Fresh(Submitted)] + seq(k, _ => Fresh(Rejected))
  }

  lemma {:induction false} StuckPending(k: nat)
    ensures Pending(Stuck(k)) == 1
  {
    var bs := Stuck(k);
    if k == 0 {
      assert bs[..0] == [];
    } else {
      StuckPending(k - 1);
      assert bs[..|bs| - 1] == Stuck(k - 1);
    }
  }

  lemma PrefixPending(bs: seq<Batch>, i: nat)
    requires i <= |bs|
    ensures Pending(bs[..i]) <= Pending(bs)
  {
    assert bs == bs[..i] + bs[i..];
    PendingAppend(bs[..i], bs[i..]);
  }

  /** Batch 0 waiting, rejected ones up to the window, and the listing behind them. */
  function Hiding(list: seq<BatchView>, start: nat): (bs: seq<Batch>)
    requires start >= 1
    ensures |bs| == start + |list|
  {
    Stuck(start - 1) + AsBatches(list)
  }

  lemma HidingIsAdmitted(list: seq<BatchView>, start: nat)
    requires start >= 1 && |list| >= 1 && !Telling(list, start)
    ensures Admitted(Hiding(list, start)) && AllFresh(Hiding(list, start))
  {
    hide Pending;
    var bs, shorter := Hiding(list, start), list[..|list| - 1];
    var init := bs[..|bs| - 1];
    assert init == Stuck(start - 1) + AsBatches(shorter);
    StuckPending(start - 1);
    PendingAppend(Stuck(start - 1), AsBatches(shorter));
    forall i | 0 <= i < |bs| ensures Pending(bs[..i]) < MAX_PENDING {
      PrefixPending(init, i);
      assert init[..i] == bs[..i];
    }
    forall i | 0 <= i < |bs| ensures bs[i] == Fresh(bs[i].status) && bs[i].status != Finalized {
      if i >= start { assert list[i - start] in list; }
    }
  }

  lemma HidingIsMissed(list: seq<BatchView>, start: nat)
    requires start >= 1 && |list| >= 1 && WindowStart(start + |list| - 1) == start
    requires forall i :: 0 <= i < |list| ==> list[i].index == start + i
    ensures Window(Hiding(list, start)) == list && !Exact(Hiding(list, start))
  {
    var bs := Hiding(list, start);
    var zero := Some(BatchView(0, Submitted));
    assert Views(bs)[0] == zero.value;
    assert IsOldest(zero, Views(bs), |bs| - 1);
    assert !IsOldest(zero, Window(bs), |bs| - 1);
    assert !SameAnswer(zero, bs);
  }

  /** A run that ends with n batches and shows this listing. */
  ghost predicate Lists(run: seq<State>, n: nat, list: seq<BatchView>) {
    IsRun(run) && |run[|run| - 1].batches| == n >= 1 && Window(run[|run| - 1].batches) == list
  }

  ghost predicate LastIsExact(run: seq<State>) {
    |run| >= 1 && |run[|run| - 1].batches| >= 1 && Exact(run[|run| - 1].batches)
  }

  /**
   * What a caller can conclude from a listing alone: in every run that shows it the search is exact, if and
   * only if the listing is telling. Any other listing is also shown by a run in which batch 0 still waits.
   */
  lemma ListingDecides(run: seq<State>, n: nat, list: seq<BatchView>)
    requires Lists(run, n, list)
    ensures (forall other :: Lists(other, n, list) ==> LastIsExact(other)) <==> Telling(list, WindowStart(n - 1))
  {
    hide IsRun, Exact, Pending, Telling, Admitted;
    var start := WindowStart(n - 1);
    if Telling(list, start) {
      forall other | Lists(other, n, list) ensures LastIsExact(other) {
        RunIsNonEmpty(other);
        RunsAreGood(other, |other| - 1);
        TellingIsExact(other[|other| - 1]);
      }
    } else {
      StartIsTelling(list);
      HidingIsAdmitted(list, start);
      var other := RunTo(Hiding(list, start));
      HidingIsMissed(list, start);
      assert Lists(other, n, list) && !LastIsExact(other);
    }
  }

  lemma StartIsTelling(list: seq<BatchView>)
    requires |list| >= 1
    ensures Telling(list, 0)
  {
  }

  /** A reachable state in which batch 0 still waits, but the window starts after it and shows nothing. */
  lemma SearchMissesAfterRejections() returns (run: seq<State>, bs: seq<Batch>)
    ensures Reaches(run, bs) && |bs| == MAX_PENDING + 3 && !IsFinal(bs[0].status)
    ensures IsOldest(None, Window(bs), |bs| - 1) && HoldsBack(Some(BatchView(0, Submitted)), bs)
  {
    bs := Stuck(MAX_PENDING + 2);
    StuckPending(MAX_PENDING + 2);
    hide Pending;
    forall i | 0 <= i < |bs| ensures Pending(bs[..i]) < MAX_PENDING { PrefixPending(bs, i); }
    run := RunTo(bs);
    assert Views(bs)[0] in Views(bs) && Waiting(Views(bs)[0], |bs| - 1);
  }
}
