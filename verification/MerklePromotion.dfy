/**
 * Trees that promote an unpaired last node instead of duplicating it. The verifier spends one index
 * bit per sibling, but a promoted level yields no sibling, so from there on its bits are out of step.
 * The built path therefore works for every hash and every leaf list exactly when it never meets an
 * unpaired node; the identity function is the hash that shows the failure.
 */
module MerklePromotion {
  import opened Common
  import opened Merkle

  function Identity(x: Bytes): Bytes { x }

  const PROMOTING: Options := Options(Identity, false, false)

  /** Where the marker 1 stands. */
  function MarkerAt(s: Bytes): (p: nat)
    requires 1 in s
    ensures p < |s| && s[p] == 1
    ensures 1 !in s[..p]
  {
    if s[0] == 1 then 0 else 1 + MarkerAt(s[1..])
  }

  lemma {:induction false} MarkerAfter(clean: Bytes, s: Bytes)
    requires 1 !in clean && 1 in s
    ensures 1 in clean + s && MarkerAt(clean + s) == |clean| + MarkerAt(s)
  {
    if |clean| == 0 {
      assert clean + s == s;
    } else {
      MarkerAfter(clean[1..], s);
      assert (clean + s)[1..] == clean[1..] + s;
      assert (clean + s)[0] == clean[0];
    }
  }

  lemma {:induction false} MarkerBefore(s: Bytes, clean: Bytes)
    requires 1 !in clean && 1 in s
    ensures 1 in s + clean && MarkerAt(s + clean) == MarkerAt(s)
  {
    if s[0] == 1 {
    } else {
      MarkerBefore(s[1..], clean);
      assert (s + clean)[1..] == s[1..] + clean;
    }
  }

  /** Node i carries the marker, every other node is clean, and no node is empty. */
  ghost predicate Marked(level: seq<Bytes>, i: nat) {
    && i < |level|
    && 1 in level[i]
    && (forall j :: 0 <= j < |level| && j != i ==> 1 !in level[j])
    && (forall j :: 0 <= j < |level| ==> |level[j]| > 0)
  }

  ghost predicate CleanPath(sibs: seq<Bytes>) {
    forall k :: 0 <= k < |sibs| ==> 1 !in sibs[k] && |sibs[k]| > 0
  }

  function Total(sibs: seq<Bytes>): nat { if |sibs| == 0 then 0 else |sibs[0]| + Total(sibs[1..]) }

  /** How many bytes the verifier puts left of the node it started from. */
  function LeftOf(idx: int, sibs: seq<Bytes>): nat
    decreases |sibs|
  {
    if |sibs| == 0 then 0 else (if IsRight(idx) then |sibs[0]| else 0) + LeftOf(Half(idx), sibs[1..])
  }

  lemma {:induction false} LeftAtMostTotal(idx: int, sibs: seq<Bytes>)
    ensures LeftOf(idx, sibs) <= Total(sibs)
    ensures |sibs| > 0 && |sibs[0]| > 0 && !IsRight(idx) ==> LeftOf(idx, sibs) < Total(sibs)
    decreases |sibs|
  {
    if |sibs| == 0 {
    } else {
      LeftAtMostTotal(Half(idx), sibs[1..]);
    }
  }

  lemma {:induction false} ClimbMovesMarker(node: Bytes, idx: int, sibs: seq<Bytes>)
    requires 1 in node && CleanPath(sibs)
    ensures 1 in Climb(node, idx, sibs, Identity)
    ensures MarkerAt(Climb(node, idx, sibs, Identity)) == MarkerAt(node) + LeftOf(idx, sibs)
    decreases |sibs|
  {
    if |sibs| == 0 {
    } else {
      MarkerAfter(sibs[0], node);
      MarkerBefore(node, sibs[0]);
      ClimbMovesMarker(Joined(node, idx, sibs[0]), Half(idx), sibs[1..]);
    }
  }

  lemma MarkedUp(level: seq<Bytes>, i: nat)
    requires Marked(level, i) && |level| > 1
    ensures Marked(Parents(level, PROMOTING), i / 2)
    ensures CleanPath(SiblingPart(level, i, PROMOTING))
  {
    var next := Parents(level, PROMOTING);
    forall j | 0 <= j < |next| ensures |next[j]| > 0 && (j != i / 2 ==> 1 !in next[j]) {
      assert next[j] == Parent(level, j, PROMOTING);
    }
    assert next[i / 2] == Parent(level, i / 2, PROMOTING);
  }

  lemma {:induction false} PathClean(level: seq<Bytes>, i: nat)
    requires Marked(level, i)
    ensures CleanPath(PathOf(level, i, PROMOTING))
    decreases |level|
  {
    if |level| <= 1 {
    } else {
      MarkedUp(level, i);
      PathClean(Parents(level, PROMOTING), i / 2);
    }
  }

  /** A promoted level changes nothing but the index. */
  lemma UnpairedUp(level: seq<Bytes>, i: nat)
    requires Unpaired(|level|, i)
    ensures var next := Parents(level, PROMOTING);
            && 0 < i / 2 == |next| - 1 && next[i / 2] == level[i] && RootOf(next, PROMOTING) == RootOf(level, PROMOTING)
            && PathOf(level, i, PROMOTING) == PathOf(next, i / 2, PROMOTING)
    ensures !IsRight(i)
  {
    assert SiblingPart(level, i, PROMOTING) == [];
  }

  lemma LeftUp(level: seq<Bytes>, i: nat)
    requires i < |level| && i % 2 == 1
    ensures var next := Parents(level, PROMOTING);
            && i / 2 < |next| && next[i / 2] == level[i - 1] + level[i]
            && RootOf(next, PROMOTING) == RootOf(level, PROMOTING)
            && PathOf(level, i, PROMOTING) == [level[i - 1]] + PathOf(next, i / 2, PROMOTING)
  {
  }

  lemma TotalCons(x: Bytes, rest: seq<Bytes>)
    ensures Total([x] + rest) == |x| + Total(rest)
  {
    assert ([x] + rest)[1..] == rest;
  }

  lemma OneNode(level: seq<Bytes>)
    requires |level| == 1
    ensures RootOf(level, PROMOTING) == level[0] && Total(PathOf(level, 0, PROMOTING)) == 0
  {
  }

  /** From the last node every sibling lies to the left, so the root shows the marker behind them all. */
  lemma {:induction false} LastNodeRoot(level: seq<Bytes>, i: nat)
    requires Marked(level, i) && i == |level| - 1
    ensures 1 in RootOf(level, PROMOTING)
    ensures MarkerAt(RootOf(level, PROMOTING)) == MarkerAt(level[i]) + Total(PathOf(level, i, PROMOTING))
    ensures i > 0 ==> |PathOf(level, i, PROMOTING)| > 0
    decreases |level|
  {
    hide Parents, PathOf, Total, MarkerAt, RootOf;
    if |level| == 1 {
      OneNode(level);
    } else {
      MarkedUp(level, i);
      LastNodeRoot(Parents(level, PROMOTING), i / 2);
      if i % 2 == 1 {
        LeftUp(level, i);
        MarkerAfter(level[i - 1], level[i]);
        TotalCons(level[i - 1], PathOf(Parents(level, PROMOTING), i / 2, PROMOTING));
      } else {
        UnpairedUp(level, i);
      }
    }
  }

  ghost predicate Misplaced(level: seq<Bytes>, i: nat)
    requires i < |level|
  {
    var top, root := Climb(level[i], i, PathOf(level, i, PROMOTING), Identity), RootOf(level, PROMOTING);
    1 in top && 1 in root && MarkerAt(top) < MarkerAt(root)
  }

  lemma UnpairedMisplaced(level: seq<Bytes>, i: nat)
    requires Marked(level, i) && Unpaired(|level|, i)
    ensures Misplaced(level, i)
  {
    hide Parents, PathOf, Climb, Total, LeftOf, MarkerAt, RootOf, IsRight;
    UnpairedUp(level, i);
    MarkedUp(level, i);
    PathClean(level, i);
    LastNodeRoot(Parents(level, PROMOTING), i / 2);
    ClimbMovesMarker(level[i], i, PathOf(level, i, PROMOTING));
    LeftAtMostTotal(i, PathOf(level, i, PROMOTING));
  }

  /** Once a level was promoted the verifier ends up with the marker too far left. */
  lemma {:induction false} MarkerMisplaced(level: seq<Bytes>, i: nat)
    requires Marked(level, i) && MeetsUnpaired(|level|, i)
    ensures Misplaced(level, i)
    decreases |level|
  {
    MarkedUp(level, i);
    if Unpaired(|level|, i) {
      UnpairedMisplaced(level, i);
    } else {
      hide Parents, Climb, MarkerAt, Marked, SiblingPart, Joined, Half;
      var next := Parents(level, PROMOTING);
      PairedStep(level, i, PROMOTING);
      ClimbStep(level[i], i, SiblingPart(level, i, PROMOTING), PathOf(next, i / 2, PROMOTING), Identity);
      MarkerMisplaced(next, i / 2);
    }
  }

  /** The leaf list whose only marked leaf is leaf i. */
  function MarkedLeaves(n: nat, i: nat): (leaves: seq<Bytes>)
    ensures |leaves| == n
  {
    seq(n, j => if j == i then [1] else [0])
  }

  ghost predicate BuiltPathVerifies(hash: Bytes -> Bytes, leaves: seq<Bytes>, i: nat)
    requires i < |leaves|
  {
    var o := Options(hash, false, false);
    Verifies(leaves[i], i, PathOf(LeafNodes(leaves, o), i, o), Root(leaves, o), o)
  }

  /** Without duplication, the built path is right for all hashes and leaves iff it meets no unpaired node. */
  lemma PromotionExact(n: nat, i: nat)
    requires i < n
    ensures (forall hash: Bytes -> Bytes, leaves: seq<Bytes> | |leaves| == n :: BuiltPathVerifies(hash, leaves, i))
       <==> !MeetsUnpaired(n, i)
  {
    if MeetsUnpaired(n, i) {
      var leaves := MarkedLeaves(n, i);
      assert LeafNodes(leaves, PROMOTING) == leaves;
      MarkerMisplaced(leaves, i);
      assert !BuiltPathVerifies(Identity, leaves, i);
    } else {
      forall hash: Bytes -> Bytes, leaves: seq<Bytes> | |leaves| == n ensures BuiltPathVerifies(hash, leaves, i) {
        Completeness(leaves, i, Options(hash, false, false));
      }
    }
  }

  // ---------------------------------------------------------------------------
  // Any hash: when a path past an unpaired node verifies

  /** The climb of a last node, which is the right child wherever it is paired. */
  function ClimbRight(node: Bytes, siblings: seq<Bytes>, hash: Bytes -> Bytes): Bytes
    decreases |siblings|
  {
    if |siblings| == 0 then node else ClimbRight(hash(siblings[0] + node), siblings[1..], hash)
  }

  function RightInputs(node: Bytes, siblings: seq<Bytes>, hash: Bytes -> Bytes): (r: seq<Bytes>)
    ensures |r| == |siblings|
    decreases |siblings|
  {
    if |siblings| == 0 then []
    else [siblings[0] + node] + RightInputs(hash(siblings[0] + node), siblings[1..], hash)
  }

  /** Wherever the verifier takes the node for a left child, it equals its sibling, so that the order is no matter. */
  predicate Twins(node: Bytes, idx: int, siblings: seq<Bytes>, hash: Bytes -> Bytes)
    decreases |siblings|
  {
    |siblings| > 0 ==>
      && (IsRight(idx) || node == siblings[0])
      && Twins(hash(siblings[0] + node), Half(idx), siblings[1..], hash)
  }

  /** Twins are enough, whatever the hash. */
  lemma {:induction false} TwinsSuffice(node: Bytes, idx: int, siblings: seq<Bytes>, hash: Bytes -> Bytes)
    requires Twins(node, idx, siblings, hash)
    ensures Climb(node, idx, siblings, hash) == ClimbRight(node, siblings, hash)
    decreases |siblings|
  {
    if |siblings| == 0 {
    } else {
      TwinsSuffice(hash(siblings[0] + node), Half(idx), siblings[1..], hash);
    }
  }

  lemma CollideLater(x: Bytes, xs: seq<Bytes>, y: Bytes, ys: seq<Bytes>, hash: Bytes -> Bytes)
    requires Collide(xs, ys, hash) || CollideAt(x, y, hash)
    ensures Collide([x] + xs, [y] + ys, hash)
  {
    if CollideAt(x, y, hash) {
      assert CollideAt(([x] + xs)[0], ([y] + ys)[0], hash);
    } else {
      var k :| 0 <= k < |xs| && k < |ys| && CollideAt(xs[k], ys[k], hash);
      assert CollideAt(([x] + xs)[k + 1], ([y] + ys)[k + 1], hash);
    }
  }

  /** The two orders agree only for equal halves. */
  lemma OrdersAgree(a: Bytes, idx: int, s: Bytes, b: Bytes)
    requires |a| == |b| == |s| == 32 && Joined(a, idx, s) == s + b
    ensures a == b && (IsRight(idx) || a == s)
  {
    if IsRight(idx) { HalvesEqual(s, a, s, b); } else { HalvesEqual(a, s, s, b); }
  }

  /** A verifier's climb and a last node's climb that meet started alike, or show a collision. */
  lemma {:induction false} ClimbsAgree(a: Bytes, idx: int, b: Bytes, siblings: seq<Bytes>, hash: Bytes -> Bytes)
    requires Hash32(hash) && All32(siblings) && |a| == |b| == 32
    requires Climb(a, idx, siblings, hash) == ClimbRight(b, siblings, hash)
    ensures || (a == b && Twins(b, idx, siblings, hash))
            || Collide(Inputs(a, idx, siblings, hash), RightInputs(b, siblings, hash), hash)
    decreases |siblings|
  {
    if |siblings| == 0 {
    } else {
      var s, rest := siblings[0], siblings[1..];
      var x, y := Joined(a, idx, s), s + b;
      var xs, ys := Inputs(hash(x), Half(idx), rest, hash), RightInputs(hash(y), rest, hash);
      assert |x| == 64 && |y| == 64;
      ClimbsAgree(hash(x), Half(idx), hash(y), rest, hash);
      hide Climb, ClimbRight, Joined;
      if Collide(xs, ys, hash) || x != y {
        CollideLater(x, xs, y, ys, hash);
      } else {
        OrdersAgree(a, idx, s, b);
      }
    }
  }

  lemma UnpairedStep(level: seq<Bytes>, i: nat, o: Options)
    requires !o.duplicateOdd && Unpaired(|level|, i)
    ensures var next := Parents(level, o);
            && i / 2 == |next| - 1 && next[i / 2] == level[i] && PathOf(level, i, o) == PathOf(next, i / 2, o)
            && RootOf(next, o) == RootOf(level, o)
  {
    assert SiblingPart(level, i, o) == [];
  }

  lemma LastPairedStep(level: seq<Bytes>, i: nat, o: Options)
    requires |level| > 1 && i == |level| - 1 && i % 2 == 1
    ensures var next := Parents(level, o);
            && i / 2 == |next| - 1 && next[i / 2] == o.hash(level[i - 1] + level[i])
            && PathOf(level, i, o) == [level[i - 1]] + PathOf(next, i / 2, o) && RootOf(next, o) == RootOf(level, o)
  {
    assert 2 * (i / 2) + 1 == i;
  }

  /** The root is the climb of the last node along its own path. */
  lemma {:induction false} LastNodeClimb(level: seq<Bytes>, i: nat, o: Options)
    requires !o.duplicateOdd && |level| >= 1 && i == |level| - 1
    ensures ClimbRight(level[i], PathOf(level, i, o), o.hash) == RootOf(level, o)
    ensures i > 0 ==> |PathOf(level, i, o)| > 0
    decreases |level|
  {
    if |level| == 1 {
    } else {
      if i % 2 == 1 { LastPairedStep(level, i, o); } else { UnpairedStep(level, i, o); }
      hide Parents, PathOf, RootOf;
      LastNodeClimb(Parents(level, o), i / 2, o);
    }
  }

  /** What the tree hashes on the way from node i to the root. */
  function PathInputs(level: seq<Bytes>, i: nat, o: Options): seq<Bytes>
    requires i < |level|
    decreases |level|
  {
    if |level| == 1 then []
    else if Unpaired(|level|, i) then RightInputs(level[i], PathOf(level, i, o), o.hash)
    else [Joined(level[i], i, SiblingPart(level, i, o)[0])] + PathInputs(Parents(level, o), i / 2, o)
  }

  /** Twins all the way from the first unpaired node that the path of node i meets. */
  predicate TwinsAbove(level: seq<Bytes>, i: nat, o: Options)
    requires i < |level|
    decreases |level|
  {
    if |level| == 1 then true
    else if Unpaired(|level|, i) then Twins(level[i], i, PathOf(level, i, o), o.hash)
    else TwinsAbove(Parents(level, o), i / 2, o)
  }

  /** At an unpaired node the first sibling must be its twin: the verifier takes the node for a left child. */
  lemma FirstIsTwin(level: seq<Bytes>, i: nat, o: Options)
    requires !o.duplicateOdd && Unpaired(|level|, i) && TwinsAbove(level, i, o)
    ensures |PathOf(level, i, o)| > 0 && PathOf(level, i, o)[0] == level[i]
  {
    hide PathOf, RootOf, ClimbRight;
    LastNodeClimb(level, i, o);
  }

  lemma ParentsAre32(level: seq<Bytes>, o: Options)
    requires All32(level) && Hash32(o.hash)
    ensures All32(Parents(level, o))
  {
  }

  /**
   * Without duplication, over any hash with 32 octets: a built path verifies if there are twins from its first
   * unpaired node on, and only then, unless verifier and tree hash two different inputs to one value at the
   * same height.
   */
  lemma {:induction false} PromotedPathExact(level: seq<Bytes>, i: nat, o: Options)
    requires i < |level| && !o.duplicateOdd && Hash32(o.hash) && All32(level)
    ensures var path := PathOf(level, i, o);
            && (TwinsAbove(level, i, o) ==> Climb(level[i], i, path, o.hash) == RootOf(level, o))
            && (Climb(level[i], i, path, o.hash) == RootOf(level, o) ==>
                  || TwinsAbove(level, i, o)
                  || Collide(Inputs(level[i], i, path, o.hash), PathInputs(level, i, o), o.hash))
    decreases |level|
  {
    if |level| == 1 {
    } else if Unpaired(|level|, i) {
      PromotedFromHere(level, i, o);
    } else {
      PairedStep(level, i, o);
      ParentsAre32(level, o);
      var next, part := Parents(level, o), SiblingPart(level, i, o);
      var rest := PathOf(next, i / 2, o);
      PromotedPathExact(next, i / 2, o);
      ClimbStep(level[i], i, part, rest, o.hash);
      var x := Joined(level[i], i, part[0]);
      InputsStep(level[i], i, part, rest, o.hash);
      hide Parents, SiblingPart, Joined, Climb, Inputs, Half, Collide, Twins;
      var xs, ys := Inputs(o.hash(x), i / 2, rest, o.hash), PathInputs(next, i / 2, o);
      if Collide(xs, ys, o.hash) { CollideLater(x, xs, x, ys, o.hash); }
    }
  }

  lemma InputsStep(node: Bytes, idx: int, part: seq<Bytes>, rest: seq<Bytes>, hash: Bytes -> Bytes)
    requires |part| == 1
    ensures Inputs(node, idx, part + rest, hash)
         == [Joined(node, idx, part[0])] + Inputs(hash(Joined(node, idx, part[0])), Half(idx), rest, hash)
  {
    assert (part + rest)[0] == part[0] && (part + rest)[1..] == rest;
  }

  lemma PromotedFromHere(level: seq<Bytes>, i: nat, o: Options)
    requires !o.duplicateOdd && Hash32(o.hash) && All32(level) && Unpaired(|level|, i)
    ensures var path := PathOf(level, i, o);
            && (TwinsAbove(level, i, o) ==> Climb(level[i], i, path, o.hash) == RootOf(level, o))
            && (Climb(level[i], i, path, o.hash) == RootOf(level, o) ==>
                  || TwinsAbove(level, i, o)
                  || Collide(Inputs(level[i], i, path, o.hash), PathInputs(level, i, o), o.hash))
  {
    hide PathOf, RootOf, ClimbRight, Climb, Inputs, RightInputs, Twins, Collide;
    var path := PathOf(level, i, o);
    LastNodeClimb(level, i, o);
    Path32(level, i, o);
    if TwinsAbove(level, i, o) { TwinsSuffice(level[i], i, path, o.hash); }
    if Climb(level[i], i, path, o.hash) == RootOf(level, o) { ClimbsAgree(level[i], i, level[i], path, o.hash); }
  }
}
