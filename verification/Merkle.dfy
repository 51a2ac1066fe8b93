/** Binary Merkle trees over an arbitrary hash, as the withdrawal proofs use them. */
module Merkle {
  import opened Common

  /** Resolved tree options. The hash is a parameter: nothing is assumed of it. */
  datatype Options = Options(hash: Bytes -> Bytes, hashLeaves: bool, duplicateOdd: bool)

  datatype MerkleProof = MerkleProof(siblings: seq<Bytes>, root: Bytes, index: int)

  // ---------------------------------------------------------------------------
  // Levels

  function LeafNodes(leaves: seq<Bytes>, o: Options): (r: seq<Bytes>)
    ensures |r| == |leaves|
  {
    seq(|leaves|, i requires 0 <= i < |leaves| => if o.hashLeaves then o.hash(leaves[i]) else leaves[i])
  }

  function Parent(level: seq<Bytes>, i: nat, o: Options): Bytes
    requires 2 * i < |level|
  {
    if 2 * i + 1 < |level| then o.hash(level[2 * i] + level[2 * i + 1])
    else if o.duplicateOdd then o.hash(level[2 * i] + level[2 * i])
    else level[2 * i]
  }

  function Parents(level: seq<Bytes>, o: Options): (next: seq<Bytes>)
    ensures |next| == (|level| + 1) / 2
  {
    seq((|level| + 1) / 2, i requires 0 <= i < (|level| + 1) / 2 => Parent(level, i, o))
  }

  function RootOf(level: seq<Bytes>, o: Options): Bytes
    requires |level| >= 1
    decreases |level|
  {
    if |level| == 1 then level[0] else RootOf(Parents(level, o), o)
  }

  function Root(leaves: seq<Bytes>, o: Options): Bytes {
    if |leaves| == 0 then o.hash([]) else RootOf(LeafNodes(leaves, o), o)
  }

  method HashLeaves(leaves: seq<Bytes>, o: Options) returns (out: seq<Bytes>)
    ensures out == LeafNodes(leaves, o)
  {
    out := [];
    for i := 0 to |leaves|
      invariant out == LeafNodes(leaves, o)[..i]
    {
      out := out + [if o.hashLeaves then o.hash(leaves[i]) else leaves[i]];
    }
  }

  method NextLevel(level: seq<Bytes>, o: Options) returns (next: seq<Bytes>)
    ensures next == Parents(level, o)
  {
    next := [];
    var i := 0;
    while i < |level|
      invariant i == 2 * |next| && |next| <= (|level| + 1) / 2
      invariant next == Parents(level, o)[..|next|]
    {
      var left := level[i];
      if i + 1 < |level| {
        next := next + [o.hash(left + level[i + 1])];
      } else if o.duplicateOdd {
        next := next + [o.hash(left + left)];
      } else {
        next := next + [left];
      }
      i := i + 2;
    }
  }

  method BinaryMerkleRoot(leaves: seq<Bytes>, o: Options) returns (root: Bytes)
    ensures root == Root(leaves, o)
  {
    if |leaves| == 0 {
      return o.hash([]);
    }
    var level := HashLeaves(leaves, o);
    while |level| > 1
      invariant |level| >= 1 && RootOf(level, o) == Root(leaves, o)
      decreases |level|
    {
      level := NextLevel(level, o);
    }
    return level[0];
  }

  // ---------------------------------------------------------------------------
  // Sibling paths

  function SiblingPart(level: seq<Bytes>, i: nat, o: Options): seq<Bytes>
    requires i < |level|
  {
    if i % 2 == 1 then [level[i - 1]]
    else if i + 1 < |level| then [level[i + 1]]
    else if o.duplicateOdd then [level[i]]
    else []
  }

  function PathOf(level: seq<Bytes>, i: nat, o: Options): seq<Bytes>
    requires i < |level|
    decreases |level|
  {
    if |level| == 1 then [] else SiblingPart(level, i, o) + PathOf(Parents(level, o), i / 2, o)
  }

  method BinaryMerkleProof(leaves: seq<Bytes>, index: int, o: Options) returns (r: Option<MerkleProof>)
    ensures r.None? <==> !(0 <= index < |leaves|)
    ensures r.Some? ==> var level := LeafNodes(leaves, o);
                        r.value == MerkleProof(PathOf(level, index, o), Root(leaves, o), index)
  {
    if index < 0 || index >= |leaves| {
      return None;
    }
    var siblings: seq<Bytes> := [];
    var level := HashLeaves(leaves, o);
    var idx: nat := index;
    ghost var whole, root := PathOf(level, idx, o), RootOf(level, o);
    assert root == Root(leaves, o);
    while |level| > 1
      invariant idx < |level| && RootOf(level, o) == root
      invariant siblings + PathOf(level, idx, o) == whole
      decreases |level|
    {
      hide *;
      LevelUp(level, idx, o, siblings);
      var siblingIdx := if idx % 2 == 1 then idx - 1 else idx + 1;
      if siblingIdx < |level| {
        siblings := siblings + [level[siblingIdx]];
      } else if o.duplicateOdd {
        siblings := siblings + [level[idx]];
      }
      level := NextLevel(level, o);
      idx := idx / 2;
    }
    return Some(MerkleProof(siblings, level[0], index));
  }

  /** What one turn of the proof loop keeps. */
  lemma LevelUp(level: seq<Bytes>, i: nat, o: Options, done: seq<Bytes>)
    requires i < |level| && |level| > 1
    ensures |Parents(level, o)| < |level| && i / 2 < |Parents(level, o)|
    ensures RootOf(Parents(level, o), o) == RootOf(level, o)
    ensures var sib := if i % 2 == 1 then i - 1 else i + 1;
            var step := if sib < |level| then [level[sib]] else if o.duplicateOdd then [level[i]] else [];
            && (done + step) + PathOf(Parents(level, o), i / 2, o) == done + PathOf(level, i, o)
            && (step == [] ==> done + step == done)
  {
  }

  /** Go's idx%2 == 1 and idx/2, which truncate toward zero. */
  predicate IsRight(idx: int) { idx >= 0 && idx % 2 == 1 }

  function Half(idx: int): int { TruncDiv(idx, 2) }

  function Joined(node: Bytes, idx: int, sibling: Bytes): Bytes {
    if IsRight(idx) then sibling + node else node + sibling
  }

  function Climb(node: Bytes, idx: int, siblings: seq<Bytes>, hash: Bytes -> Bytes): Bytes
    decreases |siblings|
  {
    if |siblings| == 0 then node
    else Climb(hash(Joined(node, idx, siblings[0])), Half(idx), siblings[1..], hash)
  }

  predicate Verifies(leaf: Bytes, index: int, siblings: seq<Bytes>, root: Bytes, o: Options) {
    Climb(if o.hashLeaves then o.hash(leaf) else leaf, index, siblings, o.hash) == root
  }

  method VerifyBinaryMerkleProof(leaf: Bytes, index: int, siblings: seq<Bytes>, root: Bytes, o: Options)
    returns (ok: bool)
    ensures ok == Verifies(leaf, index, siblings, root, o)
  {
    var node := if o.hashLeaves then o.hash(leaf) else leaf;
    ghost var start := node;
    var idx := index;
    for k := 0 to |siblings|
      invariant Climb(node, idx, siblings[k..], o.hash) == Climb(start, index, siblings, o.hash)
    {
      var sibling := siblings[k];
      if IsRight(idx) {
        node := o.hash(sibling + node);
      } else {
        node := o.hash(node + sibling);
      }
      idx := Half(idx);
    }
    return node == root;
  }

  // ---------------------------------------------------------------------------
  // The level loop computes one node function

  function Width(n: nat, k: nat): nat { if k == 0 then n else (Width(n, k - 1) + 1) / 2 }

  /** Node i of row k, defined from the top down. */
  function Node(nodes: seq<Bytes>, k: nat, i: nat, o: Options): Bytes
    requires i < Width(|nodes|, k)
  {
    if k == 0 then nodes[i]
    else
      var left := Node(nodes, k - 1, 2 * i, o);
      if 2 * i + 1 < Width(|nodes|, k - 1) then o.hash(left + Node(nodes, k - 1, 2 * i + 1, o))
      else if o.duplicateOdd then o.hash(left + left)
      else left
  }

  /** Least number of halvings that leave one node: the base-2 logarithm, rounded up. */
  function Height(n: nat): nat { if n <= 1 then 0 else 1 + Height((n + 1) / 2) }

  function Row(nodes: seq<Bytes>, k: nat, o: Options): (r: seq<Bytes>)
    ensures |r| == Width(|nodes|, k)
  {
    if k == 0 then nodes else Parents(Row(nodes, k - 1, o), o)
  }

  lemma {:induction false} RowIsNodes(nodes: seq<Bytes>, k: nat, i: nat, o: Options)
    requires i < Width(|nodes|, k)
    ensures Row(nodes, k, o)[i] == Node(nodes, k, i, o)
  {
    if k == 0 {
    } else {
      RowIsNodes(nodes, k - 1, 2 * i, o);
      if 2 * i + 1 < Width(|nodes|, k - 1) { RowIsNodes(nodes, k - 1, 2 * i + 1, o); }
    }
  }

  lemma {:induction false} RowHeight(nodes: seq<Bytes>, k: nat, o: Options)
    requires |nodes| >= 1 && k <= Height(|nodes|)
    ensures |Row(nodes, k, o)| >= 1 && Height(|Row(nodes, k, o)|) == Height(|nodes|) - k
    ensures RootOf(Row(nodes, k, o), o) == RootOf(nodes, o)
  {
    if k == 0 {
    } else {
      RowHeight(nodes, k - 1, o);
    }
  }

  /** The root is the single node of the top row. */
  lemma RootIsTopNode(nodes: seq<Bytes>, o: Options)
    requires |nodes| >= 1
    ensures Width(|nodes|, Height(|nodes|)) == 1
    ensures RootOf(nodes, o) == Node(nodes, Height(|nodes|), 0, o)
  {
    var h := Height(|nodes|);
    RowHeight(nodes, h, o);
    RowIsNodes(nodes, h, 0, o);
  }

  lemma {:induction false} HeightIsLog(n: nat, h: nat)
    requires n >= 1
    ensures Height(n) <= h <==> n <= Pow2(h)
    decreases n
  {
    if n <= 1 {
    } else {
      if h != 0 { HeightIsLog((n + 1) / 2, h - 1); }
    }
  }

  // ---------------------------------------------------------------------------
  // Completeness

  /** Whether the path from node i of a row of w nodes passes an unpaired last node. */
  predicate MeetsUnpaired(w: nat, i: nat)
    decreases w
  {
    w > 1 && (Unpaired(w, i) || MeetsUnpaired((w + 1) / 2, i / 2))
  }

  predicate Unpaired(w: nat, i: nat) { w > 1 && i == w - 1 && w % 2 == 1 }

  /** One step up from a paired (or duplicated) node. */
  lemma PairedStep(level: seq<Bytes>, i: nat, o: Options)
    requires i < |level| && |level| > 1 && (o.duplicateOdd || !Unpaired(|level|, i))
    ensures |SiblingPart(level, i, o)| == 1 && i / 2 < |Parents(level, o)|
    ensures Parents(level, o)[i / 2] == o.hash(Joined(level[i], i, SiblingPart(level, i, o)[0]))
    ensures Half(i) == i / 2
  {
    var j := i / 2;
    assert i % 2 == 1 ==> i == 2 * j + 1;
    assert i % 2 == 0 ==> i == 2 * j;
  }

  lemma ClimbStep(node: Bytes, idx: int, part: seq<Bytes>, rest: seq<Bytes>, hash: Bytes -> Bytes)
    requires |part| == 1
    ensures Climb(node, idx, part + rest, hash) == Climb(hash(Joined(node, idx, part[0])), Half(idx), rest, hash)
  {
    assert (part + rest)[0] == part[0] && (part + rest)[1..] == rest;
  }

  /** The path built for a node leads from it to the root. */
  lemma {:induction false} PathLeadsToRoot(level: seq<Bytes>, i: nat, o: Options)
    requires i < |level| && (o.duplicateOdd || !MeetsUnpaired(|level|, i))
    ensures Climb(level[i], i, PathOf(level, i, o), o.hash) == RootOf(level, o)
    ensures |PathOf(level, i, o)| == Height(|level|)
    decreases |level|
  {
    if |level| <= 1 {
    } else {
      PairedStep(level, i, o);
      hide SiblingPart, Parents, Joined, Half;
      PathLeadsToRoot(Parents(level, o), i / 2, o);
      ClimbStep(level[i], i, SiblingPart(level, i, o), PathOf(Parents(level, o), i / 2, o), o.hash);
    }
  }

  /** Every built proof verifies against the root the root function returns. */
  lemma Completeness(leaves: seq<Bytes>, index: nat, o: Options)
    requires index < |leaves| && (o.duplicateOdd || !MeetsUnpaired(|leaves|, index))
    ensures Verifies(leaves[index], index, PathOf(LeafNodes(leaves, o), index, o), Root(leaves, o), o)
  {
    PathLeadsToRoot(LeafNodes(leaves, o), index, o);
  }

  // ---------------------------------------------------------------------------
  // Soundness

  ghost predicate Hash32(hash: Bytes -> Bytes) { forall x: Bytes :: |hash(x)| == 32 }

  predicate All32(nodes: seq<Bytes>) { forall i :: 0 <= i < |nodes| ==> |nodes[i]| == 32 }

  /** The hash inputs met while climbing, bottom first. */
  function Inputs(node: Bytes, idx: int, siblings: seq<Bytes>, hash: Bytes -> Bytes): (r: seq<Bytes>)
    ensures |r| == |siblings|
    decreases |siblings|
  {
    if |siblings| == 0 then []
    else
      var input := Joined(node, idx, siblings[0]);
      [input] + Inputs(hash(input), Half(idx), siblings[1..], hash)
  }

  /** Two different 64-byte inputs with one hash, at the same height of two climbs. */
  ghost predicate Collide(xs: seq<Bytes>, ys: seq<Bytes>, hash: Bytes -> Bytes) {
    exists k :: 0 <= k < |xs| && k < |ys| && CollideAt(xs[k], ys[k], hash)
  }

  ghost predicate CollideAt(x: Bytes, y: Bytes, hash: Bytes -> Bytes) {
    |x| == 64 && |y| == 64 && x != y && hash(x) == hash(y)
  }

  lemma JoinedInjective(a: Bytes, p: Bytes, b: Bytes, q: Bytes, idx: int)
    requires |a| == |b| == |p| == |q| == 32 && Joined(a, idx, p) == Joined(b, idx, q)
    ensures a == b && p == q
  {
    var x, y := Joined(a, idx, p), Joined(b, idx, q);
    assert x[..32] == y[..32] && x[32..] == y[32..];
  }

  /** Two climbs of the same shape that meet at the top are the same climb, or meet in a collision. */
  lemma {:induction false} ClimbsMeet(a: Bytes, ps: seq<Bytes>, b: Bytes, qs: seq<Bytes>, idx: int,
                                      hash: Bytes -> Bytes)
    requires Hash32(hash) && |a| == 32 && |b| == 32 && All32(ps) && All32(qs) && |ps| == |qs|
    requires Climb(a, idx, ps, hash) == Climb(b, idx, qs, hash)
    ensures (a == b && ps == qs) || Collide(Inputs(a, idx, ps, hash), Inputs(b, idx, qs, hash), hash)
    decreases |ps|
  {
    if |ps| == 0 {
    } else {
      var x, y := Joined(a, idx, ps[0]), Joined(b, idx, qs[0]);
      var xs, ys := Inputs(hash(x), Half(idx), ps[1..], hash), Inputs(hash(y), Half(idx), qs[1..], hash);
      assert Inputs(a, idx, ps, hash) == [x] + xs && Inputs(b, idx, qs, hash) == [y] + ys;
      assert |x| == 64 && |y| == 64;
      ClimbsMeet(hash(x), ps[1..], hash(y), qs[1..], Half(idx), hash);
      if Collide(xs, ys, hash) {
        var k :| 0 <= k < |xs| && k < |ys| && CollideAt(xs[k], ys[k], hash);
        assert ([x] + xs)[k + 1] == xs[k] && ([y] + ys)[k + 1] == ys[k];
      } else if x == y {
        JoinedInjective(a, ps[0], b, qs[0], idx);
        assert ps == [ps[0]] + ps[1..] && qs == [qs[0]] + qs[1..];
      } else {
        assert ([x] + xs)[0] == x && ([y] + ys)[0] == y;
      }
    }
  }

  lemma {:induction false} Path32(level: seq<Bytes>, i: nat, o: Options)
    requires i < |level| && All32(level) && Hash32(o.hash)
    ensures All32(PathOf(level, i, o)) && |RootOf(level, o)| == 32
    decreases |level|
  {
    if |level| <= 1 {
    } else {
      Path32(Parents(level, o), i / 2, o);
    }
  }

  /**
   * If a leaf and a path of the tree's height verify at an index of the tree, they are the tree's
   * own leaf and path, or the two climbs show two different 64-byte inputs with one hash.
   */
  lemma Soundness(leaves: seq<Bytes>, index: nat, leaf: Bytes, siblings: seq<Bytes>, o: Options)
    requires index < |leaves| && (o.duplicateOdd || !MeetsUnpaired(|leaves|, index))
    requires !o.hashLeaves && Hash32(o.hash) && All32(leaves)
    requires |leaf| == 32 && All32(siblings) && |siblings| == Height(|leaves|)
    requires Verifies(leaf, index, siblings, Root(leaves, o), o)
    ensures var path := PathOf(leaves, index, o);
            || (leaf == leaves[index] && siblings == path)
            || Collide(Inputs(leaf, index, siblings, o.hash), Inputs(leaves[index], index, path, o.hash), o.hash)
  {
    assert LeafNodes(leaves, o) == leaves;
    var path := PathOf(leaves, index, o);
    PathLeadsToRoot(leaves, index, o);
    Path32(leaves, index, o);
    ClimbsMeet(leaf, siblings, leaves[index], path, index, o.hash);
  }

  // ---------------------------------------------------------------------------
  // Soundness for any index and any number of siblings

  /** The input hashed for node i of row k of a tree that pairs an odd last node with itself. */
  function NodeInput(nodes: seq<Bytes>, k: nat, i: nat, o: Options): Bytes
    requires k >= 1 && i < Width(|nodes|, k)
  {
    var left := Node(nodes, k - 1, 2 * i, o);
    left + if 2 * i + 1 < Width(|nodes|, k - 1) then Node(nodes, k - 1, 2 * i + 1, o) else left
  }

  lemma {:induction false} Node32(nodes: seq<Bytes>, k: nat, i: nat, o: Options)
    requires All32(nodes) && Hash32(o.hash) && i < Width(|nodes|, k)
    ensures |Node(nodes, k, i, o)| == 32
  {
    if k == 0 {
    } else {
      Node32(nodes, k - 1, 2 * i, o);
    }
  }

  lemma ChildExists(n: nat, k: nat, i: nat)
    requires k >= 1 && i < Width(n, k)
    ensures 2 * i < Width(n, k - 1)
  {
  }

  lemma NodeUnfolds(nodes: seq<Bytes>, k: nat, i: nat, o: Options)
    requires o.duplicateOdd && k >= 1 && i < Width(|nodes|, k)
    ensures Node(nodes, k, i, o) == o.hash(NodeInput(nodes, k, i, o))
  {
    hide Width;
    ChildExists(|nodes|, k, i);
  }

  lemma NodeIsHash(nodes: seq<Bytes>, k: nat, i: nat, o: Options)
    requires o.duplicateOdd && All32(nodes) && Hash32(o.hash) && k >= 1 && i < Width(|nodes|, k)
    ensures Node(nodes, k, i, o) == o.hash(NodeInput(nodes, k, i, o)) && |NodeInput(nodes, k, i, o)| == 64
  {
    NodeUnfolds(nodes, k, i, o);
    ChildExists(|nodes|, k, i);
    hide Width, Node, All32, Hash32;
    Node32(nodes, k - 1, 2 * i, o);
    if 2 * i + 1 < Width(|nodes|, k - 1) { Node32(nodes, k - 1, 2 * i + 1, o); }
  }

  lemma {:induction false} Climb32(node: Bytes, idx: int, siblings: seq<Bytes>, hash: Bytes -> Bytes)
    requires Hash32(hash) && |node| == 32
    ensures |Climb(node, idx, siblings, hash)| == 32
    decreases |siblings|
  {
    if |siblings| == 0 {
    } else {
      Climb32(hash(Joined(node, idx, siblings[0])), Half(idx), siblings[1..], hash);
    }
  }

  /** The last step of a climb: what it hashes is the climb so far and the last sibling, in one order. */
  lemma {:induction false} LastStep(node: Bytes, idx: int, siblings: seq<Bytes>, hash: Bytes -> Bytes)
    requires |siblings| >= 1
    ensures var init, last := siblings[..|siblings| - 1], siblings[|siblings| - 1];
            var below, input := Climb(node, idx, init, hash), Inputs(node, idx, siblings, hash)[|siblings| - 1];
            && Climb(node, idx, siblings, hash) == hash(input)
            && (input == below + last || input == last + below)
            && Inputs(node, idx, siblings, hash) == Inputs(node, idx, init, hash) + [input]
    decreases |siblings|
  {
    hide Joined, Half;
    var first, rest := Joined(node, idx, siblings[0]), siblings[1..];
    if |siblings| == 1 {
      assert siblings[..0] == [] && rest == [];
      assert first == node + siblings[0] || first == siblings[0] + node by { JoinedEither(node, idx, siblings[0]); }
    } else {
      LastStep(hash(first), Half(idx), rest, hash);
      var init := siblings[..|siblings| - 1];
      assert init[1..] == rest[..|rest| - 1] && init[0] == siblings[0];
    }
  }

  lemma JoinedEither(node: Bytes, idx: int, sibling: Bytes)
    ensures Joined(node, idx, sibling) == node + sibling || Joined(node, idx, sibling) == sibling + node
  {
  }

  /** Leaves that are themselves hashes of preimages. */
  function Hashed(pre: seq<Bytes>, hash: Bytes -> Bytes): (leaves: seq<Bytes>)
    ensures |leaves| == |pre|
  {
    seq(|pre|, i requires 0 <= i < |pre| => hash(pre[i]))
  }

  /** What the tree hashes: the preimages of its leaves and the inputs of its inner nodes, up to the root. */
  ghost predicate TreeInput(b: Bytes, pre: seq<Bytes>, o: Options) {
    || b in pre
    || exists k: nat, i: nat ::
         1 <= k <= Height(|pre|) && i < Width(|pre|, k) && b == NodeInput(Hashed(pre, o.hash), k, i, o)
  }

  /** What a verifier hashes on the way from a leaf's preimage. */
  predicate ClimbInput(a: Bytes, x: Bytes, idx: int, siblings: seq<Bytes>, hash: Bytes -> Bytes) {
    a == x || a in Inputs(hash(x), idx, siblings, hash)
  }

  ghost predicate SameHash(a: Bytes, b: Bytes, hash: Bytes -> Bytes) { a != b && hash(a) == hash(b) }

  /** Two different inputs with one hash, one from the verifier's climb and one from the tree. */
  ghost predicate Conflict(x: Bytes, idx: int, siblings: seq<Bytes>, pre: seq<Bytes>, o: Options) {
    exists a, b :: ClimbInput(a, x, idx, siblings, o.hash) && TreeInput(b, pre, o) && SameHash(a, b, o.hash)
  }

  ghost predicate NotNodeSized(pre: seq<Bytes>) { forall j :: 0 <= j < |pre| ==> |pre[j]| != 64 }

  lemma Conflicting(a: Bytes, b: Bytes, x: Bytes, idx: int, siblings: seq<Bytes>, pre: seq<Bytes>, o: Options)
    requires ClimbInput(a, x, idx, siblings, o.hash) && TreeInput(b, pre, o) && SameHash(a, b, o.hash)
    ensures Conflict(x, idx, siblings, pre, o)
  {
  }

  lemma HalvesEqual(a: Bytes, p: Bytes, b: Bytes, q: Bytes)
    requires |a| == |p| == |b| == |q| == 32 && a + p == b + q
    ensures a == b && p == q
  {
    assert (a + p)[..32] == a && (b + q)[..32] == b && (a + p)[32..] == p && (b + q)[32..] == q;
  }

  /** A climb that ends at a node of the tree, wherever it started, started at a leaf or shows a conflict. */
  lemma {:induction false} ClimbToNode(x: Bytes, idx: int, siblings: seq<Bytes>, pre: seq<Bytes>, k: nat, i: nat,
                                       o: Options)
    requires o.duplicateOdd && Hash32(o.hash) && All32(siblings) && |x| != 64 && NotNodeSized(pre)
    requires k <= Height(|pre|) && i < Width(|pre|, k)
    requires Climb(o.hash(x), idx, siblings, o.hash) == Node(Hashed(pre, o.hash), k, i, o)
    ensures x in pre || Conflict(x, idx, siblings, pre, o)
    decreases |siblings|
  {
    hide Climb, Inputs, Width, Node, NodeInput, Conflict;
    var nodes, hash := Hashed(pre, o.hash), o.hash;
    var n := |siblings|;
    // What each side hashes last.
    var a := if n == 0 then x else Inputs(hash(x), idx, siblings, hash)[n - 1];
    if n == 0 { ClimbOfNothing(hash(x), idx, siblings, hash); } else { LastStep(hash(x), idx, siblings, hash); }
    var b := LastOfNode(pre, k, i, o);
    if a != b {
      Conflicting(a, b, x, idx, siblings, pre, o);
    } else if n == 0 {
      assert |b| != 64;
    } else {
      var init, last := siblings[..n - 1], siblings[n - 1];
      Climb32(hash(x), idx, init, hash);
      assert |a| == 64 && k >= 1;
      var j := ChildReached(pre, k, i, o, Climb(hash(x), idx, init, hash), last);
      ClimbToNode(x, idx, init, pre, k - 1, j, o);
      if Conflict(x, idx, init, pre, o) { ConflictGrows(x, idx, siblings, pre, o); }
    }
  }

  lemma ClimbOfNothing(node: Bytes, idx: int, siblings: seq<Bytes>, hash: Bytes -> Bytes)
    requires |siblings| == 0
    ensures Climb(node, idx, siblings, hash) == node
  {
  }

  /** What a node of the tree hashes: a leaf's preimage in row 0, 64 octets above. */
  lemma LastOfNode(pre: seq<Bytes>, k: nat, i: nat, o: Options) returns (b: Bytes)
    requires o.duplicateOdd && Hash32(o.hash) && NotNodeSized(pre)
    requires k <= Height(|pre|) && i < Width(|pre|, k)
    ensures TreeInput(b, pre, o) && o.hash(b) == Node(Hashed(pre, o.hash), k, i, o)
    ensures (k == 0 <==> |b| != 64) && (k == 0 ==> b in pre)
    ensures k >= 1 ==> b == NodeInput(Hashed(pre, o.hash), k, i, o)
  {
    if k == 0 {
      b := pre[i];
    } else {
      NodeIsHash(Hashed(pre, o.hash), k, i, o);
      b := NodeInput(Hashed(pre, o.hash), k, i, o);
    }
  }

  /** If a node's input is made of two halves, each half is a child. */
  lemma ChildReached(pre: seq<Bytes>, k: nat, i: nat, o: Options, below: Bytes, last: Bytes) returns (j: nat)
    requires o.duplicateOdd && Hash32(o.hash) && k >= 1 && i < Width(|pre|, k) && |below| == 32 && |last| == 32
    requires var b := NodeInput(Hashed(pre, o.hash), k, i, o); b == below + last || b == last + below
    ensures j < Width(|pre|, k - 1) && below == Node(Hashed(pre, o.hash), k - 1, j, o)
  {
    var nodes := Hashed(pre, o.hash);
    var left := Node(nodes, k - 1, 2 * i, o);
    var r := if 2 * i + 1 < Width(|nodes|, k - 1) then 2 * i + 1 else 2 * i;
    var right := Node(nodes, k - 1, r, o);
    Node32(nodes, k - 1, 2 * i, o);
    Node32(nodes, k - 1, r, o);
    assert NodeInput(nodes, k, i, o) == left + right;
    hide Node;
    if left + right == below + last {
      HalvesEqual(left, right, below, last);
      j := 2 * i;
    } else {
      HalvesEqual(left, right, last, below);
      j := r;
    }
  }

  lemma ConflictGrows(x: Bytes, idx: int, siblings: seq<Bytes>, pre: seq<Bytes>, o: Options)
    requires |siblings| >= 1 && Conflict(x, idx, siblings[..|siblings| - 1], pre, o)
    ensures Conflict(x, idx, siblings, pre, o)
  {
    hide Inputs, TreeInput;
    var init := siblings[..|siblings| - 1];
    var a, b :| ClimbInput(a, x, idx, init, o.hash) && TreeInput(b, pre, o) && SameHash(a, b, o.hash);
    LastStep(o.hash(x), idx, siblings, o.hash);
    assert ClimbInput(a, x, idx, siblings, o.hash);
  }

  /**
   * For any index and any number of 32-byte siblings: what verifies against the root of hashed leaves is the
   * preimage of one of them, or the climb and the tree hash two different inputs to the same value.
   */
  lemma SoundAtAnyDepth(x: Bytes, idx: int, siblings: seq<Bytes>, pre: seq<Bytes>, o: Options)
    requires |pre| >= 1 && o.duplicateOdd && !o.hashLeaves && Hash32(o.hash) && All32(siblings)
    requires |x| != 64 && NotNodeSized(pre)
    requires Verifies(o.hash(x), idx, siblings, Root(Hashed(pre, o.hash), o), o)
    ensures x in pre || Conflict(x, idx, siblings, pre, o)
  {
    hide Climb, Node, RootOf, Conflict;
    var nodes := Hashed(pre, o.hash);
    assert LeafNodes(nodes, o) == nodes;
    RootIsTopNode(nodes, o);
    ClimbToNode(x, idx, siblings, pre, Height(|pre|), 0, o);
  }

  // ---------------------------------------------------------------------------
  // Small trees, written out

  lemma RootOfOne(a: Bytes, o: Options)
    ensures RootOf([a], o) == a
  {
  }

  lemma RootOfTwo(a: Bytes, b: Bytes, o: Options)
    ensures RootOf([a, b], o) == o.hash(a + b)
  {
    assert Parents([a, b], o) == [o.hash(a + b)];
    RootOfOne(o.hash(a + b), o);
  }

  lemma RootOfMore(level: seq<Bytes>, left: Bytes, right: Bytes, o: Options)
    requires |level| > 1 && Parents(level, o) == [left, right]
    ensures RootOf(level, o) == o.hash(left + right)
  {
    RootOfTwo(left, right, o);
  }

  /** The roots of no, one, two, three and four leaves. */
  lemma SmallTrees(a: Bytes, b: Bytes, c: Bytes, d: Bytes, o: Options)
    requires !o.hashLeaves
    ensures Root([], o) == o.hash([]) && Root([a], o) == a && Root([a, b], o) == o.hash(a + b)
    ensures Root([a, b, c], o) == o.hash(o.hash(a + b) + if o.duplicateOdd then o.hash(c + c) else c)
    ensures Root([a, b, c, d], o) == o.hash(o.hash(a + b) + o.hash(c + d))
  {
    var three, four := [a, b, c], [a, b, c, d];
    assert LeafNodes([a], o) == [a] && LeafNodes([a, b], o) == [a, b];
    assert LeafNodes(three, o) == three && LeafNodes(four, o) == four;
    var top := if o.duplicateOdd then o.hash(c + c) else c;
    assert Parents(three, o) == [o.hash(a + b), top];
    assert Parents(four, o) == [o.hash(a + b), o.hash(c + d)];
    hide RootOf, Parents, LeafNodes;
    RootOfOne(a, o);
    RootOfTwo(a, b, o);
    RootOfMore(three, o.hash(a + b), top, o);
    RootOfMore(four, o.hash(a + b), o.hash(c + d), o);
  }
}
