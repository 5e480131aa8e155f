/** The RFC 9162 Merkle log: tree hash, audit path and the shifting inclusion verifier. */
module Merkle {
  import opened Octets
  import opened Pairing

  // ---- Hash inputs -------------------------------------------------------------------------

  function LeafInput(leaf: Bytes): Bytes { [0] + leaf }

  function NodeInput(left: Bytes, right: Bytes): Bytes { [1] + left + right }

  function LeafHash(h: Hash, leaf: Bytes): Digest { h(LeafInput(leaf)) }

  function NodeHash(h: Hash, left: Bytes, right: Bytes): Digest { h(NodeInput(left, right)) }

  function Node(h: Hash): Combine<Bytes> { (left, right) => NodeHash(h, left, right) }

  /** The fixed child width is what makes the concatenation of two children unambiguous. */
  lemma NodeInputInjective(l: Bytes, r: Bytes, l': Bytes, r': Bytes)
    requires NodeInput(l, r) == NodeInput(l', r')
    requires |l| == 48 || |r| == 48
    requires |l'| == |r'| == 48
    ensures l == l' && r == r'
  {
    assert |NodeInput(l, r)| == 1 + |l| + |r| && |NodeInput(l', r')| == 97;
    assert NodeInput(l, r)[1..49] == l && NodeInput(l', r')[1..49] == l';
    assert NodeInput(l, r)[49..] == r && NodeInput(l', r')[49..] == r';
  }

  /** Octet by octet: 0x01, the left child, the right child. */
  lemma NodeInputOctets(l: Digest, r: Bytes, i: nat)
    requires i <= 48 + |r|
    ensures |NodeInput(l, r)| == 49 + |r|
    ensures NodeInput(l, r)[i] == if i == 0 then 1 else if i <= 48 then l[i - 1] else r[i - 49]
  {}

  /** Octet by octet: 0x00, then the leaf. */
  lemma LeafInputOctets(leaf: Bytes, i: nat)
    requires i <= |leaf|
    ensures |LeafInput(leaf)| == 1 + |leaf| && LeafInput(leaf)[i] == if i == 0 then 0 else leaf[i - 1]
  {}

  // ---- Tree hash and audit path --------------------------------------------------------------

  function TreeHash(h: Hash, leaves: seq<Bytes>): Digest
    decreases |leaves|
  {
    if |leaves| == 0 then h([])
    else if |leaves| == 1 then LeafHash(h, leaves[0])
    else
      var k := Split(|leaves|);
      NodeHash(h, TreeHash(h, leaves[..k]), TreeHash(h, leaves[k..]))
  }

  function AuditPath(h: Hash, m: nat, leaves: seq<Bytes>): seq<Bytes>
    requires m < |leaves|
    decreases |leaves|
  {
    if |leaves| == 1 then []
    else
      var k := Split(|leaves|);
      if m < k then AuditPath(h, m, leaves[..k]) + [TreeHash(h, leaves[k..])]
      else AuditPath(h, m - k, leaves[k..]) + [TreeHash(h, leaves[..k])]
  }

  /** The string whose digest is the tree hash. */
  ghost function TopInput(h: Hash, leaves: seq<Bytes>): (top: Bytes)
    ensures TreeHash(h, leaves) == h(top)
  {
    if |leaves| == 0 then []
    else if |leaves| == 1 then LeafInput(leaves[0])
    else NodeInput(TreeHash(h, leaves[..Split(|leaves|)]), TreeHash(h, leaves[Split(|leaves|)..]))
  }

  /** Every string hashed while computing TreeHash. */
  ghost function TreeInputs(h: Hash, leaves: seq<Bytes>): set<Bytes>
    decreases |leaves|
  {
    {TopInput(h, leaves)}
    + if |leaves| <= 1 then {}
      else TreeInputs(h, leaves[..Split(|leaves|)]) + TreeInputs(h, leaves[Split(|leaves|)..])
  }

  /** The first trees in plain octets, and the paths into three leaves. */
  lemma SmallTrees(h: Hash, a: Bytes, b: Bytes, c: Bytes)
    ensures TreeHash(h, []) == h([]) && TreeHash(h, [a]) == h([0] + a)
    ensures TreeHash(h, [a, b]) == h([1] + h([0] + a) + h([0] + b))
    ensures TreeHash(h, [a, b, c]) == h([1] + h([1] + h([0] + a) + h([0] + b)) + h([0] + c))
    ensures AuditPath(h, 0, [a, b, c]) == [h([0] + b), h([0] + c)]
    ensures AuditPath(h, 1, [a, b, c]) == [h([0] + a), h([0] + c)]
    ensures AuditPath(h, 2, [a, b, c]) == [h([1] + h([0] + a) + h([0] + b))]
  {
    var two, three := [a, b], [a, b, c];
    assert Split(2) == 1 && Split(3) == 2;
    assert two[..1] == [a] && two[1..] == [b] && three[..2] == two && three[2..] == [c];
    assert AuditPath(h, 0, [a]) == [] && AuditPath(h, 0, [b]) == [] && AuditPath(h, 0, [c]) == [];
    assert TreeHash(h, two) == NodeHash(h, LeafHash(h, a), LeafHash(h, b));
    assert AuditPath(h, 0, two) == [] + [LeafHash(h, b)] && AuditPath(h, 1, two) == [] + [LeafHash(h, a)];
  }

  // ---- The verifier ----------------------------------------------------------------------------

  function Recompute(h: Hash, leafIndex: nat, treeSize: nat, leafHash: Bytes, path: seq<Bytes>)
    : (bool, Option<Bytes>)
  {
    if leafIndex >= treeSize then (false, None)
    else Replay(Node(h), leafIndex, treeSize - 1, leafHash, path)
  }

  method RecomputeRoot(h: Hash, leafIndex: nat, treeSize: nat, leafHash: Bytes, path: seq<Bytes>)
    returns (ok: bool, root: Option<Bytes>)
    ensures (ok, root) == Recompute(h, leafIndex, treeSize, leafHash, path)
  {
    if leafIndex >= treeSize { return false, None; }
    var fn: nat, sn: nat, r := leafIndex, treeSize - 1, leafHash;
    for i := 0 to |path|
      invariant Replay(Node(h), leafIndex, treeSize - 1, leafHash, path)
                == Replay(Node(h), fn, sn, r, path[i..])
    {
      var p := path[i];
      assert path[i..][0] == p && path[i..][1..] == path[i + 1..];
      if sn == 0 { return false, None; }
      if fn % 2 == 1 || fn == sn {
        r := NodeHash(h, p, r);
        if fn % 2 == 0 {
          ghost var target := Strip(fn, sn);
          while fn % 2 == 0 && fn != 0
            invariant Strip(fn, sn) == target
          {
            fn, sn := fn / 2, sn / 2;
          }
        }
      } else {
        r := NodeHash(h, r, p);
      }
      fn, sn := fn / 2, sn / 2;
    }
    return sn == 0, Some(r);
  }

  // ---- Trees over leaves are trees over leaf hashes ----------------------------------------------

  ghost function LeafHashes(h: Hash, leaves: seq<Bytes>): (hs: seq<Bytes>)
    ensures |hs| == |leaves|
  {
    seq(|leaves|, i requires 0 <= i < |leaves| => LeafHash(h, leaves[i]))
  }

  lemma LeafHashesSplit(h: Hash, leaves: seq<Bytes>, k: nat)
    requires k <= |leaves|
    ensures LeafHashes(h, leaves)[..k] == LeafHashes(h, leaves[..k])
    ensures LeafHashes(h, leaves)[k..] == LeafHashes(h, leaves[k..])
  {}

  lemma {:induction false} TreeOverHashes(h: Hash, leaves: seq<Bytes>)
    requires |leaves| >= 1
    ensures TreeHash(h, leaves) == Root(Node(h), LeafHashes(h, leaves))
    decreases |leaves|
  {
    if |leaves| >= 2 {
      var k := Split(|leaves|);
      TreeOverHashes(h, leaves[..k]);
      TreeOverHashes(h, leaves[k..]);
      LeafHashesSplit(h, leaves, k);
    }
  }

  lemma {:induction false} PathOverHashes(h: Hash, m: nat, leaves: seq<Bytes>)
    requires m < |leaves|
    ensures AuditPath(h, m, leaves) == Path(Node(h), m, LeafHashes(h, leaves))
    decreases |leaves|
  {
    if |leaves| >= 2 {
      var k := Split(|leaves|);
      LeafHashesSplit(h, leaves, k);
      TreeOverHashes(h, leaves[..k]);
      TreeOverHashes(h, leaves[k..]);
      if m < k { PathOverHashes(h, m, leaves[..k]); } else { PathOverHashes(h, m - k, leaves[k..]); }
    }
  }

  /** Each pair the tree combines is two digests, and its node input was hashed. */
  lemma {:induction false} PairsHashed(h: Hash, leaves: seq<Bytes>, y: (Bytes, Bytes))
    requires y in Pairs(Node(h), LeafHashes(h, leaves))
    ensures |y.0| == |y.1| == 48 && NodeInput(y.0, y.1) in TreeInputs(h, leaves)
    decreases |leaves|
  {
    var k := Split(|leaves|);
    LeafHashesSplit(h, leaves, k);
    TreeOverHashes(h, leaves[..k]);
    TreeOverHashes(h, leaves[k..]);
    if y in Pairs(Node(h), LeafHashes(h, leaves[..k])) {
      PairsHashed(h, leaves[..k], y);
    } else if y in Pairs(Node(h), LeafHashes(h, leaves[k..])) {
      PairsHashed(h, leaves[k..], y);
    }
  }

  lemma {:induction false} LeavesHashed(h: Hash, leaves: seq<Bytes>, m: nat)
    requires m < |leaves|
    ensures LeafInput(leaves[m]) in TreeInputs(h, leaves)
    decreases |leaves|
  {
    hide TreeHash, TreeInputs, Split;
    TreeInputsUnfold(h, leaves);
    if |leaves| >= 2 {
      var k := Split(|leaves|);
      if m < k { LeavesHashed(h, leaves[..k], m); } else { LeavesHashed(h, leaves[k..], m - k); }
    }
  }

  /** Every string the verifier hashes: it always holds a digest on one side. */
  ghost function ReplayInputs(h: Hash, fn: nat, sn: nat, r: Bytes, path: seq<Bytes>): set<Bytes> {
    set x | x in ReplayPairs(Node(h), fn, sn, r, path) :: NodeInput(x.0, x.1)
  }

  lemma {:induction false} ReplayWidths(h: Hash, fn: nat, sn: nat, r: Bytes, path: seq<Bytes>, x: (Bytes, Bytes))
    requires |r| == 48 && x in ReplayPairs(Node(h), fn, sn, r, path)
    ensures |x.0| == 48 || |x.1| == 48
    decreases |path|
  {
    if fn % 2 == 1 || fn == sn {
      if x != (path[0], r) {
        ReplayWidths(h, Strip(fn, sn).0 / 2, Strip(fn, sn).1 / 2, Node(h)(path[0], r), path[1..], x);
      }
    } else if x != (r, path[0]) {
      ReplayWidths(h, fn / 2, sn / 2, Node(h)(r, path[0]), path[1..], x);
    }
  }

  // ---- Main theorems ------------------------------------------------------------------------------

  /** Completeness: for every size and index, the audit path replays to the tree hash. */
  lemma InclusionComplete(h: Hash, m: nat, leaves: seq<Bytes>)
    requires m < |leaves|
    ensures Recompute(h, m, |leaves|, LeafHash(h, leaves[m]), AuditPath(h, m, leaves))
            == (true, Some(TreeHash(h, leaves)))
  {
    hide Root, Path, Replay, TreeHash, AuditPath;
    TreeOverHashes(h, leaves);
    PathOverHashes(h, m, leaves);
    ReplayComplete(Node(h), m / 2, m % 2 == 1, LeafHashes(h, leaves));
  }

  /** Each (index, size) admits exactly one path length, whatever the path holds. */
  lemma AcceptedLength(h: Hash, m: nat, leaves: seq<Bytes>, r: Bytes, path: seq<Bytes>)
    requires m < |leaves|
    ensures Recompute(h, m, |leaves|, r, path).0 <==> |path| == |AuditPath(h, m, leaves)|
  {
    hide Path, Replay, AuditPath;
    PathOverHashes(h, m, leaves);
    ReplayLength(Node(h), m / 2, m % 2 == 1, LeafHashes(h, leaves), r, path);
  }

  /** Every string hashed by the tree, by the leaf hash of x and by the verifier for index m of n. */
  ghost function ProofInputs(h: Hash, m: nat, n: nat, leaves: seq<Bytes>, x: Bytes, path: seq<Bytes>): set<Bytes>
    requires m < n
  {
    TreeInputs(h, leaves) + {LeafInput(x)} + ReplayInputs(h, m, n - 1, LeafHash(h, x), path)
  }

  /** Without a collision the verifier and the tree never combine different pairs to one digest. */
  lemma NoConfusion(h: Hash, m: nat, leaves: seq<Bytes>, x: Bytes, path: seq<Bytes>)
    requires m < |leaves| && !Collision(h, ProofInputs(h, m, |leaves|, leaves, x, path))
    ensures Unconfused(Node(h), ReplayPairs(Node(h), m, |leaves| - 1, LeafHash(h, x), path),
                       Pairs(Node(h), LeafHashes(h, leaves)))
  {
    hide ReplayPairs, Pairs, LeafHashes, TreeInputs;
    var xs := ReplayPairs(Node(h), m, |leaves| - 1, LeafHash(h, x), path);
    forall a, b | a in xs && b in Pairs(Node(h), LeafHashes(h, leaves)) && Node(h)(a.0, a.1) == Node(h)(b.0, b.1)
      ensures a == b
    {
      PairsHashed(h, leaves, b);
      ReplayWidths(h, m, |leaves| - 1, LeafHash(h, x), path, a);
      var inputs := ProofInputs(h, m, |leaves|, leaves, x, path);
      assert NodeInput(a.0, a.1) in inputs && NodeInput(b.0, b.1) in inputs;
      assert h(NodeInput(a.0, a.1)) == h(NodeInput(b.0, b.1));
      NodeInputInjective(a.0, a.1, b.0, b.1);
    }
  }

  /** Soundness: an accepted proof of x at m is the honest one, or two of the strings hashed
      by the tree and the verifier collide. The path is arbitrary, of any element widths. */
  lemma InclusionSound(h: Hash, m: nat, leaves: seq<Bytes>, x: Bytes, path: seq<Bytes>)
    requires m < |leaves|
    requires Recompute(h, m, |leaves|, LeafHash(h, x), path) == (true, Some(TreeHash(h, leaves)))
    ensures Collision(h, ProofInputs(h, m, |leaves|, leaves, x, path))
            || (x == leaves[m] && path == AuditPath(h, m, leaves))
  {
    hide Root, Path, Replay, TreeHash, AuditPath, TreeInputs, ReplayPairs, Pairs, Unconfused;
    var inputs := ProofInputs(h, m, |leaves|, leaves, x, path);
    if !Collision(h, inputs) {
      TreeOverHashes(h, leaves);
      PathOverHashes(h, m, leaves);
      NoConfusion(h, m, leaves, x, path);
      ReplaySound(Node(h), m / 2, m % 2 == 1, LeafHashes(h, leaves), LeafHash(h, x), path);
      LeavesHashed(h, leaves, m);
      assert LeafInput(x) in inputs && LeafInput(leaves[m]) in inputs;
      SameLeaf(x, leaves[m]);
    }
  }

  /** A node hash that is the tree hash of a part has the hashes of the part's halves as children. */
  lemma NodeOfPart(h: Hash, l: Bytes, r: Bytes, part: seq<Bytes>, inputs: set<Bytes>)
    requires |l| == 48 || |r| == 48
    requires !Collision(h, inputs) && NodeInput(l, r) in inputs && TreeInputs(h, part) <= inputs
    requires NodeHash(h, l, r) == TreeHash(h, part)
    ensures |part| >= 2
    ensures l == TreeHash(h, part[..Split(|part|)]) && r == TreeHash(h, part[Split(|part|)..])
  {
    hide TreeHash, TopInput, TreeInputs, Split;
    TreeInputsUnfold(h, part);
    NoCollision(h, inputs, NodeInput(l, r), TopInput(h, part));
    TopPrefix(h, part);
    assert NodeInput(l, r)[0] == 1;
    NodeInputInjective(l, r, TreeHash(h, part[..Split(|part|)]), TreeHash(h, part[Split(|part|)..]));
  }

  /** The w leaves from lo on are a part of the tree, reached from its root by the given turns. */
  ghost predicate PartAt(h: Hash, leaves: seq<Bytes>, lo: nat, w: nat, turns: seq<bool>) {
    && lo + w <= |leaves| && Located(|leaves|, lo, w, turns)
    && TreeInputs(h, leaves[lo..lo + w]) <= TreeInputs(h, leaves)
  }

  lemma HalfAt(h: Hash, leaves: seq<Bytes>, lo: nat, w: nat, turns: seq<bool>, right: bool)
    requires PartAt(h, leaves, lo, w, turns) && w >= 2
    ensures var k, part := Split(w), leaves[lo..lo + w];
            if right then PartAt(h, leaves, lo + k, w - k, [right] + turns) && leaves[lo + k..lo + w] == part[k..]
            else PartAt(h, leaves, lo, k, [right] + turns) && leaves[lo..lo + k] == part[..k]
  {
    hide TreeInputs, Split;
    var k, part := Split(w), leaves[lo..lo + w];
    TreeInputsUnfold(h, part);
    assert leaves[lo + k..lo + w] == part[k..] && leaves[lo..lo + k] == part[..k];
    LocatedHalf(|leaves|, lo, w, turns, right);
    hide Located;
  }

  ghost function FoldInputs(h: Hash, sides: seq<bool>, r: Bytes, path: seq<Bytes>): set<Bytes> {
    set x | x in FoldPairs(Node(h), sides, r, path) :: NodeInput(x.0, x.1)
  }

  /** One step of an accepted run: what it hashes, and what it goes on with. */
  lemma FoldUnfold(h: Hash, sides: seq<bool>, r: Bytes, path: seq<Bytes>)
    requires path != [] && Fold(Node(h), sides, r, path).0
    ensures sides != []
    ensures var (l, q) := Ordered(sides[0], r, path[0]);
            && Fold(Node(h), sides, r, path) == Fold(Node(h), sides[1..], NodeHash(h, l, q), path[1..])
            && NodeInput(l, q) in FoldInputs(h, sides, r, path)
            && FoldInputs(h, sides[1..], NodeHash(h, l, q), path[1..]) <= FoldInputs(h, sides, r, path)
  {
    assert Ordered(sides[0], r, path[0]) in FoldPairs(Node(h), sides, r, path);
  }

  /** A run that ends at the tree hash started at the part of the tree that its branches lead to. */
  lemma {:induction false} StartsInTree(h: Hash, sides: seq<bool>, r: Bytes, path: seq<Bytes>,
                                        leaves: seq<Bytes>, inputs: set<Bytes>)
    returns (lo: nat, w: nat)
    requires |r| == 48 && Fold(Node(h), sides, r, path) == (true, Some(TreeHash(h, leaves)))
    requires !Collision(h, inputs) && TreeInputs(h, leaves) <= inputs && FoldInputs(h, sides, r, path) <= inputs
    ensures PartAt(h, leaves, lo, w, sides) && r == TreeHash(h, leaves[lo..lo + w])
    decreases |path|
  {
    hide TreeHash, TreeInputs, Collision, Split, Located;
    if path == [] {
      lo, w := 0, |leaves|;
      LocatedTop(|leaves|);
      assert leaves[0..|leaves|] == leaves;
    } else {
      FoldUnfold(h, sides, r, path);
      var (l, q) := Ordered(sides[0], r, path[0]);
      lo, w := StartsInTree(h, sides[1..], NodeHash(h, l, q), path[1..], leaves, inputs);
      NodeOfPart(h, l, q, leaves[lo..lo + w], inputs);
      HalfAt(h, leaves, lo, w, sides[1..], sides[0]);
      assert sides == [sides[0]] + sides[1..];
      if sides[0] { lo, w := lo + Split(w), w - Split(w); } else { w := Split(w); }
    }
  }

  /** The leaf an accepted proof was made for, whatever index and size it claims. */
  lemma AcceptedLeaf(h: Hash, m: nat, n: nat, leaves: seq<Bytes>, x: Bytes, path: seq<Bytes>) returns (j: nat)
    requires m < n && !Collision(h, ProofInputs(h, m, n, leaves, x, path))
    requires Recompute(h, m, n, LeafHash(h, x), path) == (true, Some(TreeHash(h, leaves)))
    ensures j < |leaves| && Sides(j, |leaves| - 1) == Sides(m, n - 1) && x == leaves[j]
  {
    hide Replay, Fold, TreeHash, TreeInputs, TopInput, Collision, Split, Sides;
    var inputs := ProofInputs(h, m, n, leaves, x, path);
    ReplayIsFold(Node(h), m, n - 1, LeafHash(h, x), path);
    var w;
    j, w := StartsInTree(h, Sides(m, n - 1), LeafHash(h, x), path, leaves, inputs);
    var part := leaves[j..j + w];
    TreeInputsUnfold(h, part);
    NoCollision(h, inputs, LeafInput(x), TopInput(h, part));
    TopPrefix(h, part);
    assert LeafInput(x)[0] == 0;
    SameLeaf(x, part[0]);
    assert Turns(j, |leaves|) == Turns(0, 1) + Sides(m, n - 1);
    SidesTurn(j, |leaves|);
  }

  /** Claims with one sequence of branches are judged alike. */
  lemma SameSides(h: Hash, m: nat, n: nat, j: nat, N: nat, leaves: seq<Bytes>, x: Bytes, path: seq<Bytes>)
    requires m < n && j < N && Sides(m, n - 1) == Sides(j, N - 1)
    ensures Recompute(h, m, n, LeafHash(h, x), path) == Recompute(h, j, N, LeafHash(h, x), path)
    ensures ProofInputs(h, m, n, leaves, x, path) == ProofInputs(h, j, N, leaves, x, path)
  {
    hide Replay, ReplayPairs, Fold, FoldPairs, Sides, TreeInputs;
    ReplayIsFold(Node(h), m, n - 1, LeafHash(h, x), path);
    ReplayIsFold(Node(h), j, N - 1, LeafHash(h, x), path);
  }

  /** What a proof proves: whatever index and size are claimed, and of whatever path, acceptance
      against the tree hash of `leaves` means that it is the honest proof of a leaf at which the tree
      branches as the claim does. The claim is refused where no leaf is such. */
  lemma AcceptedExactly(h: Hash, m: nat, n: nat, leaves: seq<Bytes>, x: Bytes, path: seq<Bytes>)
    requires m < n && !Collision(h, ProofInputs(h, m, n, leaves, x, path))
    ensures Recompute(h, m, n, LeafHash(h, x), path) == (true, Some(TreeHash(h, leaves))) <==>
            exists j: nat :: j < |leaves| && Sides(j, |leaves| - 1) == Sides(m, n - 1)
                             && x == leaves[j] && path == AuditPath(h, j, leaves)
  {
    hide Recompute, TreeHash, AuditPath, Collision, ProofInputs, Sides;
    var N := |leaves|;
    if Recompute(h, m, n, LeafHash(h, x), path) == (true, Some(TreeHash(h, leaves))) {
      var j := AcceptedLeaf(h, m, n, leaves, x, path);
      SameSides(h, m, n, j, N, leaves, x, path);
      InclusionSound(h, j, leaves, x, path);
    }
    if j: nat :| j < N && Sides(j, N - 1) == Sides(m, n - 1) && x == leaves[j] && path == AuditPath(h, j, leaves) {
      SameSides(h, m, n, j, N, leaves, x, path);
      InclusionComplete(h, j, leaves);
    }
  }

  /** The index is bound exactly where the claim branches at m as the tree does. There the only proof
      accepted is the honest one of leaf m; anywhere else whatever is accepted is another leaf's. */
  lemma IndexBoundExactly(h: Hash, m: nat, n: nat, leaves: seq<Bytes>, x: Bytes, path: seq<Bytes>)
    requires m < n && !Collision(h, ProofInputs(h, m, n, leaves, x, path))
    requires Recompute(h, m, n, LeafHash(h, x), path) == (true, Some(TreeHash(h, leaves)))
    ensures if m < |leaves| && Sides(m, |leaves| - 1) == Sides(m, n - 1)
            then x == leaves[m] && path == AuditPath(h, m, leaves)
            else exists j: nat :: j < |leaves| && j != m && x == leaves[j] && path == AuditPath(h, j, leaves)
  {
    hide Recompute, TreeHash, AuditPath, Collision, ProofInputs, Sides;
    AcceptedExactly(h, m, n, leaves, x, path);
    var j: nat :| j < |leaves| && Sides(j, |leaves| - 1) == Sides(m, n - 1)
                  && x == leaves[j] && path == AuditPath(h, j, leaves);
    if m < |leaves| && Sides(m, |leaves| - 1) == Sides(m, n - 1) {
      SidesTurn(m, |leaves|);
      SidesTurn(j, |leaves|);
      TurnsInjective(m, j, |leaves|);
    }
  }

  /** Membership: whatever index and size a proof claims, if it is accepted against the tree hash of
      `leaves` then x is one of the leaves, or two of the strings hashed collide. */
  lemma MembershipSound(h: Hash, m: nat, n: nat, leaves: seq<Bytes>, x: Bytes, path: seq<Bytes>)
    requires Recompute(h, m, n, LeafHash(h, x), path) == (true, Some(TreeHash(h, leaves)))
    ensures m < n && (x in leaves || Collision(h, ProofInputs(h, m, n, leaves, x, path)))
  {
    hide Replay, TreeHash, TreeInputs, Collision, Sides, ProofInputs;
    if !Collision(h, ProofInputs(h, m, n, leaves, x, path)) { var j := AcceptedLeaf(h, m, n, leaves, x, path); }
  }

  /** A wrong size can move the index: under a claimed size of two, the third of three leaves is
      accepted at index one, for every hash. */
  lemma SizeMustBeTrusted(h: Hash, a: Bytes, b: Bytes, c: Bytes)
    ensures Recompute(h, 1, 2, LeafHash(h, c), [TreeHash(h, [a, b])]) == (true, Some(TreeHash(h, [a, b, c])))
  {
    var pair, all := TreeHash(h, [a, b]), [a, b, c];
    assert Split(3) == 2 && all[..2] == [a, b] && all[2..] == [c];
    assert TreeHash(h, all) == NodeHash(h, pair, LeafHash(h, c));
    assert Strip(1, 1) == (1, 1) && [pair][1..] == [];
    assert Replay(Node(h), 0, 0, TreeHash(h, all), []) == (true, Some(TreeHash(h, all)));
  }

  /** A wrong size need not matter: index zero of five leaves is judged alike under a claimed six. */
  lemma SizeCanBeWrong(h: Hash, r: Bytes, path: seq<Bytes>)
    ensures Recompute(h, 0, 6, r, path) == Recompute(h, 0, 5, r, path)
  {
    assert Sides(0, 5) == [false] + Sides(0, 2) && Sides(0, 4) == [false] + Sides(0, 2);
    ReplayIsFold(Node(h), 0, 5, r, path);
    ReplayIsFold(Node(h), 0, 4, r, path);
  }

  /** Binding across sizes: equal tree hashes mean equal leaf lists, or a collision between
      strings hashed by the two trees. */
  lemma {:induction false} TreeHashBinding(h: Hash, a: seq<Bytes>, b: seq<Bytes>)
    requires TreeHash(h, a) == TreeHash(h, b)
    ensures a == b || Collision(h, TreeInputs(h, a) + TreeInputs(h, b))
    decreases |a|, 0
  {
    hide TreeHash, TopInput, TreeInputs, Split, Collision;
    var inputs := TreeInputs(h, a) + TreeInputs(h, b);
    if !Collision(h, inputs) {
      TreeInputsUnfold(h, a);
      TreeInputsUnfold(h, b);
      NoCollision(h, inputs, TopInput(h, a), TopInput(h, b));
      SameShape(h, a, b);
      if |a| >= 2 {
        var j, k := Split(|a|), Split(|b|);
        BindHalf(h, a[..j], b[..k], inputs);
        BindHalf(h, a[j..], b[k..], inputs);
        assert a == a[..j] + a[j..] && b == b[..k] + b[k..];
      }
    }
  }

  lemma TreeInputsUnfold(h: Hash, a: seq<Bytes>)
    ensures TopInput(h, a) in TreeInputs(h, a) && h(TopInput(h, a)) == TreeHash(h, a)
    ensures |a| >= 2 ==>
              && TreeInputs(h, a[..Split(|a|)]) <= TreeInputs(h, a)
              && TreeInputs(h, a[Split(|a|)..]) <= TreeInputs(h, a)
  {}

  lemma {:induction false} BindHalf(h: Hash, a: seq<Bytes>, b: seq<Bytes>, inputs: set<Bytes>)
    requires TreeHash(h, a) == TreeHash(h, b) && !Collision(h, inputs)
    requires TreeInputs(h, a) + TreeInputs(h, b) <= inputs
    ensures a == b
    decreases |a|, 1
  {
    hide TreeHash, TreeInputs, Collision;
    TreeHashBinding(h, a, b);
    if Collision(h, TreeInputs(h, a) + TreeInputs(h, b)) {
      CollisionMonotone(h, TreeInputs(h, a) + TreeInputs(h, b), inputs);
    }
  }

  /** The 0x00 and 0x01 prefixes separate empty, singleton and larger trees. */
  lemma TopPrefix(h: Hash, a: seq<Bytes>)
    ensures |a| == 0 ==> TopInput(h, a) == []
    ensures |a| == 1 ==> TopInput(h, a) == LeafInput(a[0]) && TopInput(h, a)[0] == 0
    ensures |a| >= 2 ==>
              && TopInput(h, a) == NodeInput(TreeHash(h, a[..Split(|a|)]), TreeHash(h, a[Split(|a|)..]))
              && TopInput(h, a)[0] == 1
  {
    hide TreeHash, Split;
  }

  lemma SameShape(h: Hash, a: seq<Bytes>, b: seq<Bytes>)
    requires TopInput(h, a) == TopInput(h, b)
    ensures |a| <= 1 ==> a == b
    ensures |a| >= 2 ==> |b| >= 2
    ensures |a| >= 2 ==>
              && TreeHash(h, a[..Split(|a|)]) == TreeHash(h, b[..Split(|b|)])
              && TreeHash(h, a[Split(|a|)..]) == TreeHash(h, b[Split(|b|)..])
  {
    hide TreeHash, TopInput, Split;
    TopPrefix(h, a);
    TopPrefix(h, b);
    if |a| == 1 { SameLeaf(a[0], b[0]); }
    if |a| >= 2 { SameHalves(h, a, b); }
  }

  lemma SameLeaf(x: Bytes, y: Bytes)
    requires LeafInput(x) == LeafInput(y)
    ensures x == y
  {
    assert LeafInput(x)[1..] == x && LeafInput(y)[1..] == y;
  }

  lemma SameHalves(h: Hash, a: seq<Bytes>, b: seq<Bytes>)
    requires |a| >= 2 && |b| >= 2 && TopInput(h, a) == TopInput(h, b)
    ensures TreeHash(h, a[..Split(|a|)]) == TreeHash(h, b[..Split(|b|)])
    ensures TreeHash(h, a[Split(|a|)..]) == TreeHash(h, b[Split(|b|)..])
  {
    hide TreeHash, Split;
    NodeInputInjective(TreeHash(h, a[..Split(|a|)]), TreeHash(h, a[Split(|a|)..]),
                       TreeHash(h, b[..Split(|b|)]), TreeHash(h, b[Split(|b|)..]));
  }
}
