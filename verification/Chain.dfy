/** The block tree with its skip pointers, and the active chain indexed by height. */
module Chain {
  import opened ArithSpec
  import opened SkipList

  // ----- the tree

  /** Blocks closed under predecessors, whose skip pointers lead to the computed height or nowhere. */
  ghost predicate Tree(blocks: set<BlockIndex>)
    reads blocks
  {
    forall x <- blocks :: x.Rooted() && (x.pprev != null ==> x.pprev in blocks) && x.SkipRight()
  }

  /** Every block with a predecessor has its skip pointer. */
  ghost predicate Skipping(blocks: set<BlockIndex>)
    reads blocks
  {
    forall x <- blocks :: x.pprev != null ==> x.pskip != null
  }

  lemma InTree(blocks: set<BlockIndex>, x: BlockIndex)
    requires Tree(blocks) && x in blocks
    ensures x.Rooted() && (x.pprev != null ==> x.pprev in blocks)
  {
  }

  class BlockIndex {
    const pprev: BlockIndex?
    const nHeight: int
    const hash: nat
    var pskip: BlockIndex?

    /** The links to the predecessors lead down to a block of height 0. */
    ghost predicate Rooted()
      ensures Rooted() ==> nHeight >= 0
      decreases nHeight
    {
      if pprev == null then nHeight == 0
      else nHeight > 0 && pprev.nHeight == nHeight - 1 && pprev.Rooted()
    }

    /** The predecessor at height `h`, by walking one block at a time. */
    ghost function Ancestor(h: int): (r: BlockIndex)
      requires Rooted() && 0 <= h <= nHeight
      ensures r.nHeight == h && r.Rooted()
      decreases nHeight
    {
      if h == nHeight then this else pprev.Ancestor(h)
    }

    ghost predicate SkipRight()
      requires Rooted()
      reads this
    {
      pskip != null ==>
        && nHeight > 0
        && 0 <= GetSkipHeight(nHeight) < nHeight
        && pskip == Ancestor(GetSkipHeight(nHeight))
    }

    constructor (pprev: BlockIndex?, hash: nat)
      requires pprev != null ==> pprev.Rooted()
      ensures Rooted() && this.pprev == pprev && this.hash == hash && pskip == null
    {
      this.pprev, this.hash, pskip := pprev, hash, null;
      nHeight := if pprev == null then 0 else pprev.nHeight + 1;
    }

    static lemma SkipLink(blocks: set<BlockIndex>, walk: BlockIndex)
      requires Tree(blocks) && walk in blocks && walk.nHeight > 0 && 0 <= GetSkipHeight(walk.nHeight) < walk.nHeight
      ensures walk.Rooted() && walk.pprev != null && walk.pprev in blocks
      ensures walk.pskip != null ==> walk.pskip == walk.Ancestor(GetSkipHeight(walk.nHeight))
      ensures Skipping(blocks) ==> walk.pskip != null
    {
      hide GetSkipHeight;
      assert walk.SkipRight();
    }

    lemma OwnAncestor()
      requires Rooted()
      ensures nHeight >= 0 && Ancestor(nHeight) == this
    {
    }

    /** One step further down the walk. */
    lemma NextDown(walk: BlockIndex)
      requires Rooted() && walk.Rooted() && 0 <= walk.nHeight <= nHeight && walk == Ancestor(walk.nHeight)
      ensures walk.pprev == null ==> walk.nHeight == 0
      ensures walk.pprev != null ==> walk.nHeight >= 1 && walk.pprev.nHeight == walk.nHeight - 1 && walk.pprev == Ancestor(walk.nHeight - 1)
    {
      if walk.pprev != null { AncestorOfAncestor(walk.nHeight, walk.nHeight - 1); }
    }

    lemma {:induction false} AncestorOfAncestor(h: int, g: int)
      requires Rooted() && 0 <= g <= h <= nHeight
      ensures Ancestor(h).Ancestor(g) == Ancestor(g)
      decreases nHeight
    {
      if h < nHeight { pprev.AncestorOfAncestor(h, g); }
    }

    lemma {:induction false} AncestorInTree(blocks: set<BlockIndex>, h: int)
      requires Tree(blocks) && this in blocks && 0 <= h <= nHeight
      ensures Ancestor(h) in blocks
      decreases nHeight
    {
      if h < nHeight { pprev.AncestorInTree(blocks, h); }
    }

    /** Walks back by skip pointers where they help. */
    method GetAncestor(height: int, ghost blocks: set<BlockIndex>) returns (r: BlockIndex?, ghost steps: nat)
      requires Tree(blocks) && this in blocks
      ensures r == if 0 <= height <= nHeight then Ancestor(height) else null
      ensures 0 <= height <= nHeight && Skipping(blocks) ==> steps == Steps(nHeight, height)
    {
      hide GetSkipHeight, Steps, NextHeight, Tree, Skipping, Ancestor, Rooted;
      InTree(blocks, this);
      OwnAncestor();
      steps := 0;
      if height > nHeight || height < 0 {
        return null, steps;
      }
      var walk: BlockIndex := this;
      var heightWalk := nHeight;
      while heightWalk > height
        invariant Tree(blocks) && walk in blocks
        invariant height <= heightWalk <= nHeight && walk == Ancestor(heightWalk)
        invariant Skipping(blocks) ==> steps + Steps(heightWalk, height) == Steps(nHeight, height)
        decreases heightWalk
      {
        var heightSkip := GetSkipHeight(heightWalk);
        var heightSkipPrev := GetSkipHeight(heightWalk - 1);
        SkipHeightBelow(heightWalk);
        InTree(blocks, walk);
        NextDown(walk);
        SkipLink(blocks, walk);
        AncestorOfAncestor(heightWalk, heightSkip);
        AncestorInTree(blocks, heightSkip);
        NextIs(heightWalk, height);
        StepTo(heightWalk, height, NextHeight(heightWalk, height));
        steps := steps + 1;
        if walk.pskip != null &&
           (heightSkip == height ||
            (heightSkip > height && !(heightSkipPrev < heightSkip - 2 && heightSkipPrev >= height)))
        {
          walk := walk.pskip;
          heightWalk := heightSkip;
        } else {
          assert walk.pprev != null;
          walk := walk.pprev;
          heightWalk := heightWalk - 1;
        }
      }
      StepsSame(height);
      return walk, steps;
    }

    /** Adds the skip pointer of a block whose predecessor is already in the tree. */
    method BuildSkip(ghost blocks: set<BlockIndex>)
      requires Tree(blocks) && this !in blocks && Rooted() && (pprev != null ==> pprev in blocks) && pskip == null
      modifies this`pskip
      ensures Tree(blocks + {this}) && (old(Skipping(blocks)) ==> Skipping(blocks + {this}))
      ensures pprev != null ==> pskip != null
    {
      if pprev != null {
        SkipHeightBelow(nHeight);
        ghost var steps;
        pskip, steps := pprev.GetAncestor(GetSkipHeight(nHeight), blocks);
        assert pskip == Ancestor(GetSkipHeight(nHeight));
      }
      forall x <- blocks ensures x.SkipRight() { assert old(x.SkipRight()); }
    }
  }

  // ----- the active chain

  class CChain {
    var vChain: seq<BlockIndex?>

    /** The chain is empty, or is the path from its tip down to height 0. */
    ghost predicate Valid(blocks: set<BlockIndex>)
      reads this, blocks
    {
      && Tree(blocks)
      && (|vChain| > 0 ==>
            && vChain[|vChain| - 1] != null
            && IsPath(vChain, vChain[|vChain| - 1], blocks))
    }

    static ghost predicate IsPath(chain: seq<BlockIndex?>, tip: BlockIndex, blocks: set<BlockIndex>)
    {
      && tip in blocks && tip.Rooted() && tip.nHeight == |chain| - 1
      && forall h | 0 <= h < |chain| :: chain[h] == tip.Ancestor(h)
    }

    constructor ()
      ensures vChain == []
    {
      vChain := [];
    }

    function Tip(): BlockIndex?
      reads this
    {
      if |vChain| > 0 then vChain[|vChain| - 1] else null
    }

    function Height(): int
      reads this
    {
      |vChain| - 1
    }

    function At(nHeight: int): BlockIndex?
      reads this
    {
      if nHeight < 0 || nHeight >= |vChain| then null else vChain[nHeight]
    }

    predicate Contains(pindex: BlockIndex)
      reads this
    {
      At(pindex.nHeight) == pindex
    }

    /** Makes `pindex` the tip, stopping as soon as the old chain is met. */
    method SetTip(pindex: BlockIndex?, ghost blocks: set<BlockIndex>)
      requires Valid(blocks) && (pindex != null ==> pindex in blocks)
      modifies this
      ensures Valid(blocks)
      ensures pindex == null ==> vChain == []
      ensures pindex != null ==> IsPath(vChain, pindex, blocks)
    {
      hide Tree, BlockIndex.Ancestor, BlockIndex.Rooted;
      if pindex == null {
        vChain := [];
        return;
      }
      InTree(blocks, pindex);
      pindex.OwnAncestor();
      var n := pindex.nHeight + 1;
      ghost var tip := Tip();
      vChain := if n <= |vChain| then vChain[..n] else vChain + seq(n - |vChain|, _ => null);
      ghost var resized := vChain;
      var walk: BlockIndex? := pindex;
      while walk != null && vChain[walk.nHeight] != walk
        invariant |vChain| == n && Tree(blocks)
        invariant walk != null ==> walk in blocks && 0 <= walk.nHeight < n && walk == pindex.Ancestor(walk.nHeight)
        invariant forall h | 0 <= h < n && (walk != null ==> walk.nHeight < h) :: vChain[h] == pindex.Ancestor(h)
        invariant forall h | 0 <= h < n && walk != null && h <= walk.nHeight :: vChain[h] == resized[h]
        decreases if walk != null then walk.nHeight + 1 else 0
      {
        InTree(blocks, walk);
        vChain := vChain[walk.nHeight := walk];
        pindex.NextDown(walk);
        walk := walk.pprev;
      }
      if walk != null {
        MeetsPath(old(vChain), tip, pindex, walk.nHeight, blocks);
      }
    }

    /** Below a common block, two paths are the same. */
    static lemma MeetsPath(chain: seq<BlockIndex?>, tip: BlockIndex, pindex: BlockIndex, at: int, blocks: set<BlockIndex>)
      requires IsPath(chain, tip, blocks) && pindex.Rooted() && 0 <= at < |chain| && at <= pindex.nHeight
      requires chain[at] == pindex.Ancestor(at)
      ensures forall h | 0 <= h <= at :: chain[h] == pindex.Ancestor(h)
    {
      forall h | 0 <= h <= at ensures chain[h] == pindex.Ancestor(h) {
        tip.AncestorOfAncestor(at, h);
        pindex.AncestorOfAncestor(at, h);
      }
    }

    /** The chain and the path of `pindex` have the same block at height `h`. */
    ghost predicate Shares(pindex: BlockIndex, h: int)
      requires pindex.Rooted()
      reads this
    {
      0 <= h <= pindex.nHeight && h < |vChain| && vChain[h] == pindex.Ancestor(h)
    }

    /** The highest block that the chain shares with the path of `pindex`, or null when there is none. */
    method FindFork(pindex: BlockIndex?, ghost blocks: set<BlockIndex>) returns (r: BlockIndex?)
      requires Valid(blocks) && (pindex != null ==> pindex in blocks)
      ensures pindex == null ==> r == null
      ensures pindex != null ==> pindex.Rooted()
      ensures pindex != null && r == null ==> forall h :: !Shares(pindex, h)
      ensures pindex != null && r != null ==>
                && Shares(pindex, r.nHeight) && r == pindex.Ancestor(r.nHeight)
                && forall h | r.nHeight < h :: !Shares(pindex, h)
    {
      hide Tree;
      if pindex == null {
        return null;
      }
      InTree(blocks, pindex);
      r := pindex;
      if pindex.nHeight > Height() {
        ghost var steps;
        r, steps := pindex.GetAncestor(Height(), blocks);
        if r != null { pindex.AncestorInTree(blocks, Height()); }
      }
      while r != null && !Contains(r)
        invariant Valid(blocks)
        invariant r != null ==> r in blocks && 0 <= r.nHeight <= pindex.nHeight && r == pindex.Ancestor(r.nHeight)
        invariant forall h | (r != null ==> r.nHeight < h) :: !Shares(pindex, h)
        decreases if r != null then r.nHeight + 1 else 0
      {
        InTree(blocks, r);
        if r.pprev != null { pindex.AncestorOfAncestor(r.nHeight, r.nHeight - 1); }
        r := r.pprev;
      }
    }

    static lemma PathGrows(chain: seq<BlockIndex?>, tip: BlockIndex, blocks: set<BlockIndex>, more: set<BlockIndex>)
      requires IsPath(chain, tip, blocks) && blocks <= more
      ensures IsPath(chain, tip, more)
    {
    }

    /** A growing tree leaves the chain valid. */
    lemma ValidGrows(blocks: set<BlockIndex>, more: set<BlockIndex>)
      requires Valid(blocks) && blocks <= more && Tree(more)
      ensures Valid(more)
    {
    }

    /** Hashes of exponentially sparser predecessors of `pindex` (of the tip, if null), down to height 0. */
    method GetLocator(pindex: BlockIndex?, ghost blocks: set<BlockIndex>)
      returns (vHave: seq<nat>)
      requires Valid(blocks) && (pindex != null ==> pindex in blocks)
      ensures var start := if pindex != null then pindex else if vChain == [] then null else vChain[|vChain| - 1];
              if start == null then vHave == [] else start.Rooted() && LocatorOf(start, vHave)
    {
      hide Tree, Locating, IsLocator, LocatorOf, Descending, DescentAfter, StepAfter, Scheduled;
      var nStep := 1;
      ghost var nodes: seq<BlockIndex> := [];
      vHave := [];
      var walk := pindex;
      if walk == null {
        walk := Tip();
      }
      ghost var start := walk;
      StepsStart();
      if start != null {
        InTree(blocks, start);
        StartLocating(start);
      }
      while walk != null
        invariant Valid(blocks)
        invariant |nodes| == |vHave| && forall i | 0 <= i < |nodes| :: vHave[i] == nodes[i].hash
        invariant start == null ==> walk == null && nodes == []
        invariant start != null ==> start.Rooted() && walk != null && walk in blocks && Locating(start, nodes, walk)
        invariant nStep == StepAfter(|nodes|)
        decreases if walk != null then walk.nHeight + 1 else 0
      {
        ghost var before := nodes;
        InTree(blocks, walk);
        nodes := nodes + [walk];
        vHave := vHave + [walk.hash];
        if walk.nHeight == 0 {
          Located(start, before, walk);
          HashesListed(start, nodes, vHave);
          break;
        }
        var nHeight := if walk.nHeight - nStep < 0 then 0 else walk.nHeight - nStep;
        NextNode(start, before, walk, nHeight);
        walk.AncestorInTree(blocks, nHeight);
        if Contains(walk) {
          PathOf(walk, nHeight, blocks);
          walk := At(nHeight);
        } else {
          ghost var steps;
          walk, steps := walk.GetAncestor(nHeight, blocks);
        }
        StepsOn(|vHave| - 1);
        if |vHave| > 10 {
          nStep := nStep * 2;
        }
      }
    }

    lemma PathOf(walk: BlockIndex, h: int, blocks: set<BlockIndex>)
      requires Valid(blocks) && Contains(walk) && walk in blocks && 0 <= h <= walk.nHeight
      ensures At(h) == walk.Ancestor(h)
    {
      MeetsPath(vChain, vChain[|vChain| - 1], walk, walk.nHeight, blocks);
    }
  }

  // ----- locators

  function Log2(n: nat): nat { if n < 2 then 0 else 1 + Log2(n / 2) }

  lemma {:induction false} Log2AtLeast(k: nat, n: nat)
    requires Pow2(k) <= n
    ensures k <= Log2(n)
  {
    if k > 0 { Log2AtLeast(k - 1, n / 2); }
  }

  /** The step in force once `k` nodes have been listed. */
  function StepAfter(k: nat): (s: nat)
    ensures s >= 1
  {
    if k <= 10 then 1 else Pow2(k - 10)
  }

  lemma StepsStart()
    ensures StepAfter(0) == 1
  {
  }

  lemma StepsOn(k: nat)
    ensures StepAfter(k + 1) == if k + 1 > 10 then 2 * StepAfter(k) else StepAfter(k)
  {
    if k == 10 { assert Pow2(1) == 2; }
  }

  /** How far below the start the next node after `k` nodes lies, while height 0 is not reached. */
  function DescentAfter(k: nat): nat { if k <= 11 then k else 9 + Pow2(k - 10) }

  /** The height of entry `k` of a locator that starts at height `h`. */
  function Scheduled(h: int, k: nat): int { if DescentAfter(k) <= h then h - DescentAfter(k) else 0 }

  /** The hashes of the ancestors at the scheduled heights, ending with the first that has height 0. */
  ghost predicate LocatorOf(start: BlockIndex, vHave: seq<nat>)
    requires start.Rooted()
  {
    && |vHave| > 0 && Scheduled(start.nHeight, |vHave| - 1) == 0
    && (forall i | 0 <= i < |vHave| ::
          0 <= Scheduled(start.nHeight, i) <= start.nHeight && vHave[i] == start.Ancestor(Scheduled(start.nHeight, i)).hash)
    && (forall i, j | 0 <= i < j < |vHave| :: Scheduled(start.nHeight, i) > Scheduled(start.nHeight, j))
    && (start.nHeight >= 1 ==> |vHave| <= 12 + Log2(start.nHeight))
  }

  lemma HashesListed(start: BlockIndex, nodes: seq<BlockIndex>, vHave: seq<nat>)
    requires start.Rooted() && IsLocator(start, nodes)
    requires |vHave| == |nodes| && forall i | 0 <= i < |nodes| :: vHave[i] == nodes[i].hash
    ensures LocatorOf(start, vHave)
  {
    hide Scheduled, BlockIndex.Ancestor;
    forall i | 0 <= i < |nodes|
      ensures 0 <= Scheduled(start.nHeight, i) <= start.nHeight && vHave[i] == start.Ancestor(Scheduled(start.nHeight, i)).hash
    {
      assert nodes[i].nHeight == Scheduled(start.nHeight, i);
    }
    forall i, j | 0 <= i < j < |vHave| ensures Scheduled(start.nHeight, i) > Scheduled(start.nHeight, j) {
      assert nodes[i].nHeight > nodes[j].nHeight;
    }
  }

  lemma DescentStep(k: nat)
    ensures DescentAfter(k + 1) == DescentAfter(k) + StepAfter(k)
  {
    if k == 10 || k == 11 { assert Pow2(0) == 1 && Pow2(1) == 2 && Pow2(2) == 4; }
  }

  ghost predicate Descending(start: BlockIndex, nodes: seq<BlockIndex>)
    requires start.Rooted()
  {
    && (forall i | 0 <= i < |nodes| ::
          0 <= nodes[i].nHeight <= start.nHeight && nodes[i] == start.Ancestor(nodes[i].nHeight))
    && (forall i, j | 0 <= i < j < |nodes| :: nodes[i].nHeight > nodes[j].nHeight)
    && (|nodes| > 0 ==> nodes[0] == start)
  }

  /** A strictly descending list of predecessors from `start` to height 0, logarithmic in its height. */
  ghost predicate IsLocator(start: BlockIndex, nodes: seq<BlockIndex>)
    requires start.Rooted()
  {
    && |nodes| > 0 && Descending(start, nodes) && nodes[|nodes| - 1].nHeight == 0
    && (forall i | 0 <= i < |nodes| :: nodes[i].nHeight == Scheduled(start.nHeight, i))
    && (start.nHeight >= 1 ==> |nodes| <= 12 + Log2(start.nHeight))
  }

  /** The list so far, with `walk` as the next node. */
  ghost predicate Locating(start: BlockIndex, nodes: seq<BlockIndex>, walk: BlockIndex)
    requires start.Rooted()
  {
    && Descending(start, nodes + [walk])
    && walk.nHeight == Scheduled(start.nHeight, |nodes|)
    && (forall i | 0 <= i < |nodes| :: nodes[i].nHeight == Scheduled(start.nHeight, i))
    && (|nodes| > 0 ==> start.nHeight > DescentAfter(|nodes| - 1))
  }

  lemma StartLocating(start: BlockIndex)
    requires start.Rooted()
    ensures Locating(start, [], start)
  {
    assert start.Ancestor(start.nHeight) == start;
  }

  lemma Located(start: BlockIndex, nodes: seq<BlockIndex>, walk: BlockIndex)
    requires start.Rooted() && Locating(start, nodes, walk) && walk.nHeight == 0
    ensures IsLocator(start, nodes + [walk])
  {
    var n := |nodes| + 1;
    if n > 12 { Log2AtLeast(n - 12, start.nHeight); }
  }

  lemma NextNode(start: BlockIndex, nodes: seq<BlockIndex>, walk: BlockIndex, next: int)
    requires start.Rooted() && Locating(start, nodes, walk) && walk.nHeight > 0
    requires next == if walk.nHeight - StepAfter(|nodes|) < 0 then 0 else walk.nHeight - StepAfter(|nodes|)
    ensures walk.Rooted() && 0 <= next < walk.nHeight && Locating(start, nodes + [walk], walk.Ancestor(next))
  {
    hide BlockIndex.Ancestor, BlockIndex.Rooted, DescentAfter, StepAfter;
    DescentStep(|nodes|);
    assert walk == (nodes + [walk])[|nodes|];
    start.AncestorOfAncestor(walk.nHeight, next);
    var below := walk.Ancestor(next);
    DescendOn(start, nodes + [walk], below);
  }

  lemma DescendOn(start: BlockIndex, nodes: seq<BlockIndex>, next: BlockIndex)
    requires start.Rooted() && Descending(start, nodes) && nodes != []
    requires 0 <= next.nHeight < nodes[|nodes| - 1].nHeight && next == start.Ancestor(next.nHeight)
    ensures Descending(start, nodes + [next])
  {
    hide BlockIndex.Ancestor, BlockIndex.Rooted;
  }

  // ----- whole runs

  /** Blocks and tips are named by the order in which the blocks came; a predecessor or tip that has not come is none. */
  datatype ChainOp = NewBlock(prev: int, hash: nat) | NewTip(tip: int)

  function Named(nodes: seq<BlockIndex>, i: int): BlockIndex? { if 0 <= i < |nodes| then nodes[i] else null }

  ghost function Blocks(nodes: seq<BlockIndex>): set<BlockIndex> { set x | x in nodes }

  /** The operations that bring blocks. */
  function Arrived(ops: seq<ChainOp>): (r: seq<ChainOp>)
    ensures forall k | 0 <= k < |r| :: r[k].NewBlock?
  {
    if ops == [] then [] else
      var n := |ops| - 1;
      Arrived(ops[..n]) + if ops[n].NewBlock? then [ops[n]] else []
  }

  /** Each block is the one its operation describes, on the predecessor that was known then. */
  ghost predicate Describes(ops: seq<ChainOp>, nodes: seq<BlockIndex>) {
    && |nodes| == |Arrived(ops)|
    && forall k | 0 <= k < |nodes| :: nodes[k].hash == Arrived(ops)[k].hash && nodes[k].pprev == Named(nodes[..k], Arrived(ops)[k].prev)
  }

  /** The block that the last choice of a tip named at that moment. */
  ghost function LastTip(ops: seq<ChainOp>, nodes: seq<BlockIndex>): BlockIndex? {
    if ops == [] then null else
      var n := |ops| - 1;
      var known := |Arrived(ops[..n])|;
      if ops[n].NewTip? then Named(if known <= |nodes| then nodes[..known] else nodes, ops[n].tip)
      else LastTip(ops[..n], nodes)
  }

  lemma {:induction false} LastTipKept(ops: seq<ChainOp>, nodes: seq<BlockIndex>, more: seq<BlockIndex>)
    requires |Arrived(ops)| <= |nodes| && nodes <= more
    ensures LastTip(ops, more) == LastTip(ops, nodes)
  {
    if ops != [] {
      var n := |ops| - 1;
      var known := |Arrived(ops[..n])|;
      assert more[..known] == nodes[..known];
      LastTipKept(ops[..n], nodes, more);
    }
  }

  lemma ArrivedNext(ops: seq<ChainOp>, i: nat)
    requires i < |ops|
    ensures Arrived(ops[..i + 1]) == Arrived(ops[..i]) + if ops[i].NewBlock? then [ops[i]] else []
  {
    assert ops[..i + 1][..i] == ops[..i];
  }

  lemma NextBlock(ops: seq<ChainOp>, i: nat, nodes: seq<BlockIndex>, block: BlockIndex)
    requires i < |ops| && ops[i].NewBlock? && Describes(ops[..i], nodes)
    requires block.hash == ops[i].hash && block.pprev == Named(nodes, ops[i].prev)
    ensures Describes(ops[..i + 1], nodes + [block]) && LastTip(ops[..i + 1], nodes + [block]) == LastTip(ops[..i], nodes)
  {
    hide Arrived;
    var more := nodes + [block];
    ArrivedNext(ops, i);
    assert forall k | 0 <= k <= |nodes| :: more[..k] == nodes[..k];
    assert nodes[..|nodes|] == nodes;
    LastTipKept(ops[..i], nodes, more);
    assert ops[..i + 1][..i] == ops[..i];
  }

  lemma NextTip(ops: seq<ChainOp>, i: nat, nodes: seq<BlockIndex>)
    requires i < |ops| && ops[i].NewTip? && Describes(ops[..i], nodes)
    ensures Describes(ops[..i + 1], nodes) && LastTip(ops[..i + 1], nodes) == Named(nodes, ops[i].tip)
  {
    hide Arrived;
    ArrivedNext(ops, i);
    assert ops[..i + 1][..i] == ops[..i];
    assert nodes[..|nodes|] == nodes;
  }

  /** Whatever blocks arrive and whatever tips are chosen, the chain is exactly the path of the last tip. */
  method Run(ops: seq<ChainOp>) returns (chain: CChain, nodes: seq<BlockIndex>, tip: BlockIndex?)
    ensures Describes(ops, nodes) && tip == LastTip(ops, nodes)
    ensures chain.Valid(Blocks(nodes)) && Skipping(Blocks(nodes))
    ensures tip == null ==> chain.vChain == []
    ensures tip != null ==> tip in nodes && CChain.IsPath(chain.vChain, tip, Blocks(nodes))
  {
    hide Tree, CChain.IsPath, Skipping, Describes, LastTip;
    chain := new CChain();
    nodes, tip := [], null;
    NoBlocks();
    assert ops[..0] == [];
    for i := 0 to |ops|
      invariant Describes(ops[..i], nodes) && tip == LastTip(ops[..i], nodes)
      invariant fresh(chain) && chain.Valid(Blocks(nodes)) && Skipping(Blocks(nodes))
      invariant tip == null ==> chain.vChain == []
      invariant tip != null ==> tip in nodes && CChain.IsPath(chain.vChain, tip, Blocks(nodes))
    {
      match ops[i] {
        case NewBlock(prev, hash) =>
          ghost var blocks := Blocks(nodes);
          var pprev := Named(nodes, prev);
          if pprev != null { InTree(blocks, pprev); }
          var block := new BlockIndex(pprev, hash);
          NextBlock(ops, i, nodes, block);
          block.BuildSkip(blocks);
          nodes := nodes + [block];
          assert Blocks(nodes) == blocks + {block};
          chain.ValidGrows(blocks, Blocks(nodes));
          if tip != null { CChain.PathGrows(chain.vChain, tip, blocks, Blocks(nodes)); }
        case NewTip(t) =>
          NextTip(ops, i, nodes);
          tip := Named(nodes, t);
          chain.SetTip(tip, Blocks(nodes));
      }
    }
    assert ops[..|ops|] == ops;
  }

  lemma NoBlocks()
    ensures Tree(Blocks([])) && Skipping(Blocks([])) && Describes([], []) && LastTip([], []) == null
  {
  }
}
