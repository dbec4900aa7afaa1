/** The block index and the active chain of src/chain.{h,cpp}: skip-list ancestors, the in-memory chain
    vector, fork search and block locators. */
module BlockTree {
  import opened Powers

  // ----- Heights the skip pointers jump to -----

  /** n & (n - 1) */
  function InvertLowestOne(n: nat): (r: nat)
    ensures r <= n && (n > 0 ==> r < n)
  {
    if n == 0 then 0 else AndBound(n, n - 1); And(n, n - 1)
  }

  lemma InvertOdd(n: nat)
    ensures InvertLowestOne(2 * n + 1) == 2 * n
  {
    AndSelf(n);
    assert (2 * n + 1) / 2 == n && (2 * n) / 2 == n;
  }

  lemma InvertEven(n: nat)
    ensures InvertLowestOne(2 * n) == 2 * InvertLowestOne(n)
  {
    if n > 0 {
      assert (2 * n) / 2 == n && (2 * n - 1) / 2 == n - 1;
    }
  }

  /** The lowest set bit, and only it, is cleared. */
  lemma {:induction false} InvertLowestOneClears(m: nat, k: nat)
    ensures InvertLowestOne((2 * m + 1) * Pow2(k)) == 2 * m * Pow2(k)
  {
    hide InvertLowestOne;
    if k == 0 {
      InvertOdd(m);
    } else {
      InvertLowestOneClears(m, k - 1);
      InvertEven((2 * m + 1) * Pow2(k - 1));
      MulAssoc(2 * m + 1, 2, Pow2(k - 1));
      MulAssoc(2 * m, 2, Pow2(k - 1));
    }
  }

  function GetSkipHeight(height: nat): (r: nat)
    ensures height > 0 ==> r < height
  {
    if height < 2 then 0
    else if height % 2 == 1 then InvertLowestOne(InvertLowestOne(height - 1)) + 1
    else InvertLowestOne(height)
  }

  /** From an even height the skip loses the lowest set bit. */
  lemma SkipFromEven(m: nat, k: nat)
    requires k >= 1
    ensures GetSkipHeight((2 * m + 1) * Pow2(k)) == 2 * m * Pow2(k)
  {
    hide InvertLowestOne;
    EvenProduct(2 * m + 1, k);
    InvertLowestOneClears(m, k);
  }

  /** From an odd height it goes to one above the height minus one without its two lowest set bits; from a power of
      two plus one, to 1. */
  lemma SkipFromOdd(m: nat, k: nat, p: nat, l: nat)
    requires k >= 1
    ensures 2 * m * Pow2(k) == (2 * p + 1) * Pow2(l) ==> GetSkipHeight((2 * m + 1) * Pow2(k) + 1) == 2 * p * Pow2(l) + 1
    ensures m == 0 ==> GetSkipHeight((2 * m + 1) * Pow2(k) + 1) == 1
  {
    hide InvertLowestOne;
    EvenProduct(2 * m + 1, k);
    InvertLowestOneClears(m, k);
    InvertLowestOneClears(p, l);
    InvertZero();
  }

  lemma InvertZero()
    ensures InvertLowestOne(0) == 0
  {
  }

  lemma EvenProduct(q: nat, k: nat)
    requires k >= 1 && q >= 1
    ensures q * Pow2(k) >= 2 && q * Pow2(k) % 2 == 0
  {
    MulAssoc(q, 2, Pow2(k - 1));
    assert Pow2(k) == 2 * Pow2(k - 1);
    MulMono(1, q, 1, Pow2(k - 1));
    assert q * Pow2(k) == 2 * (q * Pow2(k - 1));
  }

  // ----- Blocks -----

  /** A CBlockIndex. The link to the predecessor and the height are set once, when the block is entered. */
  class BlockIndex {
    const hash: nat
    const pprev: BlockIndex?
    const nHeight: nat
    var pskip: BlockIndex?

    /** Enters a block under `prev` (null for genesis); BuildSkip is still to be called. */
    constructor (hash: nat, prev: BlockIndex?, ghost tree: set<BlockIndex>)
      requires TreeOk(tree) && (prev != null ==> prev in tree)
      ensures pprev == prev && this.hash == hash && pskip == null
      ensures TreeOk(tree + {this})
    {
      this.hash := hash;
      pprev := prev;
      nHeight := if prev == null then 0 else prev.nHeight + 1;
      pskip := null;
    }

    method BuildSkip(ghost tree: set<BlockIndex>)
      requires TreeOk(tree) && this in tree
      modifies this`pskip
      ensures TreeOk(tree)
      ensures pprev != null ==> pskip == Ancestor(this, GetSkipHeight(nHeight))
    {
      if pprev != null {
        pskip := GetAncestor(pprev, GetSkipHeight(nHeight), tree);
      }
    }
  }

  /** Heights count the links back to genesis. */
  ghost predicate Linked(b: BlockIndex)
    decreases b.nHeight
  {
    if b.pprev == null then b.nHeight == 0
    else b.nHeight == b.pprev.nHeight + 1 && Linked(b.pprev)
  }

  /** A block tree: closed under pprev, and every skip pointer that is set points to its ancestor. */
  ghost predicate TreeOk(tree: set<BlockIndex>)
    reads tree
  {
    forall b | b in tree ::
      && Linked(b)
      && (b.pprev != null ==> b.pprev in tree)
      && (b.pskip != null ==> b.nHeight > 0 && b.pskip in tree && b.pskip == Ancestor(b, GetSkipHeight(b.nHeight)))
  }

  /** The ancestor at a height, walking pprev one block at a time. */
  ghost function Ancestor(b: BlockIndex, h: nat): (r: BlockIndex)
    requires Linked(b) && h <= b.nHeight
    ensures Linked(r) && r.nHeight == h
    decreases b.nHeight
  {
    if h == b.nHeight then b else Ancestor(b.pprev, h)
  }

  lemma {:induction false} AncestorOfAncestor(b: BlockIndex, h: nat, g: nat)
    requires Linked(b) && g <= h <= b.nHeight
    ensures Ancestor(Ancestor(b, h), g) == Ancestor(b, g)
    decreases b.nHeight
  {
    if h < b.nHeight {
      AncestorOfAncestor(b.pprev, h, g);
    }
  }

  lemma AncestorPrev(b: BlockIndex, h: nat)
    requires Linked(b) && 0 < h <= b.nHeight
    ensures Ancestor(b, h).pprev == Ancestor(b, h - 1)
  {
    AncestorOfAncestor(b, h, h - 1);
  }

  lemma TreeMember(tree: set<BlockIndex>, b: BlockIndex)
    requires TreeOk(tree) && b in tree
    ensures Linked(b) && (b.nHeight == 0 <==> b.pprev == null) && (b.pprev != null ==> b.pprev in tree)
  {
  }

  /** CBlockIndex::GetAncestor: the walk that takes skip pointers where they help finds the same block as
      the walk along pprev. */
  method GetAncestor(block: BlockIndex, height: int, ghost tree: set<BlockIndex>) returns (r: BlockIndex?)
    requires TreeOk(tree) && block in tree
    ensures height < 0 || height > block.nHeight ==> r == null
    ensures 0 <= height <= block.nHeight ==> r in tree && r == Ancestor(block, height)
  {
    if height > block.nHeight || height < 0 {
      return null;
    }
    var walk := block;
    var heightWalk := block.nHeight;
    while heightWalk > height
      invariant walk in tree && walk.nHeight == heightWalk >= height
      invariant Ancestor(walk, height) == Ancestor(block, height)
      decreases heightWalk
    {
      var heightSkip := GetSkipHeight(heightWalk);
      var heightSkipPrev := GetSkipHeight(heightWalk - 1);
      if walk.pskip != null
        && (heightSkip == height
            || (heightSkip > height && !(heightSkipPrev < heightSkip - 2 && heightSkipPrev >= height)))
      {
        AncestorOfAncestor(walk, heightSkip, height);
        walk := walk.pskip;
        heightWalk := heightSkip;
      } else {
        assert walk.pprev != null;  // the assert of the source
        walk := walk.pprev;
        heightWalk := heightWalk - 1;
      }
    }
    return walk;
  }
}

module ActiveChain {
  import opened Powers
  import opened BlockTree

  /** The blocks from genesis to b. */
  ghost function PathTo(b: BlockIndex): (path: seq<BlockIndex>)
    requires Linked(b)
    ensures |path| == b.nHeight + 1 && path[b.nHeight] == b
    decreases b.nHeight
  {
    (if b.pprev == null then [] else PathTo(b.pprev)) + [b]
  }

  lemma {:induction false} PathIsAncestors(b: BlockIndex, h: nat)
    requires Linked(b) && h <= b.nHeight
    ensures PathTo(b)[h] == Ancestor(b, h)
    ensures PathTo(Ancestor(b, h)) == PathTo(b)[..h + 1]
    decreases b.nHeight
  {
    if h < b.nHeight {
      PathIsAncestors(b.pprev, h);
    }
  }

  /** The predecessor of the block at height h on a path is the block below it. */
  lemma PathStep(b: BlockIndex, h: nat)
    requires Linked(b) && 0 < h <= b.nHeight
    ensures PathTo(b)[h].pprev == PathTo(b)[h - 1]
  {
    PathIsAncestors(b, h);
    PathIsAncestors(b, h - 1);
    AncestorOfAncestor(b, h, h - 1);
  }

  lemma MoveHead(have: seq<nat>, rest: seq<nat>, x: nat)
    requires rest != [] && rest[0] == x
    ensures have + rest == (have + [x]) + rest[1..]
    ensures rest == [x] ==> have + rest == have + [x]
  {
  }

  class Chain {
    var vChain: seq<BlockIndex?>

    /** The vector is empty or the path from genesis to its last block. */
    ghost predicate Valid()
      reads this
    {
      vChain == [] ||
      (var tip := vChain[|vChain| - 1]; tip != null && Linked(tip) && vChain == PathTo(tip))
    }

    constructor ()
      ensures Valid() && vChain == []
    {
      vChain := [];
    }

    /** operator[] */
    function At(h: int): BlockIndex?
      reads this
    {
      if h < 0 || h >= |vChain| then null else vChain[h]
    }

    function Tip(): BlockIndex?
      reads this
    {
      if |vChain| > 0 then vChain[|vChain| - 1] else null
    }

    function Height(): int
      reads this
    {
      |vChain| - 1
    }

    /** Looking at one height is enough to know whether a block is on the chain. */
    predicate Contains(b: BlockIndex)
      reads this
    {
      At(b.nHeight) == b
    }

    lemma ContainsIsMembership(b: BlockIndex)
      requires Valid()
      ensures Contains(b) <==> b in vChain
      ensures Contains(b) ==> Linked(b) && vChain[..b.nHeight + 1] == PathTo(b)
    {
      if b in vChain {
        var i :| 0 <= i < |vChain| && vChain[i] == b;
        PathIsAncestors(vChain[|vChain| - 1], i);
      }
    }

    /** The successor on the chain: the block there whose predecessor is b. */
    method Next(b: BlockIndex) returns (r: BlockIndex?)
      requires Valid()
      ensures r != null ==> r in vChain && r.pprev == b
      ensures r == null ==> forall c | c in vChain && c != null :: c.pprev != b
    {
      ContainsIsMembership(b);
      if |vChain| > 0 {
        ghost var tip := vChain[|vChain| - 1];
        forall i | 0 <= i < |vChain| && vChain[i].pprev == b
          ensures i > 0 && vChain[i - 1] == b && b.nHeight == i - 1
        {
          PathIsAncestors(tip, i);
          if i > 0 {
            PathStep(tip, i);
            PathIsAncestors(tip, i - 1);
          }
        }
      }
      if Contains(b) {
        r := At(b.nHeight + 1);
        if r != null {
          PathStep(vChain[|vChain| - 1], b.nHeight + 1);
        }
      } else {
        r := null;
      }
    }

    /** vChain.resize: cut off, or padded with null. */
    static function Resize(v: seq<BlockIndex?>, n: nat): (r: seq<BlockIndex?>)
      ensures |r| == n && forall i | 0 <= i < n :: r[i] == if i < |v| then v[i] else null
    {
      seq(n, i requires 0 <= i < n => if i < |v| then v[i] else null)
    }

    /** After any sequence of calls the vector is exactly the path to the last tip: the loop may stop at the
        first block that is already in place. */
    method SetTip(pindex: BlockIndex?)
      requires Valid() && (pindex != null ==> Linked(pindex))
      modifies this
      ensures Valid()
      ensures vChain == if pindex == null then [] else PathTo(pindex)
      ensures Tip() == pindex && Height() == if pindex == null then -1 else pindex.nHeight
    {
      if pindex == null {
        vChain := [];
        return;
      }
      ghost var before := vChain;
      vChain := Resize(vChain, pindex.nHeight + 1);
      var walk: BlockIndex? := pindex;
      while walk != null && vChain[walk.nHeight] != walk
        invariant |vChain| == pindex.nHeight + 1
        invariant walk != null ==> walk.nHeight <= pindex.nHeight && Linked(walk) && walk == Ancestor(pindex, walk.nHeight)
        invariant var h := if walk == null then -1 else walk.nHeight;
                  && (forall i | h < i <= pindex.nHeight :: vChain[i] == Ancestor(pindex, i))
                  && (forall i | 0 <= i <= h :: vChain[i] == if i < |before| then before[i] else null)
        decreases if walk == null then -1 else walk.nHeight
      {
        vChain := vChain[walk.nHeight := walk];
        if walk.pprev != null {
          AncestorOfAncestor(pindex, walk.nHeight, walk.nHeight - 1);
        }
        walk := walk.pprev;
      }
      if walk != null {
        ghost var tip := before[|before| - 1];
        PathIsAncestors(tip, walk.nHeight);
        PathIsAncestors(pindex, walk.nHeight);
      }
      forall i | 0 <= i <= pindex.nHeight
        ensures vChain[i] == PathTo(pindex)[i]
      {
        PathIsAncestors(pindex, i);
        if walk != null && i <= walk.nHeight {
          assert PathTo(walk)[i] == before[i];
        }
      }
    }

    /** No ancestor of b higher than `lo` is on the chain. */
    ghost predicate NoneAbove(b: BlockIndex, lo: int)
      requires Linked(b)
      reads this
    {
      forall h: nat | lo < h <= b.nHeight :: !Contains(Ancestor(b, h))
    }

    lemma AboveChain(b: BlockIndex)
      requires Linked(b)
      ensures NoneAbove(b, Height())
    {
    }

    lemma LowerBound(b: BlockIndex, h: nat)
      requires Linked(b) && h <= b.nHeight && NoneAbove(b, h) && !Contains(Ancestor(b, h))
      ensures NoneAbove(b, h - 1)
    {
    }

    /** The highest block that is both on the chain and an ancestor of pindex. */
    method FindFork(pindex: BlockIndex?, ghost tree: set<BlockIndex>) returns (r: BlockIndex?)
      requires Valid() && TreeOk(tree) && (pindex != null ==> pindex in tree)
      ensures pindex == null ==> r == null
      ensures r != null ==> r in vChain && r.nHeight <= pindex.nHeight && r == Ancestor(pindex, r.nHeight)
      ensures pindex != null ==> NoneAbove(pindex, if r == null then -1 else r.nHeight)
    {
      hide TreeOk, Linked, Ancestor, PathTo, NoneAbove;
      if pindex == null {
        return null;
      }
      TreeMember(tree, pindex);
      var walk: BlockIndex? := pindex;
      if pindex.nHeight > Height() {
        AboveChain(pindex);
        walk := GetAncestor(pindex, Height(), tree);
      } else {
        NothingAbove(pindex);
      }
      while walk != null && !Contains(walk)
        invariant walk != null ==> walk in tree && walk.nHeight <= pindex.nHeight && walk == Ancestor(pindex, walk.nHeight)
        invariant NoneAbove(pindex, if walk == null then -1 else walk.nHeight)
        decreases if walk == null then -1 else walk.nHeight
      {
        TreeMember(tree, walk);
        LowerBound(pindex, walk.nHeight);
        if walk.pprev != null {
          AncestorPrev(pindex, walk.nHeight);
        }
        walk := walk.pprev;
      }
      if walk != null {
        ContainsIsMembership(walk);
      }
      return walk;
    }

    lemma NothingAbove(b: BlockIndex)
      requires Linked(b)
      ensures NoneAbove(b, b.nHeight) && Ancestor(b, b.nHeight) == b
    {
    }

    /** The locator of a block (by default the tip). Whether a step back uses the chain vector or the skip
        list makes no difference. */
    method GetLocator(start: BlockIndex?, ghost tree: set<BlockIndex>) returns (vHave: seq<nat>)
      requires Valid() && TreeOk(tree) && (start != null ==> start in tree)
      requires forall b | b in vChain :: b in tree
      ensures var from := if start == null then Tip() else start;
              vHave == if from == null then [] else Hashes(Locator(from, 1, 1))
    {
      hide TreeOk, Linked, Ancestor, PathTo, Hashes, Locator;
      var nStep: nat := 1;
      vHave := [];
      var walk := if start == null then Tip() else start;
      if walk == null {
        return;
      }
      TreeMember(tree, walk);
      ghost var total := Hashes(Locator(walk, 1, 1));
      ghost var rest := total;
      while walk != null
        invariant nStep >= 1 && walk != null && walk in tree && Linked(walk)
        invariant rest == Hashes(Locator(walk, nStep, |vHave| + 1))
        invariant vHave + rest == total
        decreases walk.nHeight
      {
        LocatorUnfolds(walk, nStep, |vHave| + 1);
        MoveHead(vHave, rest, walk.hash);
        vHave := vHave + [walk.hash];
        if walk.nHeight == 0 {
          break;
        }
        var nHeight := if walk.nHeight - nStep > 0 then walk.nHeight - nStep else 0;
        walk := StepBack(walk, nHeight, tree);
        if |vHave| > 10 {
          nStep := nStep * 2;
        }
        rest := rest[1..];
      }
    }

    /** One step of the locator walk: through the chain vector if the block is on it, else the skip list. */
    method StepBack(b: BlockIndex, h: nat, ghost tree: set<BlockIndex>) returns (r: BlockIndex)
      requires Valid() && TreeOk(tree) && b in tree && h <= b.nHeight
      requires forall c | c in vChain :: c in tree
      ensures r in tree && Linked(b) && r == Ancestor(b, h)
    {
      hide TreeOk, Linked, Ancestor, PathTo;
      TreeMember(tree, b);
      if Contains(b) {
        ContainsIsMembership(b);
        PathIsAncestors(b, h);
        assert vChain[h] == vChain[..b.nHeight + 1][h];
        r := At(h);
        assert r in vChain;
      } else {
        r := GetAncestor(b, h, tree);
      }
    }
  }

  // ----- What a locator contains -----

  ghost function Hashes(blocks: seq<BlockIndex>): seq<nat> {
    if blocks == [] then [] else [blocks[0].hash] + Hashes(blocks[1..])
  }

  lemma LocatorUnfolds(b: BlockIndex, step: nat, count: nat)
    requires Linked(b) && step >= 1
    ensures b.nHeight == 0 ==> Hashes(Locator(b, step, count)) == [b.hash]
    ensures b.nHeight > 0 ==>
              var h := if b.nHeight - step > 0 then b.nHeight - step else 0;
              Hashes(Locator(b, step, count)) ==
                [b.hash] + Hashes(Locator(Ancestor(b, h), if count > 10 then step * 2 else step, count + 1))
  {
    if b.nHeight > 0 {
      var r := Locator(b, step, count);
      var h := if b.nHeight - step > 0 then b.nHeight - step else 0;
      assert r[1..] == Locator(Ancestor(b, h), if count > 10 then step * 2 else step, count + 1);
    } else {
      assert Hashes([b]) == [b.hash] + Hashes([]);
    }
  }

  /** Steps back from b, which is the count-th entry: single steps for the first eleven, then doubling. */
  ghost function Locator(b: BlockIndex, step: nat, count: nat): (r: seq<BlockIndex>)
    requires Linked(b) && step >= 1
    ensures r != [] && r[0] == b
    decreases b.nHeight
  {
    if b.nHeight == 0 then [b]
    else
      var h := if b.nHeight - step > 0 then b.nHeight - step else 0;
      [b] + Locator(Ancestor(b, h), if count > 10 then step * 2 else step, count + 1)
  }

  /** Entries are ancestors of the start at strictly decreasing heights, from the start down to genesis. */
  lemma {:induction false} LocatorDescends(b: BlockIndex, step: nat, count: nat)
    requires Linked(b) && step >= 1
    ensures var r := Locator(b, step, count);
            && r[0] == b
            && r[|r| - 1].nHeight == 0
            && (forall i | 0 <= i < |r| :: r[i].nHeight <= b.nHeight && r[i] == Ancestor(b, r[i].nHeight))
            && (forall i, j | 0 <= i < j < |r| :: r[i].nHeight > r[j].nHeight)
    decreases b.nHeight
  {
    if b.nHeight > 0 {
      var h := if b.nHeight - step > 0 then b.nHeight - step else 0;
      var next := if count > 10 then step * 2 else step;
      LocatorDescends(Ancestor(b, h), next, count + 1);
      var rest := Locator(Ancestor(b, h), next, count + 1);
      forall i | 0 <= i < |rest|
        ensures rest[i] == Ancestor(b, rest[i].nHeight)
      {
        AncestorOfAncestor(b, h, rest[i].nHeight);
      }
      assert Locator(b, step, count) == [b] + rest;
    }
  }

  /** Once the steps double, every j more entries reach back step * (2^j - 1) blocks. */
  lemma {:induction false} DoublingReach(b: BlockIndex, step: nat, count: nat, j: nat)
    requires Linked(b) && step >= 1 && count > 10 && b.nHeight <= step * (Pow2(j) - 1)
    ensures |Locator(b, step, count)| <= j + 1
    decreases b.nHeight
  {
    if b.nHeight > 0 {
      if j > 0 {
        var h := if b.nHeight - step > 0 then b.nHeight - step else 0;
        assert Pow2(j) == 2 * Pow2(j - 1);
        assert step * (Pow2(j) - 1) - step == (step * 2) * (Pow2(j - 1) - 1);
        DoublingReach(Ancestor(b, h), step * 2, count + 1, j - 1);
      }
    }
  }

  /** The single steps at the beginning. */
  lemma {:induction false} SingleSteps(b: BlockIndex, count: nat, m: nat)
    requires Linked(b) && 1 <= count <= 12 && m >= 1 && b.nHeight + count <= Pow2(m) + 10
    ensures |Locator(b, if count == 12 then 2 else 1, count)| <= 11 + m + 1 - count
    decreases 12 - count
  {
    if count == 12 {
      assert Pow2(m) == 2 * Pow2(m - 1);
      DoublingReach(b, 2, 12, m - 1);
    } else if b.nHeight > 0 {
      SingleSteps(Ancestor(b, b.nHeight - 1), count + 1, m);
    }
  }

  /** A block below height 2^m has a locator of at most 11 + m entries. */
  lemma LocatorLength(b: BlockIndex, m: nat)
    requires Linked(b) && m >= 1 && b.nHeight < Pow2(m)
    ensures |Locator(b, 1, 1)| <= 11 + m
  {
    SingleSteps(b, 1, m);
  }
}
