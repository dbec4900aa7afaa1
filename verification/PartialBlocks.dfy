/**
  Compact block relay (BIP 152) as src/blockencodings.cpp does it: the sender's message,
  the receiver's reconstruction, and the protocol between the two.
 */
module CompactMessages {
  import Powers
  import opened Options
  import opened BlockRequests
  import opened BlockSlots

  datatype Header = Header(nBits: nat, content: seq<bv8>) {
    predicate IsNull() { nBits == 0 }
  }

  datatype Block = Block(header: Header, txs: seq<Transaction>)

  type U16 = n: nat | n <= MAX16

  /** A transaction sent in full, with its distance from the one sent before it. */
  datatype Prefilled = Prefilled(index: U16, tx: Transaction)

  datatype Message = Message(header: Header, nonce: nat, shortIds: seq<nat>, prefilled: seq<Prefilled>) {
    function BlockTxCount(): nat { |shortIds| + |prefilled| }
  }

  datatype ReadStatus = Ok | Invalid | Failed | CheckBlockFailed

  /** The keyed hash of a transaction hash, with keys drawn from the header and the nonce. */
  type SipHash = (Header, nat, nat) -> nat

  function ShortId(sip: SipHash, header: Header, nonce: nat): (nat -> nat) {
    hash => sip(header, nonce, hash) % SHORT_ID_SPACE
  }

  /** A short id is the low 48 bits of the keyed hash. */
  lemma ShortIdIsLow48(sip: SipHash, header: Header, nonce: nat, hash: nat)
    ensures var id := ShortId(sip, header, nonce)(hash);
            id < Powers.Pow2(48) && exists q: nat :: sip(header, nonce, hash) == q * Powers.Pow2(48) + id
  {
    assert Powers.Pow2(48) == SHORT_ID_SPACE by { Powers.Pow2Add(32, 16); Powers.Pow2Values(); }
    var x := sip(header, nonce, hash);
    assert x == x / SHORT_ID_SPACE * SHORT_ID_SPACE + x % SHORT_ID_SPACE;
  }

  /** 2000000 bytes of block over the 10 bytes of an empty transaction. */
  const MAX_TRANSACTIONS: nat := 2000000 / 10

  /** What the constructor makes of a block: the coinbase in full, short ids for the rest. */
  ghost predicate Announces(m: Message, block: Block, sip: SipHash) {
    && |block.txs| > 0
    && m.header == block.header
    && m.prefilled == [Prefilled(0, block.txs[0])]
    && |m.shortIds| == |block.txs| - 1
    && forall i: nat :: 0 < i < |block.txs| ==> m.shortIds[i - 1] == ShortId(sip, m.header, m.nonce)(block.txs[i].hash)
  }

  method Announce(block: Block, nonce: nat, sip: SipHash) returns (m: Message)
    requires |block.txs| > 0
    ensures Announces(m, block, sip) && m.nonce == nonce
  {
    var shortIds: seq<nat> := [];
    for i := 1 to |block.txs|
      invariant |shortIds| == i - 1
      invariant forall j: nat :: 0 < j < i ==> shortIds[j - 1] == ShortId(sip, block.header, nonce)(block.txs[j].hash)
    {
      shortIds := shortIds + [ShortId(sip, block.header, nonce)(block.txs[i].hash)];
    }
    m := Message(block.header, nonce, shortIds, [Prefilled(0, block.txs[0])]);
  }

  // ---------------------------------------------------------------- prefilled transactions

  /** The position of the k-th prefilled transaction, counting from 1; -1 before the first. */
  function Position(pre: seq<Prefilled>, k: nat): (r: int)
    requires k <= |pre|
    ensures r >= k - 1
  {
    if k == 0 then -1 else Position(pre, k - 1) + pre[k - 1].index + 1
  }

  predicate GoodPrefilled(m: Message, k: nat)
    requires k < |m.prefilled|
  {
    && !m.prefilled[k].tx.isNull
    && Position(m.prefilled, k + 1) <= MAX16
    && Position(m.prefilled, k + 1) <= |m.shortIds| + k
  }

  /** The messages that are refused before the receiver's own state is looked at. */
  predicate RefusedUnread(m: Message) {
    m.header.IsNull() || m.BlockTxCount() == 0 || m.BlockTxCount() > MAX_TRANSACTIONS
  }

  /** The messages that make the receiver give up on the peer. */
  ghost predicate Malformed(m: Message) {
    || RefusedUnread(m)
    || exists k: nat :: k < |m.prefilled| && !GoodPrefilled(m, k)
  }

  /** The first k prefilled transactions are in place and all the other slots are empty. */
  ghost predicate Placed(a: Slots, m: Message, k: nat)
    requires k <= |m.prefilled|
  {
    && |a| == m.BlockTxCount()
    && |Gaps(a)| == |a| - k
    && Position(m.prefilled, k) < |a|
    && (forall j: nat :: 0 < j <= k ==> 0 <= Position(m.prefilled, j) <= Position(m.prefilled, k)
                                        && a[Position(m.prefilled, j)] == Some(m.prefilled[j - 1].tx))
    && (forall p: nat :: Position(m.prefilled, k) < p < |a| ==> a[p].None?)
  }

  lemma PlaceNext(a: Slots, m: Message, k: nat)
    requires k < |m.prefilled| && Placed(a, m, k) && GoodPrefilled(m, k)
    ensures 0 <= Position(m.prefilled, k + 1) < |a|
    ensures Placed(a[Position(m.prefilled, k + 1) := Some(m.prefilled[k].tx)], m, k + 1)
  {
    var p := Position(m.prefilled, k + 1);
    assert p > Position(m.prefilled, k);
    hide Gaps, Position;
    FillGap(a, p, m.prefilled[k].tx);
  }

  // ---------------------------------------------------------------- short ids

  /** Short id i belongs to the i-th empty slot, kept in 16 bits; a later one replaces an equal one. */
  ghost function IdMap(shortIds: seq<nat>, gaps: seq<nat>): (r: map<nat, nat>)
    requires |shortIds| <= |gaps|
  {
    if shortIds == [] then map[]
    else
      var n := |shortIds| - 1;
      IdMap(shortIds[..n], gaps)[shortIds[n] := gaps[n] % (MAX16 + 1)]
  }

  lemma {:induction false} IdMapKeys(shortIds: seq<nat>, gaps: seq<nat>)
    requires |shortIds| <= |gaps|
    ensures forall id: nat :: id in IdMap(shortIds, gaps) <==> id in shortIds
    ensures |IdMap(shortIds, gaps)| <= |shortIds|
  {
    if shortIds != [] {
      var n := |shortIds| - 1;
      IdMapKeys(shortIds[..n], gaps);
      assert shortIds == shortIds[..n] + [shortIds[n]];
      MapGrows(IdMap(shortIds[..n], gaps), shortIds[n], gaps[n] % (MAX16 + 1));
    }
  }

  lemma MapGrows(m: map<nat, nat>, k: nat, v: nat)
    ensures m[k := v].Keys == m.Keys + {k}
    ensures |m[k := v]| == if k in m then |m| else |m| + 1
  {
    assert |m[k := v]| == |m[k := v].Keys| && |m| == |m.Keys|;
    assert m[k := v].Keys == m.Keys + {k};
  }

  ghost predicate Distinct(s: seq<nat>) {
    forall i: nat, j: nat :: i < j < |s| ==> s[i] != s[j]
  }

  lemma DistinctNext(s: seq<nat>)
    requires s != []
    ensures var n := |s| - 1; Distinct(s) <==> Distinct(s[..n]) && s[n] !in s[..n]
  {
    var n := |s| - 1;
    if Distinct(s[..n]) && s[n] !in s[..n] {
      forall i: nat, j: nat | i < j < |s| ensures s[i] != s[j] {
        assert s[..n][i] == s[i];
      }
    }
  }

  lemma IdMapNext(shortIds: seq<nat>, gaps: seq<nat>, n: nat)
    requires n < |shortIds| <= |gaps|
    ensures IdMap(shortIds[..n + 1], gaps) == IdMap(shortIds[..n], gaps)[shortIds[n] := gaps[n] % (MAX16 + 1)]
  {
    assert shortIds[..n + 1][..n] == shortIds[..n];
  }

  /** The map is as large as the list exactly when no short id occurs twice. */
  lemma {:induction false} SizeTellsDistinct(shortIds: seq<nat>, gaps: seq<nat>)
    requires |shortIds| <= |gaps|
    ensures |IdMap(shortIds, gaps)| == |shortIds| <==> Distinct(shortIds)
  {
    if shortIds != [] {
      hide IdMap;
      var n := |shortIds| - 1;
      var front := shortIds[..n];
      SizeTellsDistinct(front, gaps);
      IdMapKeys(front, gaps);
      IdMapNext(shortIds, gaps, n);
      assert shortIds[..n + 1] == shortIds;
      MapGrows(IdMap(front, gaps), shortIds[n], gaps[n] % (MAX16 + 1));
      DistinctNext(shortIds);
    }
  }

  lemma {:induction false} IdMapAt(shortIds: seq<nat>, gaps: seq<nat>, i: nat)
    requires i < |shortIds| <= |gaps| && Distinct(shortIds)
    ensures shortIds[i] in IdMap(shortIds, gaps)
    ensures IdMap(shortIds, gaps)[shortIds[i]] == gaps[i] % (MAX16 + 1)
  {
    hide IdMap;
    var n := |shortIds| - 1;
    IdMapNext(shortIds, gaps, n);
    assert shortIds[..n + 1] == shortIds;
    if i < n {
      IdMapAt(shortIds[..n], gaps, i);
    }
  }

  lemma {:induction false} IdMapRange(shortIds: seq<nat>, gaps: seq<nat>, bound: nat)
    requires |shortIds| <= |gaps| && forall k: nat :: k < |gaps| ==> gaps[k] < bound
    ensures forall id <- IdMap(shortIds, gaps) :: IdMap(shortIds, gaps)[id] < bound
  {
    if shortIds != [] {
      var n := |shortIds| - 1;
      IdMapRange(shortIds[..n], gaps, bound);
    }
  }

  // ---------------------------------------------------------------- the receiver's result

  /** Every slot with a short id has been settled in favour of some transaction. */
  ghost predicate AllPicked(ids: map<nat, nat>, shortId: nat -> nat, pool: seq<Candidate>, extra: seq<Candidate>) {
    forall s: nat :: s in ids.Values ==>
      Pick(Matches(pool, ids, shortId, s), Matches(extra, ids, shortId, s)).Some?
  }

  /** The slots after a successful InitData: the first p pool transactions and the first q extra ones have settled. */
  ghost predicate Reconstructed(m: Message, shortId: nat -> nat, pool: seq<Candidate>, extra: seq<Candidate>,
                                placed: Slots, a: Slots, p: nat, q: nat)
  {
    && p <= |pool| && q <= |extra|
    && Placed(placed, m, |m.prefilled|)
    && Distinct(m.shortIds)
    && Outcomes(placed, a, IdMap(m.shortIds, Gaps(placed)), shortId, pool[..p], extra[..q])
  }

  /** A scan stops early only when every slot is filled. */
  ghost predicate StopsWhenFull(m: Message, shortId: nat -> nat, pool: seq<Candidate>, extra: seq<Candidate>,
                                placed: Slots, p: nat, q: nat)
  {
    && p <= |pool| && q <= |extra| && |m.shortIds| <= |Gaps(placed)|
    && var ids := IdMap(m.shortIds, Gaps(placed));
       && (p < |pool| ==> AllPicked(ids, shortId, pool[..p], []))
       && (q < |extra| ==> AllPicked(ids, shortId, pool[..p], extra[..q]))
  }

  /** The slots with a short id that are settled in favour of some transaction. */
  ghost function Picked(ids: map<nat, nat>, shortId: nat -> nat, pool: seq<Candidate>, extra: seq<Candidate>): set<nat> {
    set s: nat | s in ids.Values && Pick(Matches(pool, ids, shortId, s), Matches(extra, ids, shortId, s)).Some?
  }

  /** With `base` counted before, the first p pool transactions are those looked at until as many slots as short ids are counted. */
  ghost predicate PoolStops(ids: map<nat, nat>, shortId: nat -> nat, pool: seq<Candidate>, base: nat, p: nat) {
    && p <= |pool|
    && (p < |pool| ==> p > 0 && base + |Picked(ids, shortId, pool[..p], [])| == |ids|)
    && forall n: nat :: 0 < n < p ==> base + |Picked(ids, shortId, pool[..n], [])| != |ids|
  }

  /** The same for the extra transactions, after the pool's in `seen`. */
  ghost predicate ExtraStops(ids: map<nat, nat>, shortId: nat -> nat, seen: seq<Candidate>, extra: seq<Candidate>, base: nat, q: nat) {
    && q <= |extra|
    && (q < |extra| ==> q > 0 && base + |Picked(ids, shortId, seen, extra[..q])| == |ids|)
    && forall n: nat :: 0 < n < q ==> base + |Picked(ids, shortId, seen, extra[..n])| != |ids|
  }

  /** Exactly where the two scans stop, and what the counter shows then. */
  ghost predicate StopsExactly(m: Message, shortId: nat -> nat, pool: seq<Candidate>, extra: seq<Candidate>,
                               placed: Slots, base: nat, p: nat, q: nat, count: nat)
  {
    && |m.shortIds| <= |Gaps(placed)|
    && var ids := IdMap(m.shortIds, Gaps(placed));
       && PoolStops(ids, shortId, pool, base, p)
       && ExtraStops(ids, shortId, pool[..p], extra, base, q)
       && count == base + |Picked(ids, shortId, pool[..p], extra[..q])|
  }

  /** There is one way to stop, so with `Outcomes` the slots are decided by the message and the candidates. */
  lemma StopsUnique(m: Message, shortId: nat -> nat, pool: seq<Candidate>, extra: seq<Candidate>, placed: Slots, base: nat,
                    p: nat, q: nat, count: nat, p': nat, q': nat, count': nat)
    requires StopsExactly(m, shortId, pool, extra, placed, base, p, q, count)
    requires StopsExactly(m, shortId, pool, extra, placed, base, p', q', count')
    ensures p == p' && q == q' && count == count'
  {
    hide IdMap, Gaps, Picked;
  }

  /** A counter that started at 0 stops a scan early only when every slot is filled. */
  lemma StopsFull(m: Message, shortId: nat -> nat, pool: seq<Candidate>, extra: seq<Candidate>, placed: Slots,
                  p: nat, q: nat, count: nat)
    requires StopsExactly(m, shortId, pool, extra, placed, 0, p, q, count)
    ensures StopsWhenFull(m, shortId, pool, extra, placed, p, q)
  {
    hide IdMap, Gaps, Picked, AllPicked;
    var ids := IdMap(m.shortIds, Gaps(placed));
    if p < |pool| {
      FullIsPicked(ids, shortId, pool[..p], []);
    }
    if q < |extra| {
      FullIsPicked(ids, shortId, pool[..p], extra[..q]);
    }
  }

  ghost function Outcome(was: Option<Transaction>, fromPool: seq<Transaction>, fromExtra: seq<Transaction>): Option<Transaction> {
    if fromPool + fromExtra == [] then was else Pick(fromPool, fromExtra)
  }

  /** Every slot holds what the candidates settle on. */
  ghost predicate Outcomes(before: Slots, a: Slots, ids: map<nat, nat>, shortId: nat -> nat,
                           pool: seq<Candidate>, extra: seq<Candidate>)
  {
    && |a| == |before|
    && forall s: nat :: s < |a| ==>
         a[s] == Outcome(before[s], Matches(pool, ids, shortId, s), Matches(extra, ids, shortId, s))
  }

  /** Slots, marks and counter during the two scans; `base` is what the counter held before them. */
  ghost predicate Scanned(before: Slots, a: Slots, have: seq<bool>, count: nat, base: nat, ids: map<nat, nat>, shortId: nat -> nat,
                          pool: seq<Candidate>, extra: seq<Candidate>)
  {
    && Settled(before, a, have, ids, shortId, pool, extra)
    && count == base + |Filled(a, have)| && Filled(a, have) <= ids.Values
  }

  /** The counter after slot s has changed from filled or not to filled or not. */
  function Recount(count: nat, was: bool, now: bool): int {
    count + (if now then 1 else 0) - (if was then 1 else 0)
  }

  lemma ScanPoolStep(before: Slots, a: Slots, have: seq<bool>, count: nat, base: nat, ids: map<nat, nat>, shortId: nat -> nat,
                     pool: seq<Candidate>, n: nat)
    requires n < |pool| && Scanned(before, a, have, count, base, ids, shortId, pool[..n], [])
    requires |a| == |have| && forall id <- ids :: ids[id] < |a|
    ensures match Target(pool[n], ids, shortId)
            case None => Scanned(before, a, have, count, base, ids, shortId, pool[..n + 1], [])
            case Some(s) =>
              var now := AfterPool(a[s], have[s], pool[n].tx);
              var recount := Recount(count, have[s] && a[s].Some?, now.Some?);
              && recount >= 0 && (have[s] && a[s].Some? ==> count > 0)
              && Scanned(before, a[s := now], have[s := true], recount, base, ids, shortId, pool[..n + 1], [])
  {
    hide Settled, Filled;
    PoolStep(before, a, have, ids, shortId, pool, n);
    match Target(pool[n], ids, shortId)
    case None =>
    case Some(s) => FilledStep(a, have, s, AfterPool(a[s], have[s], pool[n].tx));
  }

  lemma ScanExtraStep(before: Slots, a: Slots, have: seq<bool>, count: nat, base: nat, ids: map<nat, nat>, shortId: nat -> nat,
                      pool: seq<Candidate>, extra: seq<Candidate>, n: nat)
    requires n < |extra| && Scanned(before, a, have, count, base, ids, shortId, pool, extra[..n])
    requires |a| == |have| && forall id <- ids :: ids[id] < |a|
    ensures match Target(extra[n], ids, shortId)
            case None => Scanned(before, a, have, count, base, ids, shortId, pool, extra[..n + 1])
            case Some(s) =>
              var now := AfterExtra(a[s], have[s], extra[n].tx);
              var recount := Recount(count, have[s] && a[s].Some?, now.Some?);
              && recount >= 0 && (have[s] && a[s].Some? ==> count > 0)
              && Scanned(before, a[s := now], have[s := true], recount, base, ids, shortId, pool, extra[..n + 1])
  {
    hide Settled, Filled;
    ExtraStep(before, a, have, ids, shortId, pool, extra, n);
    match Target(extra[n], ids, shortId)
    case None =>
    case Some(s) => FilledStep(a, have, s, AfterExtra(a[s], have[s], extra[n].tx));
  }

  lemma ScannedOutcome(before: Slots, a: Slots, have: seq<bool>, count: nat, base: nat, ids: map<nat, nat>, shortId: nat -> nat,
                       pool: seq<Candidate>, extra: seq<Candidate>)
    requires Scanned(before, a, have, count, base, ids, shortId, pool, extra)
    ensures Outcomes(before, a, ids, shortId, pool, extra)
  {
    hide Matches, Pick;
  }

  /** As many slots filled as there are short ids means all of them. */
  lemma FullIsPicked(ids: map<nat, nat>, shortId: nat -> nat, pool: seq<Candidate>, extra: seq<Candidate>)
    requires |Picked(ids, shortId, pool, extra)| == |ids|
    ensures AllPicked(ids, shortId, pool, extra)
  {
    hide Matches, Pick;
    FullMeansAll(Picked(ids, shortId, pool, extra), ids);
    forall s: nat | s in ids.Values
      ensures Pick(Matches(pool, ids, shortId, s), Matches(extra, ids, shortId, s)).Some?
    {
      assert s in Picked(ids, shortId, pool, extra);
    }
  }

  /** The counter of a scan counts the settled slots. */
  lemma CountsPicked(before: Slots, a: Slots, have: seq<bool>, count: nat, base: nat, ids: map<nat, nat>, shortId: nat -> nat,
                     pool: seq<Candidate>, extra: seq<Candidate>)
    requires Scanned(before, a, have, count, base, ids, shortId, pool, extra) && forall id <- ids :: ids[id] < |a|
    ensures count == base + |Picked(ids, shortId, pool, extra)|
  {
    hide Matches;
    assert Filled(a, have) == Picked(ids, shortId, pool, extra);
  }
}

module PartialBlocks {
  import opened Options
  import opened BlockRequests
  import opened BlockSlots
  import opened CompactMessages

  /** What CheckBlock says about the assembled block. */
  datatype Verdict = Passes | Corrupt | Fails

  class PartiallyDownloadedBlock {
    var header: Header
    var available: Slots
    var prefilledCount: nat
    var mempoolCount: nat

    /** Ready to take in a message. */
    predicate Idle()
      reads this
    {
      header.IsNull() && available == []
    }

    constructor ()
      ensures Idle() && mempoolCount == 0 && prefilledCount == 0
    {
      header := Header(0, []);
      available := [];
      prefilledCount, mempoolCount := 0, 0;
    }

    /**
      Takes in a compact block.  `crowded(i)` is the outcome of the bucket check after short
      id i.  The second precondition is exactly that the search for the first empty slot ends
      (`SearchEnds`).  A counter left over from an earlier message counts towards the one that
      stops the scans.
     */
    method InitData(m: Message, sip: SipHash, pool: seq<Candidate>, extra: seq<Candidate>, crowded: nat -> bool)
      returns (r: ReadStatus, ghost placed: Slots, ghost p: nat, ghost q: nat)
      requires Idle() || RefusedUnread(m)
      requires Malformed(m) || m.shortIds == [] || |m.prefilled| != MAX16 + 1
      modifies this
      ensures r == Invalid <==> Malformed(m)
      ensures RefusedUnread(m) ==> unchanged(this)
      ensures r == Failed <==>
                !Malformed(m) && (!Distinct(m.shortIds) || exists i: nat :: i < |m.shortIds| && crowded(i))
      ensures r != CheckBlockFailed
      ensures r == Ok ==> header == m.header
                          && Reconstructed(m, ShortId(sip, m.header, m.nonce), pool, extra, placed, available, p, q)
      ensures r == Ok ==> prefilledCount == |m.prefilled|
                          && StopsExactly(m, ShortId(sip, m.header, m.nonce), pool, extra, placed, old(mempoolCount), p, q, mempoolCount)
    {
      hide Placed, Distinct, Scanned, Gaps, IdMap, Outcomes, PoolStops, ExtraStops, Picked, GoodPrefilled;
      placed, p, q := [], 0, 0;
      if m.header.IsNull() || (m.shortIds == [] && m.prefilled == []) {
        return Invalid, placed, p, q;
      }
      if |m.shortIds| + |m.prefilled| > MAX_TRANSACTIONS {
        return Invalid, placed, p, q;
      }
      header := m.header;
      var good := PlacePrefilled(m);
      if !good {
        return Invalid, placed, p, q;
      }
      prefilledCount := |m.prefilled|;
      placed := available;
      PlacedGaps(placed, m);
      var hit, ids := MapShortIds(m.shortIds, crowded);
      if hit {
        return Failed, placed, p, q;
      }
      SizeTellsDistinct(m.shortIds, Gaps(placed));
      if |ids| != |m.shortIds| {
        return Failed, placed, p, q;
      }
      IdMapRange(m.shortIds, Gaps(placed), |placed|);
      var shortId := ShortId(sip, m.header, m.nonce);
      var have;
      have, p := ScanPool(ids, shortId, pool);
      q := ScanExtra(placed, have, old(mempoolCount), ids, shortId, pool[..p], extra);
      return Ok, placed, p, q;
    }

    /** Puts the transactions sent in full where their distances say. */
    method PlacePrefilled(m: Message) returns (good: bool)
      requires available == []
      modifies this`available
      ensures good <==> forall k: nat :: k < |m.prefilled| ==> GoodPrefilled(m, k)
      ensures good ==> Placed(available, m, |m.prefilled|)
    {
      available := seq(m.BlockTxCount(), _ => None);
      AllGaps(available);
      assert Position(m.prefilled, 0) == -1;
      hide Gaps, Placed;
      var last := -1;
      assert Placed(available, m, 0) by { PlacedStart(available, m); }
      for i := 0 to |m.prefilled|
        invariant Placed(available, m, i) && last == Position(m.prefilled, i)
        invariant forall k: nat :: k < i ==> GoodPrefilled(m, k)
      {
        if m.prefilled[i].tx.isNull {
          assert !GoodPrefilled(m, i);
          return false;
        }
        last := last + m.prefilled[i].index + 1;
        if last > MAX16 {
          assert !GoodPrefilled(m, i);
          return false;
        }
        if last > |m.shortIds| + i {
          assert !GoodPrefilled(m, i);
          return false;
        }
        PlaceNext(available, m, i);
        available := available[last := Some(m.prefilled[i].tx)];
      }
      return true;
    }

    /** Advances the 16-bit offset to the next empty slot; it never wraps. */
    method SkipFilled(i: nat, start: nat) returns (offset: nat)
      requires i < |Gaps(available)| && |available| - |Gaps(available)| <= MAX16
      requires i + start <= |available| && |Gaps(available[..i + start])| == i
      ensures i + offset < |available| && available[i + offset].None?
      ensures |Gaps(available[..i + offset])| == i
    {
      hide Gaps;
      offset := start;
      GapAhead(available, i + offset);
      while available[i + offset].Some?
        invariant i + offset < |available| && |Gaps(available[..i + offset])| == i
        decreases |available| - offset
      {
        GapsNext(available, i + offset);
        GapAhead(available, i + offset + 1);
        offset := (offset + 1) % (MAX16 + 1);
      }
    }

    /** Gives each short id the next empty slot; `hit` reports an overfull bucket. */
    method MapShortIds(shortIds: seq<nat>, crowded: nat -> bool) returns (hit: bool, ids: map<nat, nat>)
      requires |shortIds| == |Gaps(available)| && (shortIds == [] || |available| - |shortIds| <= MAX16)
      ensures hit <==> exists i: nat :: i < |shortIds| && crowded(i)
      ensures !hit ==> ids == IdMap(shortIds, Gaps(available))
    {
      ids := map[];
      var offset: nat := 0;
      assert available[..0] == [] && shortIds[..0] == [];
      for i := 0 to |shortIds|
        invariant Mapped(available, shortIds, ids, i, offset)
        invariant forall k: nat :: k < i ==> !crowded(k)
      {
        hide Gaps, IdMap;
        offset := SkipFilled(i, offset);
        MapNext(available, shortIds, ids, i, offset);
        ids := ids[shortIds[i] := (i + offset) % (MAX16 + 1)];
        if crowded(i) {
          return true, ids;
        }
      }
      assert shortIds[..|shortIds|] == shortIds;
      return false, ids;
    }

    method OfferPool(ghost before: Slots, have: seq<bool>, ghost base: nat, ids: map<nat, nat>, shortId: nat -> nat,
                     pool: seq<Candidate>, n: nat) returns (have': seq<bool>)
      requires n < |pool| && |available| == |before| == |have| && forall id <- ids :: ids[id] < |available|
      requires Scanned(before, available, have, mempoolCount, base, ids, shortId, pool[..n], [])
      modifies this`available, this`mempoolCount
      ensures |available| == |before| == |have'|
      ensures Scanned(before, available, have', mempoolCount, base, ids, shortId, pool[..n + 1], [])
    {
      hide Scanned, Matches, AfterPool, AfterExtra, Recount;
      have' := have;
      ScanPoolStep(before, available, have, mempoolCount, base, ids, shortId, pool, n);
      var target := Target(pool[n], ids, shortId);
      if target.Some? {
        have' := ClaimFromPool(target.value, pool[n].tx, have);
      }
    }

    /** Offers the pool's transactions to the slots. */
    method ScanPool(ids: map<nat, nat>, shortId: nat -> nat, pool: seq<Candidate>)
      returns (have: seq<bool>, p: nat)
      requires forall id <- ids :: ids[id] < |available|
      modifies this`available, this`mempoolCount
      ensures |available| == |old(available)| == |have|
      ensures p <= |pool| && Scanned(old(available), available, have, mempoolCount, old(mempoolCount), ids, shortId, pool[..p], [])
      ensures PoolStops(ids, shortId, pool, old(mempoolCount), p)
    {
      hide Scanned, Picked, Outcomes, Settled, Filled, Matches;
      ghost var before, base := available, mempoolCount;
      have := seq(|available|, _ => false);
      p := 0;
      NothingScanned(before, have, base, ids, shortId);
      assert pool[..p] == [];
      while p < |pool|
        invariant p <= |pool| && |available| == |before| == |have|
        invariant Scanned(before, available, have, mempoolCount, base, ids, shortId, pool[..p], [])
        invariant forall n: nat :: 0 < n <= p ==> base + |Picked(ids, shortId, pool[..n], [])| != |ids|
      {
        have := OfferPool(before, have, base, ids, shortId, pool, p);
        p := p + 1;
        CountsPicked(before, available, have, mempoolCount, base, ids, shortId, pool[..p], []);
        if mempoolCount == |ids| {
          return;
        }
      }
    }

    /** A pool transaction claims a slot: the first takes it, a second one empties it. */
    method ClaimFromPool(s: nat, t: Transaction, have: seq<bool>) returns (have': seq<bool>)
      requires |have| == |available| && s < |available| && (have[s] && available[s].Some? ==> mempoolCount > 0)
      modifies this`available, this`mempoolCount
      ensures available == old(available)[s := AfterPool(old(available)[s], have[s], t)] && have' == have[s := true]
      ensures mempoolCount == Recount(old(mempoolCount), have[s] && old(available)[s].Some?, available[s].Some?)
    {
      have' := have;
      if !have[s] {
        available := available[s := Some(t)];
        have' := have[s := true];
        mempoolCount := mempoolCount + 1;
      } else if available[s].Some? {
        available := available[s := None];
        mempoolCount := mempoolCount - 1;
      }
    }

    /** An extra transaction claims a slot: one with another hash empties it. */
    method ClaimFromExtra(s: nat, t: Transaction, have: seq<bool>) returns (have': seq<bool>)
      requires |have| == |available| && s < |available| && (have[s] && available[s].Some? ==> mempoolCount > 0)
      modifies this`available, this`mempoolCount
      ensures available == old(available)[s := AfterExtra(old(available)[s], have[s], t)] && have' == have[s := true]
      ensures mempoolCount == Recount(old(mempoolCount), have[s] && old(available)[s].Some?, available[s].Some?)
    {
      have' := have;
      if !have[s] {
        available := available[s := Some(t)];
        have' := have[s := true];
        mempoolCount := mempoolCount + 1;
      } else if available[s].Some? && available[s].value.hash != t.hash {
        available := available[s := None];
        mempoolCount := mempoolCount - 1;
      }
    }

    method OfferExtra(ghost before: Slots, have: seq<bool>, ghost base: nat, ids: map<nat, nat>, shortId: nat -> nat,
                     ghost seen: seq<Candidate>, extra: seq<Candidate>, n: nat) returns (have': seq<bool>)
      requires n < |extra| && |available| == |before| == |have| && forall id <- ids :: ids[id] < |available|
      requires Scanned(before, available, have, mempoolCount, base, ids, shortId, seen, extra[..n])
      modifies this`available, this`mempoolCount
      ensures |available| == |before| == |have'|
      ensures Scanned(before, available, have', mempoolCount, base, ids, shortId, seen, extra[..n + 1])
    {
      hide Scanned, Matches, AfterPool, AfterExtra, Recount;
      have' := have;
      ScanExtraStep(before, available, have, mempoolCount, base, ids, shortId, seen, extra, n);
      var target := Target(extra[n], ids, shortId);
      if target.Some? {
        have' := ClaimFromExtra(target.value, extra[n].tx, have);
      }
    }

    /** Offers the extra transactions to the slots. */
    method ScanExtra(ghost before: Slots, have: seq<bool>, ghost base: nat, ids: map<nat, nat>, shortId: nat -> nat,
                     ghost seen: seq<Candidate>, extra: seq<Candidate>) returns (q: nat)
      requires |available| == |before| == |have|
      requires Scanned(before, available, have, mempoolCount, base, ids, shortId, seen, [])
      requires forall id <- ids :: ids[id] < |available|
      modifies this`available, this`mempoolCount
      ensures q <= |extra|
      ensures Outcomes(before, available, ids, shortId, seen, extra[..q])
      ensures ExtraStops(ids, shortId, seen, extra, base, q)
      ensures mempoolCount == base + |Picked(ids, shortId, seen, extra[..q])|
    {
      hide Scanned, Picked, Outcomes, Settled, Filled, Matches;
      var have := have;
      q := 0;
      assert extra[..q] == [];
      while q < |extra|
        invariant q <= |extra| && |available| == |before| == |have|
        invariant Scanned(before, available, have, mempoolCount, base, ids, shortId, seen, extra[..q])
        invariant forall n: nat :: 0 < n <= q ==> base + |Picked(ids, shortId, seen, extra[..n])| != |ids|
      {
        have := OfferExtra(before, have, base, ids, shortId, seen, extra, q);
        q := q + 1;
        CountsPicked(before, available, have, mempoolCount, base, ids, shortId, seen, extra[..q]);
        if mempoolCount == |ids| {
          break;
        }
      }
      CountsPicked(before, available, have, mempoolCount, base, ids, shortId, seen, extra[..q]);
      ScannedOutcome(before, available, have, mempoolCount, base, ids, shortId, seen, extra[..q]);
    }

    method IsTxAvailable(index: nat) returns (r: bool)
      requires !header.IsNull() && index < |available|
      ensures r == available[index].Some?
    {
      r := available[index].Some?;
    }

    /** Completes the block with the transactions the peer sent for the empty slots. */
    method FillBlock(missing: seq<Transaction>, verdict: Verdict) returns (r: ReadStatus, block: Block)
      requires !header.IsNull()
      modifies this
      ensures r == Invalid <==> |missing| != |Gaps(old(available))|
      ensures |missing| >= |Gaps(old(available))| ==> header.IsNull() && available == []
      ensures |missing| < |Gaps(old(available))| ==>
                header == old(header) && Drained(old(available), available, Gaps(old(available))[|missing|])
      ensures r != Invalid ==> block.header == old(header) && Completes(block.txs, old(available), missing)
      ensures r != Invalid ==> r == match verdict case Passes => Ok case Corrupt => Failed case Fails => CheckBlockFailed
    {
      ghost var a := available;
      var txs: seq<Transaction> := [];
      var offset: nat := 0;
      assert a[..0] == [];
      hide Completes;
      for i := 0 to |available|
        invariant header == old(header) && |available| == |a| && offset <= |missing| && offset == |Gaps(a[..i])|
        invariant Drained(a, available, i)
        invariant Assembled(txs, a, missing, i)
      {
        hide Gaps, Assembled;
        AssembleNext(txs, a, missing, i);
        GapsNext(a, i);
        if available[i].None? {
          if |missing| <= offset {
            GapAt(a, i);
            block := Block(header, txs);
            return Invalid, block;
          }
          txs := txs + [missing[offset]];
          offset := offset + 1;
        } else {
          txs := txs + [available[i].value];
          available := available[i := None];
        }
      }
      assert a[..|a|] == a;
      block := Block(header, txs);
      header := Header(0, []);
      available := [];
      if |missing| != offset {
        return Invalid, block;
      }
      AssembledAll(txs, a, missing);
      match verdict
      case Passes => r := Ok;
      case Corrupt => r := Failed;
      case Fails => r := CheckBlockFailed;
    }
  }

  /** The transactions of the first n slots have been moved out. */
  ghost predicate Drained(before: Slots, now: Slots, n: nat) {
    |now| == |before| && forall k: nat :: k < |before| ==> now[k] == if k < n then None else before[k]
  }

  /** The first n transactions of the block are in place. */
  ghost predicate Assembled(txs: seq<Transaction>, a: Slots, missing: seq<Transaction>, n: nat) {
    && |txs| == n <= |a| && |Gaps(a[..n])| <= |missing|
    && (forall i: nat :: i < n && a[i].Some? ==> txs[i] == a[i].value)
    && (forall k: nat :: k < |Gaps(a[..n])| ==> Gaps(a[..n])[k] < n && txs[Gaps(a[..n])[k]] == missing[k])
  }

  lemma AssembleNext(txs: seq<Transaction>, a: Slots, missing: seq<Transaction>, n: nat)
    requires Assembled(txs, a, missing, n) && n < |a|
    ensures a[n].Some? ==> Assembled(txs + [a[n].value], a, missing, n + 1)
    ensures a[n].None? && |Gaps(a[..n])| < |missing| ==>
              Assembled(txs + [missing[|Gaps(a[..n])|]], a, missing, n + 1)
  {
    hide Gaps;
    GapsNext(a, n);
  }

  /** The first i short ids have been given their slots. */
  ghost predicate Mapped(a: Slots, shortIds: seq<nat>, ids: map<nat, nat>, i: nat, offset: nat) {
    && i <= |shortIds| <= |Gaps(a)|
    && i + offset <= |a| && |Gaps(a[..i + offset])| == i
    && ids == IdMap(shortIds[..i], Gaps(a))
  }

  lemma MapNext(a: Slots, shortIds: seq<nat>, ids: map<nat, nat>, i: nat, offset: nat)
    requires i < |shortIds| <= |Gaps(a)| && ids == IdMap(shortIds[..i], Gaps(a))
    requires i + offset < |a| && a[i + offset].None? && |Gaps(a[..i + offset])| == i
    ensures Mapped(a, shortIds, ids[shortIds[i] := (i + offset) % (MAX16 + 1)], i + 1, offset)
  {
    hide Gaps, IdMap;
    GapAt(a, i + offset);
    GapsNext(a, i + offset);
    IdMapNext(shortIds, Gaps(a), i);
  }

  lemma PlacedStart(a: Slots, m: Message)
    requires |a| == m.BlockTxCount() && forall i: nat :: i < |a| ==> a[i].None?
    ensures Placed(a, m, 0)
  {
    AllGaps(a);
  }

  /** The empty slots are as many as the short ids. */
  lemma PlacedGaps(a: Slots, m: Message)
    requires Placed(a, m, |m.prefilled|)
    requires forall k: nat :: k < |m.prefilled| ==> GoodPrefilled(m, k)
    ensures |Gaps(a)| == |m.shortIds| && |a| == m.BlockTxCount() && |m.prefilled| <= MAX16 + 1
  {
    if |m.prefilled| > 0 {
      assert GoodPrefilled(m, |m.prefilled| - 1);
    }
  }

  /** Prefilled transactions are at least one slot apart. */
  lemma {:induction false} PositionsApart(pre: seq<Prefilled>, j: nat, k: nat)
    requires j <= k <= |pre|
    ensures Position(pre, j) + (k - j) <= Position(pre, k)
  {
    if j < k {
      PositionsApart(pre, j, k - 1);
    }
  }

  /** The slot that the n-th round of the search for the first short id's slot looks at: the offset has 16 bits. */
  function SearchedAt(n: nat): (r: nat)
    ensures r <= MAX16 && (n <= MAX16 ==> r == n) && (n - r) % (MAX16 + 1) == 0
  {
    n % (MAX16 + 1)
  }

  /** 65536 well-placed transactions in full leave no slot that 16 bits can reach. */
  lemma NoneWithinReach(a: Slots, m: Message)
    requires !Malformed(m) && Placed(a, m, |m.prefilled|) && |m.prefilled| == MAX16 + 1
    ensures forall p: nat :: p <= MAX16 ==> p < |a| && a[p].Some?
  {
    hide Gaps;
    var n := |m.prefilled|;
    assert GoodPrefilled(m, n - 1);
    forall p: nat | p <= MAX16
      ensures p < |a| && a[p].Some?
    {
      PositionsApart(m.prefilled, p + 1, n);
      hide Position;
      assert Position(m.prefilled, p + 1) == p;
    }
  }

  /**
    For a well-formed message with a short id, the search for the first empty slot ends if and
    only if the message does not carry exactly 65536 transactions in full; with 65536 the
    offset wraps and every round finds a filled slot.
   */
  lemma SearchEnds(a: Slots, m: Message)
    requires !Malformed(m) && m.shortIds != [] && Placed(a, m, |m.prefilled|)
    ensures (exists n: nat :: SearchedAt(n) < |a| && a[SearchedAt(n)].None?) <==> |m.prefilled| != MAX16 + 1
  {
    if |m.prefilled| == MAX16 + 1 {
      NoneWithinReach(a, m);
    } else {
      PlacedGaps(a, m);
      var first := Gaps(a)[0];
      FirstGap(a);
      assert SearchedAt(first) == first;
    }
  }

  /** Before the first empty slot all are filled. */
  lemma FirstGap(a: Slots)
    requires Gaps(a) != []
    ensures Gaps(a)[0] <= |a| - |Gaps(a)|
  {
    var first := Gaps(a)[0];
    GapsPrefix(a, first);
    GapAhead(a, first);
  }

  /** Past any prefix there are at most as many empty slots as slots. */
  lemma {:induction false} GapAhead(a: Slots, n: nat)
    requires n <= |a|
    ensures |Gaps(a)| <= |Gaps(a[..n])| + |a| - n
  {
    assert a[..|a|] == a;
    if n < |a| {
      var m := |a| - 1;
      GapAhead(a[..m], n);
      assert a[..m][..n] == a[..n];
    }
  }

  lemma NothingScanned(a: Slots, have: seq<bool>, base: nat, ids: map<nat, nat>, shortId: nat -> nat)
    requires |have| == |a| && forall i: nat :: i < |have| ==> !have[i]
    ensures Scanned(a, a, have, base, base, ids, shortId, [], [])
  {
    assert Filled(a, have) == {};
  }

  lemma AssembledAll(txs: seq<Transaction>, a: Slots, missing: seq<Transaction>)
    requires Assembled(txs, a, missing, |a|) && |missing| == |Gaps(a)|
    ensures Completes(txs, a, missing)
  {
    assert a[..|a|] == a;
  }
}
