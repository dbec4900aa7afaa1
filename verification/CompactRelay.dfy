/**
  The compact block protocol from end to end: announce, reconstruct, request what is
  missing (src/net_processing.cpp), answer, assemble.
 */
module CompactRelay {
  import opened Options
  import opened BlockRequests
  import opened BlockSlots
  import opened CompactMessages
  import opened PartialBlocks

  /** A candidate's short id and hash identify it among the block's transactions. */
  ghost predicate Identifies(block: Block, cs: seq<Candidate>, shortId: nat -> nat) {
    forall c <- cs, t <- block.txs ::
      (shortId(c.hash) == shortId(t.hash) ==> c.hash == t.hash) && (c.hash == t.hash ==> c.tx == t)
  }

  ghost predicate NoCollision(block: Block, shortId: nat -> nat) {
    forall t <- block.txs, u <- block.txs :: shortId(t.hash) == shortId(u.hash) ==> t.hash == u.hash
  }

  function Hashes(txs: seq<Transaction>): (r: seq<nat>)
    ensures |r| == |txs| && forall i: nat :: i < |txs| ==> r[i] == txs[i].hash
  {
    seq(|txs|, i requires 0 <= i < |txs| => txs[i].hash)
  }

  ghost predicate DistinctHashes(cs: seq<Candidate>) {
    forall i: nat, j: nat :: i < j < |cs| ==> cs[i].hash != cs[j].hash
  }

  ghost predicate Offers(cs: seq<Candidate>, hash: nat) {
    exists i: nat :: i < |cs| && cs[i].hash == hash
  }

  // ---------------------------------------------------------------- the sender's message at the receiver

  lemma {:induction false} GapsAfterFirst(a: Slots)
    requires |a| > 0 && a[0].Some? && forall i: nat :: 0 < i < |a| ==> a[i].None?
    ensures Gaps(a) == seq(|a| - 1, i => i + 1)
  {
    if |a| > 1 {
      GapsAfterFirst(a[..|a| - 1]);
    } else {
      assert Gaps(a[..0]) == [];
    }
  }

  /** The coinbase is in slot 0 and short id k belongs to slot k + 1. */
  lemma AnnouncedSlots(m: Message, block: Block, sip: SipHash, placed: Slots)
    requires Announces(m, block, sip) && Placed(placed, m, 1)
    ensures |placed| == |block.txs| && placed[0] == Some(block.txs[0])
    ensures forall i: nat :: 0 < i < |placed| ==> placed[i].None?
    ensures Gaps(placed) == seq(|placed| - 1, i => i + 1)
  {
    assert Position(m.prefilled, 1) == 0 by { assert Position(m.prefilled, 0) == -1; }
    GapsAfterFirst(placed);
  }

  /** Short id k stands for slot k + 1. */
  ghost predicate SlotAfterId(m: Message, ids: map<nat, nat>) {
    && (forall k: nat :: k < |m.shortIds| ==> m.shortIds[k] in ids && ids[m.shortIds[k]] == k + 1)
    && (forall id <- ids :: 0 < ids[id] <= |m.shortIds| && m.shortIds[ids[id] - 1] == id)
  }

  /** The receiver's map from short ids to slots, for a block that 16 bits can index. */
  lemma AnnouncedIds(m: Message, gaps: seq<nat>)
    requires Distinct(m.shortIds) && |m.shortIds| <= MAX16 && gaps == seq(|m.shortIds|, i => i + 1)
    ensures SlotAfterId(m, IdMap(m.shortIds, gaps))
  {
    hide IdMap, Distinct;
    var ids := IdMap(m.shortIds, gaps);
    forall k: nat | k < |m.shortIds|
      ensures m.shortIds[k] in ids && ids[m.shortIds[k]] == k + 1
    {
      IdMapAt(m.shortIds, gaps, k);
    }
    IdMapKeys(m.shortIds, gaps);
    forall id <- ids
      ensures 0 < ids[id] <= |m.shortIds| && m.shortIds[ids[id] - 1] == id
    {
      var k: nat :| k < |m.shortIds| && m.shortIds[k] == id;
      assert ids[m.shortIds[k]] == k + 1;
    }
  }

  /** A candidate is for slot s exactly when it has the hash of transaction s. */
  lemma TargetIsHash(m: Message, block: Block, sip: SipHash, ids: map<nat, nat>, cs: seq<Candidate>, i: nat, s: nat)
    requires Announces(m, block, sip) && s < |block.txs| && SlotAfterId(m, ids)
    requires Identifies(block, cs, ShortId(sip, m.header, m.nonce)) && i < |cs|
    ensures Target(cs[i], ids, ShortId(sip, m.header, m.nonce)) == Some(s) <==> s > 0 && cs[i].hash == block.txs[s].hash
    ensures Target(cs[i], ids, ShortId(sip, m.header, m.nonce)) == Some(s) ==> cs[i].tx == block.txs[s]
  {
    var shortId := ShortId(sip, m.header, m.nonce);
    var c := cs[i];
    assert c in cs && block.txs[s] in block.txs;
    if s > 0 {
      assert m.shortIds[s - 1] == shortId(block.txs[s].hash);
    }
  }

  // ---------------------------------------------------------------- claims on one slot

  lemma {:induction false} MatchesAre(cs: seq<Candidate>, ids: map<nat, nat>, shortId: nat -> nat, s: nat, t: Transaction)
    requires forall i: nat :: i < |cs| && Target(cs[i], ids, shortId) == Some(s) ==> cs[i].tx == t
    ensures forall u <- Matches(cs, ids, shortId, s) :: u == t
    ensures Matches(cs, ids, shortId, s) != [] <==> exists i: nat :: i < |cs| && Target(cs[i], ids, shortId) == Some(s)
  {
    if cs != [] {
      var n := |cs| - 1;
      MatchesAre(cs[..n], ids, shortId, s, t);
      if Matches(cs[..n], ids, shortId, s) != [] {
        var i: nat :| i < n && Target(cs[..n][i], ids, shortId) == Some(s);
        assert Target(cs[i], ids, shortId) == Some(s);
      }
      if i: nat :| i < |cs| && Target(cs[i], ids, shortId) == Some(s) {
        if i < n {
          assert Target(cs[..n][i], ids, shortId) == Some(s);
        }
      }
    }
  }

  lemma {:induction false} MatchesOnce(cs: seq<Candidate>, ids: map<nat, nat>, shortId: nat -> nat, s: nat, h: nat)
    requires DistinctHashes(cs)
    requires forall i: nat :: i < |cs| && Target(cs[i], ids, shortId) == Some(s) ==> cs[i].hash == h
    ensures |Matches(cs, ids, shortId, s)| <= 1
    ensures Matches(cs, ids, shortId, s) != [] ==> Offers(cs, h)
  {
    if cs != [] {
      var n := |cs| - 1;
      MatchesOnce(cs[..n], ids, shortId, s, h);
      if Matches(cs[..n], ids, shortId, s) != [] {
        var i: nat :| i < n && cs[..n][i].hash == h;
        assert cs[i].hash == h;
        assert cs[n].hash != h;
      } else if Matches(cs, ids, shortId, s) != [] {
        assert cs[n].hash == h;
      }
    }
  }

  lemma PickSame(fromPool: seq<Transaction>, fromExtra: seq<Transaction>, t: Transaction)
    requires forall u <- fromPool + fromExtra :: u == t
    ensures Pick(fromPool, fromExtra) == if |fromPool| > 1 || fromPool + fromExtra == [] then None else Some(t)
  {
    var all := fromPool + fromExtra;
    if all != [] {
      assert all[0] in all;
    }
  }

  /** The claims of an honest candidate list on slot s. */
  lemma HonestMatches(m: Message, block: Block, sip: SipHash, ids: map<nat, nat>, cs: seq<Candidate>, s: nat)
    requires Announces(m, block, sip) && s < |block.txs| && SlotAfterId(m, ids)
    requires Identifies(block, cs, ShortId(sip, m.header, m.nonce))
    ensures var found := Matches(cs, ids, ShortId(sip, m.header, m.nonce), s);
            && (forall u <- found :: u == block.txs[s])
            && (found != [] <==> s > 0 && Offers(cs, block.txs[s].hash))
            && (DistinctHashes(cs) ==> |found| <= 1)
  {
    var shortId := ShortId(sip, m.header, m.nonce);
    forall i: nat | i < |cs|
      ensures Target(cs[i], ids, shortId) == Some(s) <==> s > 0 && cs[i].hash == block.txs[s].hash
      ensures Target(cs[i], ids, shortId) == Some(s) ==> cs[i].tx == block.txs[s]
    {
      TargetIsHash(m, block, sip, ids, cs, i, s);
    }
    hide Matches, Target, ShortId, Announces, Identifies, SlotAfterId;
    MatchesAre(cs, ids, shortId, s, block.txs[s]);
    if DistinctHashes(cs) {
      MatchesOnce(cs, ids, shortId, s, block.txs[s].hash);
    }
  }

  /**
    After a successful InitData on an honest message every slot holds its own transaction
    or nothing; when the pool lists no hash twice and no scan stopped too soon, it holds it
    exactly if the pool or the extra list offers it.
   */
  lemma HonestSlots(m: Message, block: Block, sip: SipHash, pool: seq<Candidate>, extra: seq<Candidate>,
                    placed: Slots, a: Slots, p: nat, q: nat, s: nat)
    requires Announces(m, block, sip) && s < |block.txs| <= MAX16 + 1
    requires Identifies(block, pool, ShortId(sip, m.header, m.nonce))
    requires Identifies(block, extra, ShortId(sip, m.header, m.nonce))
    requires Reconstructed(m, ShortId(sip, m.header, m.nonce), pool, extra, placed, a, p, q)
    ensures |a| == |block.txs|
    ensures a[s] == None || a[s] == Some(block.txs[s])
    ensures s == 0 ==> a[s].Some?
    ensures s > 0 && a[s].Some? ==> Offers(pool, block.txs[s].hash) || Offers(extra, block.txs[s].hash)
    ensures StopsWhenFull(m, ShortId(sip, m.header, m.nonce), pool, extra, placed, p, q) && DistinctHashes(pool) ==>
              (s > 0 && (Offers(pool, block.txs[s].hash) || Offers(extra, block.txs[s].hash)) ==> a[s].Some?)
  {
    var shortId := ShortId(sip, m.header, m.nonce);
    var ids := IdMap(m.shortIds, Gaps(placed));
    AnnouncedSlots(m, block, sip, placed);
    AnnouncedIds(m, Gaps(placed));
    hide Identifies, SlotAfterId, IdMap, Gaps, ShortId, Placed, Distinct, Matches, Pick, Announces, Offers,
         DistinctHashes, AllPicked, Outcome;
    HonestClaims(m, block, sip, ids, pool, p, s);
    HonestClaims(m, block, sip, ids, extra, q, s);
    var fromPool, fromExtra := Matches(pool[..p], ids, shortId, s), Matches(extra[..q], ids, shortId, s);
    assert a[s] == Outcome(placed[s], fromPool, fromExtra);
    SameClaims(placed[s], fromPool, fromExtra, block.txs[s]);
    if s > 0 {
      IdOf(m, ids, s);
      if StopsWhenFull(m, shortId, pool, extra, placed, p, q) {
        StoppedHasAll(m, pool, extra, ids, shortId, p, q, s);
      }
    }
  }

  lemma SameClaims(was: Option<Transaction>, fromPool: seq<Transaction>, fromExtra: seq<Transaction>, t: Transaction)
    requires forall u <- fromPool :: u == t
    requires forall u <- fromExtra :: u == t
    ensures var now := Outcome(was, fromPool, fromExtra);
            && (fromPool == [] && fromExtra == [] ==> now == was)
            && (fromPool != [] || fromExtra != [] ==> now == if |fromPool| > 1 then None else Some(t))
  {
    PickSame(fromPool, fromExtra, t);
  }

  lemma HonestClaims(m: Message, block: Block, sip: SipHash, ids: map<nat, nat>, cs: seq<Candidate>, n: nat, s: nat)
    requires Announces(m, block, sip) && s < |block.txs| && SlotAfterId(m, ids) && n <= |cs|
    requires Identifies(block, cs, ShortId(sip, m.header, m.nonce))
    ensures var found := Matches(cs[..n], ids, ShortId(sip, m.header, m.nonce), s);
            && (forall u <- found :: u == block.txs[s])
            && (found != [] ==> s > 0 && Offers(cs, block.txs[s].hash))
            && (n == |cs| && s > 0 && Offers(cs, block.txs[s].hash) ==> found != [])
            && (DistinctHashes(cs) ==> |found| <= 1)
  {
    hide Identifies, SlotAfterId, Matches, Announces, Offers, DistinctHashes;
    Halves(block, cs, n, ShortId(sip, m.header, m.nonce));
    HonestMatches(m, block, sip, ids, cs[..n], s);
    assert n == |cs| ==> cs[..n] == cs;
  }

  lemma IdOf(m: Message, ids: map<nat, nat>, s: nat)
    requires SlotAfterId(m, ids) && 0 < s <= |m.shortIds|
    ensures s in ids.Values
  {
    assert ids[m.shortIds[s - 1]] == s;
  }

  lemma Halves(block: Block, cs: seq<Candidate>, n: nat, shortId: nat -> nat)
    requires Identifies(block, cs, shortId) && n <= |cs|
    ensures Identifies(block, cs[..n], shortId)
    ensures DistinctHashes(cs) ==> DistinctHashes(cs[..n])
    ensures forall h: nat :: Offers(cs[..n], h) ==> Offers(cs, h)
  {
    forall h: nat | Offers(cs[..n], h)
      ensures Offers(cs, h)
    {
      var i: nat :| i < n && cs[..n][i].hash == h;
      assert cs[i].hash == h;
    }
  }

  /** A scan that stopped early has left no slot without a claim. */
  lemma StoppedHasAll(m: Message, pool: seq<Candidate>, extra: seq<Candidate>, ids: map<nat, nat>,
                      shortId: nat -> nat, p: nat, q: nat, s: nat)
    requires p <= |pool| && q <= |extra| && s in ids.Values
    requires p < |pool| ==> AllPicked(ids, shortId, pool[..p], [])
    requires q < |extra| ==> AllPicked(ids, shortId, pool[..p], extra[..q])
    ensures p < |pool| || q < |extra| ==>
              Matches(pool[..p], ids, shortId, s) != [] || Matches(extra[..q], ids, shortId, s) != []
  {
    if p < |pool| {
      assert Pick(Matches(pool[..p], ids, shortId, s), Matches([], ids, shortId, s)).Some?;
      MatchesNone(ids, shortId, s);
    }
  }

  // ---------------------------------------------------------------- the protocol

  /** An honest message is refused only for a null header, a null coinbase or its size. */
  lemma HonestMessage(m: Message, block: Block, sip: SipHash)
    requires Announces(m, block, sip)
    ensures Malformed(m) <==> block.header.IsNull() || block.txs[0].isNull || |block.txs| > 200000
  {
    assert Position(m.prefilled, 1) == 0 by { assert Position(m.prefilled, 0) == -1; }
    assert GoodPrefilled(m, 0) <==> !block.txs[0].isNull;
  }

  /** Without collisions, equal short ids mean equal hashes. */
  lemma HonestIds(m: Message, block: Block, sip: SipHash)
    requires Announces(m, block, sip) && NoCollision(block, ShortId(sip, m.header, m.nonce))
    ensures Distinct(m.shortIds) <==> Distinct(Hashes(block.txs)[1..])
  {
    var shortId := ShortId(sip, m.header, m.nonce);
    var hashes := Hashes(block.txs)[1..];
    forall k: nat | k < |m.shortIds|
      ensures hashes[k] == block.txs[k + 1].hash && m.shortIds[k] == shortId(hashes[k])
    {
      assert m.shortIds[k + 1 - 1] == shortId(block.txs[k + 1].hash);
    }
    hide ShortId, Announces;
    forall i: nat, j: nat | i < j < |m.shortIds|
      ensures m.shortIds[i] == m.shortIds[j] <==> hashes[i] == hashes[j]
    {
      assert block.txs[i + 1] in block.txs && block.txs[j + 1] in block.txs;
    }
  }

  /** Filling the gaps of an honest reconstruction with the block's own transactions gives the block. */
  lemma CompletesBack(txs: seq<Transaction>, a: Slots, missing: seq<Transaction>, rebuilt: seq<Transaction>)
    requires |a| == |txs| && forall s: nat :: s < |a| ==> a[s] == None || a[s] == Some(txs[s])
    requires |missing| == |Gaps(a)| && forall k: nat :: k < |missing| ==> missing[k] == txs[Gaps(a)[k]]
    requires Completes(rebuilt, a, missing)
    ensures rebuilt == txs
  {
    forall s: nat | s < |a|
      ensures rebuilt[s] == txs[s]
    {
      if a[s].None? {
        GapAt(a, s);
        hide Gaps;
        var k := |Gaps(a[..s])|;
        assert rebuilt[Gaps(a)[k]] == missing[k];
      }
    }
  }

  function Low16(p: nat): (r: nat)
    ensures r <= MAX16 && r <= p && (r == p <==> p <= MAX16)
  {
    p % (MAX16 + 1)
  }

  /** Positions as the request keeps them, in 16 bits. */
  function Truncated(l: seq<nat>): (r: seq<nat>)
    ensures |r| == |l| && Fits16(r)
    ensures forall k: nat :: k < |l| ==> r[k] == Low16(l[k])
  {
    seq(|l|, k requires 0 <= k < |l| => Low16(l[k]))
  }

  /** The positions to ask the peer for. */
  method MissingIndexes(partial: PartiallyDownloadedBlock, count: nat) returns (indexes: seq<nat>)
    requires !partial.header.IsNull() && count == |partial.available|
    ensures indexes == Truncated(Gaps(partial.available))
  {
    indexes := [];
    assert partial.available[..0] == [];
    for i := 0 to count
      invariant indexes == Truncated(Gaps(partial.available[..i]))
    {
      GapsNext(partial.available, i);
      var here := partial.IsTxAvailable(i);
      if !here {
        indexes := indexes + [Low16(i)];
      }
    }
    assert partial.available[..count] == partial.available;
  }

  /** The peer's answer, or None when an index is out of bounds. */
  method Answer(block: Block, indexes: seq<nat>) returns (r: Option<seq<Transaction>>)
    ensures r.Some? <==> forall k: nat :: k < |indexes| ==> indexes[k] < |block.txs|
    ensures r.Some? ==> |r.value| == |indexes| && forall k: nat :: k < |indexes| ==> r.value[k] == block.txs[indexes[k]]
  {
    var txn: seq<Transaction> := [];
    for i := 0 to |indexes|
      invariant |txn| == i && forall k: nat :: k < i ==> indexes[k] < |block.txs| && txn[k] == block.txs[indexes[k]]
    {
      if indexes[i] >= |block.txs| {
        return None;
      }
      txn := txn + [block.txs[indexes[i]]];
    }
    return Some(txn);
  }

  /** The request over the wire and the answer to it, if the peer can read the request. */
  method RequestMissing(block: Block, partial: PartiallyDownloadedBlock) returns (r: Option<seq<Transaction>>)
    requires !partial.header.IsNull() && |partial.available| == |block.txs|
    ensures r.Some? <==> Increasing(Truncated(Gaps(partial.available)))
    ensures r.Some? ==> Answers(r.value, block, Gaps(partial.available))
  {
    hide Gaps, Increasing;
    var indexes := MissingIndexes(partial, |block.txs|);
    var wire := EncodeIndexes(indexes);
    var received := DecodeIndexes(wire);
    RequestRoundTrip(indexes);
    if received == None {
      return None;
    }
    GapsInside(partial.available);
    r := Answer(block, received.value);
  }

  /** The block's transactions at the positions, each position taken in 16 bits. */
  ghost predicate Answers(missing: seq<Transaction>, block: Block, positions: seq<nat>) {
    && |missing| == |positions|
    && forall k: nat :: k < |missing| ==>
         Low16(positions[k]) < |block.txs| && missing[k] == block.txs[Low16(positions[k])]
  }

  lemma GapsInside(a: Slots)
    ensures forall k: nat :: k < |Gaps(a)| ==> Truncated(Gaps(a))[k] < |a|
  {
    hide Truncated;
    forall k: nat | k < |Gaps(a)|
      ensures Truncated(Gaps(a))[k] < |a|
    {
      TruncatedAt(Gaps(a), k);
    }
  }

  lemma TruncatedAt(l: seq<nat>, k: nat)
    requires k < |l|
    ensures |Truncated(l)| == |l| && Truncated(l)[k] <= l[k] && (Truncated(l)[k] == l[k] <==> l[k] <= MAX16)
  {
  }

  /** Positions that fit in 16 bits are requested as they are. */
  lemma TruncatedSame(l: seq<nat>)
    ensures Truncated(l) == l <==> Fits16(l)
  {
    forall k: nat | k < |l|
      ensures Truncated(l)[k] == l[k] <==> l[k] <= MAX16
    {
      TruncatedAt(l, k);
    }
  }

  /** The message over the wire, with its short ids in six bytes each. */
  method Transmit(m: Message) returns (r: Message)
    requires forall i: nat :: i < |m.shortIds| ==> m.shortIds[i] < SHORT_ID_SPACE
    ensures r == m
  {
    var wire := SendShortIds(m.shortIds);
    var received := ReceiveShortIds(wire, m.shortIds);
    assert received == m.shortIds;
    r := m.(shortIds := received);
  }

  /** How an exchange ends: with a status other than OK, with a request the peer cannot read, or with a block. */
  datatype Ending = Ended(status: ReadStatus) | Unanswered | Rebuilt(block: Block)

  /** What decides the exchange: the block, the bucket check and CheckBlock. */
  ghost predicate Acceptable(block: Block, crowded: nat -> bool, verdict: Verdict)
    requires |block.txs| > 0
  {
    && !block.header.IsNull() && !block.txs[0].isNull && |block.txs| <= 200000
    && Distinct(Hashes(block.txs)[1..]) && (forall i: nat :: i + 1 < |block.txs| ==> !crowded(i))
    && verdict == Passes
  }

  /**
    A block whose positions lose nothing in 16 bits: up to 65536 transactions, or one more that
    is the coinbase over again.
   */
  predicate Indexable(block: Block) {
    |block.txs| <= MAX16 + 1 || (|block.txs| == MAX16 + 2 && block.txs[MAX16 + 1] == block.txs[0])
  }

  /**
    The whole exchange.  Whatever the pool and the extra list hold, as long as no two
    different hashes share a short id, an acceptable block of up to 65536 transactions is
    rebuilt, and what is rebuilt of any block is that block exactly when 16 bits can index it.
   */
  method Relay(block: Block, nonce: nat, sip: SipHash, pool: seq<Candidate>, extra: seq<Candidate>,
               crowded: nat -> bool, verdict: Verdict) returns (ending: Ending)
    requires |block.txs| > 0
    requires NoCollision(block, ShortId(sip, block.header, nonce))
    requires Identifies(block, pool, ShortId(sip, block.header, nonce))
    requires Identifies(block, extra, ShortId(sip, block.header, nonce))
    ensures |block.txs| <= MAX16 + 1 ==>
              if Acceptable(block, crowded, verdict) then ending == Rebuilt(block) else ending.Ended?
    ensures ending.Rebuilt? ==> Acceptable(block, crowded, verdict) && (ending.block == block <==> Indexable(block))
    ensures ending == Ended(Invalid) <==>
              block.header.IsNull() || block.txs[0].isNull || |block.txs| > 200000
  {
    hide Announces, Malformed, Reconstructed, ShortId, Distinct, Gaps, Completes, Identifies, NoCollision,
         Answers, Increasing, Truncated;
    var sent := Announce(block, nonce, sip);
    AnnouncedShape(sent, block, sip);
    var m := Transmit(sent);
    HonestMessage(m, block, sip);
    HonestIds(m, block, sip);
    var partial := new PartiallyDownloadedBlock();
    var initial, placed, p, q := partial.InitData(m, sip, pool, extra, crowded);
    if initial != Ok {
      return Ended(initial);
    }
    ghost var a := partial.available;
    ReconstructedSize(m, block, sip, pool, extra, placed, a, p, q);
    if |block.txs| <= MAX16 + 1 {
      ShortRequest(a);
    }
    var missing := RequestMissing(block, partial);
    if missing == None {
      return Unanswered;
    }
    AnswersAll(missing.value, block, Gaps(a));
    var final, result := partial.FillBlock(missing.value, verdict);
    if final != Ok {
      return Ended(final);
    }
    if Indexable(block) {
      HonestRebuild(m, block, sip, pool, extra, placed, a, p, q, missing.value, result.txs);
    } else {
      LongRebuild(m, block, sip, pool, extra, placed, a, p, q, missing.value, result.txs);
    }
    return Rebuilt(result);
  }

  lemma ReconstructedSize(m: Message, block: Block, sip: SipHash, pool: seq<Candidate>, extra: seq<Candidate>,
                          placed: Slots, a: Slots, p: nat, q: nat)
    requires Announces(m, block, sip)
    requires Reconstructed(m, ShortId(sip, m.header, m.nonce), pool, extra, placed, a, p, q)
    ensures |a| == |block.txs|
  {
    hide Gaps, IdMap, AllPicked, Distinct, ShortId;
  }

  lemma AnswersAll(missing: seq<Transaction>, block: Block, positions: seq<nat>)
    requires Answers(missing, block, positions)
    ensures |missing| == |positions|
  {
  }

  /** Within 16 bits the request is the list of gaps, which is strictly increasing. */
  lemma ShortRequest(a: Slots)
    requires |a| <= MAX16 + 1
    ensures Truncated(Gaps(a)) == Gaps(a) && Increasing(Truncated(Gaps(a)))
  {
    TruncatedSame(Gaps(a));
    GapsIncrease(a);
  }

  lemma HonestRebuild(m: Message, block: Block, sip: SipHash, pool: seq<Candidate>, extra: seq<Candidate>,
                      placed: Slots, a: Slots, p: nat, q: nat, missing: seq<Transaction>, rebuilt: seq<Transaction>)
    requires Announces(m, block, sip) && Indexable(block)
    requires Identifies(block, pool, ShortId(sip, m.header, m.nonce))
    requires Identifies(block, extra, ShortId(sip, m.header, m.nonce))
    requires Reconstructed(m, ShortId(sip, m.header, m.nonce), pool, extra, placed, a, p, q)
    requires Answers(missing, block, Gaps(a)) && Completes(rebuilt, a, missing)
    ensures rebuilt == block.txs
  {
    hide Announces, Reconstructed, ShortId, Completes, Identifies, Answers, Gaps;
    ReconstructedSize(m, block, sip, pool, extra, placed, a, p, q);
    forall s: nat | s < |block.txs|
      ensures a[s] == None || a[s] == Some(block.txs[s])
    {
      OwnSlots(m, block, sip, pool, extra, placed, a, p, q, s);
    }
    AnswersOwn(missing, block, a);
    CompletesBack(block.txs, a, missing, rebuilt);
  }

  /** To an indexable block's gaps the answer is its own transactions. */
  lemma AnswersOwn(missing: seq<Transaction>, block: Block, a: Slots)
    requires Answers(missing, block, Gaps(a)) && |a| == |block.txs| && Indexable(block)
    ensures |missing| == |Gaps(a)| && forall k: nat :: k < |missing| ==> missing[k] == block.txs[Gaps(a)[k]]
  {
    assert Low16(MAX16 + 1) == 0;
    hide Gaps, Low16;
    forall k: nat | k < |missing|
      ensures missing[k] == block.txs[Gaps(a)[k]]
    {
      var g := Gaps(a)[k];
      assert missing[k] == block.txs[Low16(g)];
      assert g <= MAX16 ==> Low16(g) == g;
    }
  }

  /** A slot that a short id was given is the position of a transaction with that short id, in 16 bits. */
  lemma SlotOfSome(m: Message, gaps: seq<nat>, id: nat) returns (i: nat)
    requires Distinct(m.shortIds) && gaps == seq(|m.shortIds|, k => k + 1) && id in IdMap(m.shortIds, gaps)
    ensures 0 < i <= |m.shortIds| && m.shortIds[i - 1] == id && IdMap(m.shortIds, gaps)[id] == Low16(i)
  {
    hide IdMap, Distinct;
    IdMapKeys(m.shortIds, gaps);
    var k: nat :| k < |m.shortIds| && m.shortIds[k] == id;
    IdMapAt(m.shortIds, gaps, k);
    i := k + 1;
  }

  /** In an indexable block every claim on a slot is by the slot's own transaction. */
  lemma ClaimsOwn(m: Message, block: Block, sip: SipHash, gaps: seq<nat>, cs: seq<Candidate>, j: nat, s: nat)
    requires Announces(m, block, sip) && Indexable(block) && Distinct(m.shortIds) && s < |block.txs|
    requires gaps == seq(|m.shortIds|, k => k + 1)
    requires Identifies(block, cs, ShortId(sip, m.header, m.nonce)) && j < |cs|
    ensures Target(cs[j], IdMap(m.shortIds, gaps), ShortId(sip, m.header, m.nonce)) == Some(s) ==> cs[j].tx == block.txs[s]
  {
    hide IdMap, Distinct;
    var shortId := ShortId(sip, m.header, m.nonce);
    if Target(cs[j], IdMap(m.shortIds, gaps), shortId) == Some(s) {
      var i := SlotOfSome(m, gaps, shortId(cs[j].hash));
      assert m.shortIds[i - 1] == shortId(block.txs[i].hash);
      assert cs[j] in cs && block.txs[i] in block.txs;
      assert cs[j].tx == block.txs[i];
    }
  }

  /** In an indexable block every slot holds its own transaction or nothing. */
  lemma OwnSlots(m: Message, block: Block, sip: SipHash, pool: seq<Candidate>, extra: seq<Candidate>,
                 placed: Slots, a: Slots, p: nat, q: nat, s: nat)
    requires Announces(m, block, sip) && Indexable(block) && s < |block.txs|
    requires Identifies(block, pool, ShortId(sip, m.header, m.nonce))
    requires Identifies(block, extra, ShortId(sip, m.header, m.nonce))
    requires Reconstructed(m, ShortId(sip, m.header, m.nonce), pool, extra, placed, a, p, q)
    ensures |a| == |block.txs| && (a[s] == None || a[s] == Some(block.txs[s]))
  {
    AnnouncedShape(m, block, sip);
    AnnouncedSlots(m, block, sip, placed);
    var shortId := ShortId(sip, m.header, m.nonce);
    var gaps := Gaps(placed);
    var ids := IdMap(m.shortIds, gaps);
    assert gaps == seq(|m.shortIds|, k => k + 1);
    hide Announces, IdMap, Gaps, Placed, Distinct, Matches, Pick, Target, Identifies, ShortId, Indexable;
    forall j: nat | j < |pool[..p]| && Target(pool[..p][j], ids, shortId) == Some(s)
      ensures pool[..p][j].tx == block.txs[s]
    {
      ClaimsOwn(m, block, sip, gaps, pool, j, s);
    }
    forall j: nat | j < |extra[..q]| && Target(extra[..q][j], ids, shortId) == Some(s)
      ensures extra[..q][j].tx == block.txs[s]
    {
      ClaimsOwn(m, block, sip, gaps, extra, j, s);
    }
    var fromPool, fromExtra := Matches(pool[..p], ids, shortId, s), Matches(extra[..q], ids, shortId, s);
    MatchesAre(pool[..p], ids, shortId, s, block.txs[s]);
    MatchesAre(extra[..q], ids, shortId, s, block.txs[s]);
    assert a[s] == Outcome(placed[s], fromPool, fromExtra);
    SameClaims(placed[s], fromPool, fromExtra, block.txs[s]);
  }

  lemma AnnouncedShape(m: Message, block: Block, sip: SipHash)
    requires Announces(m, block, sip)
    ensures m.header == block.header && |m.prefilled| == 1 && |m.shortIds| == |block.txs| - 1
    ensures forall i: nat :: i < |m.shortIds| ==> m.shortIds[i] < SHORT_ID_SPACE
  {
    forall i: nat | i < |m.shortIds|
      ensures m.shortIds[i] < SHORT_ID_SPACE
    {
      assert m.shortIds[i + 1 - 1] == ShortId(sip, m.header, m.nonce)(block.txs[i + 1].hash);
    }
  }

  // ---------------------------------------------------------------- blocks that 16 bits cannot index

  lemma {:induction false} IdMapFits(shortIds: seq<nat>, gaps: seq<nat>)
    requires |shortIds| <= |gaps|
    ensures forall id <- IdMap(shortIds, gaps) :: IdMap(shortIds, gaps)[id] <= MAX16
  {
    if shortIds != [] {
      IdMapFits(shortIds[..|shortIds| - 1], gaps);
    }
  }

  /** Whatever the pool and the extra list hold, no slot past 65535 is ever filled. */
  lemma BeyondSixteenBits(m: Message, block: Block, sip: SipHash, pool: seq<Candidate>, extra: seq<Candidate>,
                          placed: Slots, a: Slots, p: nat, q: nat, s: nat)
    requires Announces(m, block, sip) && MAX16 < s < |block.txs|
    requires Reconstructed(m, ShortId(sip, m.header, m.nonce), pool, extra, placed, a, p, q)
    ensures |a| == |block.txs| && a[s].None? && s in Gaps(a)
  {
    var shortId := ShortId(sip, m.header, m.nonce);
    var ids := IdMap(m.shortIds, Gaps(placed));
    AnnouncedSlots(m, block, sip, placed);
    IdMapFits(m.shortIds, Gaps(placed));
    hide IdMap, Gaps, ShortId, Placed, Distinct, Matches, Announces, AllPicked;
    MatchesAre(pool[..p], ids, shortId, s, block.txs[s]);
    MatchesAre(extra[..q], ids, shortId, s, block.txs[s]);
    assert a[s] == Outcome(placed[s], Matches(pool[..p], ids, shortId, s), Matches(extra[..q], ids, shortId, s));
    GapAt(a, s);
  }

  /** The request asks for exactly the missing positions if and only if 16 bits can index the block. */
  lemma RequestExactly(m: Message, block: Block, sip: SipHash, pool: seq<Candidate>, extra: seq<Candidate>,
                       placed: Slots, a: Slots, p: nat, q: nat)
    requires Announces(m, block, sip)
    requires Reconstructed(m, ShortId(sip, m.header, m.nonce), pool, extra, placed, a, p, q)
    ensures Truncated(Gaps(a)) == Gaps(a) <==> |block.txs| <= MAX16 + 1
  {
    hide Reconstructed, Announces, ShortId, Truncated;
    ReconstructedSize(m, block, sip, pool, extra, placed, a, p, q);
    TruncatedSame(Gaps(a));
    if |block.txs| > MAX16 + 1 {
      BeyondSixteenBits(m, block, sip, pool, extra, placed, a, p, q, MAX16 + 1);
      hide Gaps;
      var k: nat :| k < |Gaps(a)| && Gaps(a)[k] == MAX16 + 1;
    }
  }

  /** Past 65536 transactions the answer puts the coinbase in position 65536 and transaction 1 in position 65537. */
  lemma LongRebuild(m: Message, block: Block, sip: SipHash, pool: seq<Candidate>, extra: seq<Candidate>,
                    placed: Slots, a: Slots, p: nat, q: nat, missing: seq<Transaction>, rebuilt: seq<Transaction>)
    requires Announces(m, block, sip) && |block.txs| > MAX16 + 1
    requires Reconstructed(m, ShortId(sip, m.header, m.nonce), pool, extra, placed, a, p, q)
    requires Answers(missing, block, Gaps(a)) && Completes(rebuilt, a, missing)
    ensures |rebuilt| == |block.txs| && rebuilt[MAX16 + 1] == block.txs[0]
    ensures |block.txs| > MAX16 + 2 ==> rebuilt[MAX16 + 2] == block.txs[1]
    ensures Distinct(Hashes(block.txs)[1..]) && !Indexable(block) ==> rebuilt != block.txs
  {
    hide Reconstructed, Announces, ShortId, Gaps, Answers, Completes;
    assert Low16(MAX16 + 1) == 0 && Low16(MAX16 + 2) == 1;
    BeyondSixteenBits(m, block, sip, pool, extra, placed, a, p, q, MAX16 + 1);
    var k: nat :| k < |Gaps(a)| && Gaps(a)[k] == MAX16 + 1;
    GapAnswered(block, a, missing, rebuilt, k);
    if |block.txs| > MAX16 + 2 {
      BeyondSixteenBits(m, block, sip, pool, extra, placed, a, p, q, MAX16 + 2);
      var l: nat :| l < |Gaps(a)| && Gaps(a)[l] == MAX16 + 2;
      GapAnswered(block, a, missing, rebuilt, l);
      var hashes := Hashes(block.txs)[1..];
      assert hashes[0] == block.txs[1].hash && hashes[MAX16 + 1] == block.txs[MAX16 + 2].hash;
    }
  }

  lemma GapAnswered(block: Block, a: Slots, missing: seq<Transaction>, rebuilt: seq<Transaction>, k: nat)
    requires Answers(missing, block, Gaps(a)) && Completes(rebuilt, a, missing) && k < |Gaps(a)|
    ensures var s := Gaps(a)[k];
            |rebuilt| == |a| > s && Low16(s) < |block.txs| && rebuilt[s] == block.txs[Low16(s)]
  {
    hide Low16, Gaps;
  }

  /** A candidate for transaction i claims the slot i modulo 65536. */
  lemma WrappedTarget(m: Message, block: Block, sip: SipHash, placed: Slots, i: nat, t: Transaction)
    requires Announces(m, block, sip) && Placed(placed, m, 1) && Distinct(m.shortIds) && 0 < i < |block.txs|
    ensures |placed| == |block.txs| && |Gaps(placed)| == |m.shortIds|
    ensures var ids := IdMap(m.shortIds, Gaps(placed));
            && Low16(i) in ids.Values
            && Target(Candidate(block.txs[i].hash, t), ids, ShortId(sip, m.header, m.nonce)) == Some(Low16(i))
  {
    hide IdMap, Gaps, Placed, Distinct;
    AnnouncedSlots(m, block, sip, placed);
    IdMapAt(m.shortIds, Gaps(placed), i - 1);
    assert m.shortIds[i - 1] == ShortId(sip, m.header, m.nonce)(block.txs[i].hash);
  }

  /** So a receiver that holds transaction 65536 alone puts it in place of the coinbase. */
  lemma CoinbaseReplaced(m: Message, block: Block, sip: SipHash, placed: Slots, a: Slots, p: nat, q: nat,
                         missing: seq<Transaction>, rebuilt: seq<Transaction>)
    requires |block.txs| > MAX16 + 1 && Announces(m, block, sip)
    requires var held := block.txs[MAX16 + 1];
             Reconstructed(m, ShortId(sip, m.header, m.nonce), [Candidate(held.hash, held)], [], placed, a, p, q)
             && StopsWhenFull(m, ShortId(sip, m.header, m.nonce), [Candidate(held.hash, held)], [], placed, p, q)
    requires Completes(rebuilt, a, missing)
    ensures rebuilt != [] && rebuilt[0] == block.txs[MAX16 + 1]
  {
    hide IdMap, Gaps, ShortId, Announces, Placed, Distinct, Matches, Target, Pick;
    var shortId := ShortId(sip, m.header, m.nonce);
    var held := block.txs[MAX16 + 1];
    var c := Candidate(held.hash, held);
    AnnouncedShape(m, block, sip);
    AnnouncedSlots(m, block, sip, placed);
    var ids := IdMap(m.shortIds, Gaps(placed));
    WrappedTarget(m, block, sip, placed, MAX16 + 1, held);
    assert [c][..1] == [c] && [c][..0] == [];
    OneClaim(c, ids, shortId);
    if p == 0 {
      StoppedHasAll(m, [c], [], ids, shortId, 0, q, 0);
      assert false;
    }
    SameClaims(placed[0], [held], [], held);
    assert a[0] == Outcome(placed[0], Matches([c][..p], ids, shortId, 0), Matches([], ids, shortId, 0));
  }

  lemma OneClaim(c: Candidate, ids: map<nat, nat>, shortId: nat -> nat)
    requires Target(c, ids, shortId) == Some(0)
    ensures Matches([c], ids, shortId, 0) == [c.tx] && Matches([], ids, shortId, 0) == []
  {
    assert [c][..0] == [];
  }
}
