/** Block transaction requests and short ids on the wire (src/blockencodings.h). */
module BlockRequests {
  import opened Options
  import Powers

  const MAX16: nat := 0xFFFF

  ghost predicate Increasing(l: seq<nat>) {
    forall i: nat, j: nat :: i < j < |l| ==> l[i] < l[j]
  }

  ghost predicate Fits16(l: seq<nat>) {
    forall i: nat :: i < |l| ==> l[i] <= MAX16
  }

  /** The distance of an index from just after the one before it. */
  function Delta(l: seq<nat>, i: nat): int
    requires i < |l|
  {
    var after: int := if i == 0 then 0 else l[i - 1] + 1;
    l[i] - after
  }

  /** The wire form: the distances, as unsigned 64-bit numbers. */
  ghost function Wire(l: seq<nat>): (r: seq<nat>)
    ensures |r| == |l|
  {
    seq(|l|, i requires 0 <= i < |l| => Delta(l, i) % Powers.TWO_TO_64)
  }

  method EncodeIndexes(indexes: seq<nat>) returns (wire: seq<nat>)
    ensures wire == Wire(indexes)
  {
    wire := [];
    for i := 0 to |indexes|
      invariant |wire| == i && forall j: nat :: j < i ==> wire[j] == Wire(indexes)[j]
    {
      wire := wire + [Delta(indexes, i) % Powers.TWO_TO_64];
    }
  }

  /** Decoding with the 16-bit offset that the source keeps: it wraps after index 65535. */
  ghost function Decoded(wire: seq<nat>): (r: Option<seq<nat>>)
    ensures r.Some? ==> |r.value| == |wire| && Fits16(r.value)
  {
    if wire == [] then Some([])
    else
      var n := |wire| - 1;
      Extended(Decoded(wire[..n]), wire[n])
  }

  function Extended(done: Option<seq<nat>>, distance: nat): (r: Option<seq<nat>>)
    ensures r.Some? ==> done.Some? && |r.value| == |done.value| + 1 && r.value[..|done.value|] == done.value
  {
    match done
    case None => None
    case Some(l) =>
      var index := distance + NextOffset(l);
      if distance > MAX16 || index > MAX16 then None else Some(l + [index])
  }

  function NextOffset(l: seq<nat>): nat {
    if l == [] then 0 else (l[|l| - 1] + 1) % (MAX16 + 1)
  }

  lemma DecodedNext(wire: seq<nat>, j: nat)
    requires j < |wire|
    ensures Decoded(wire[..j + 1]) == Extended(Decoded(wire[..j]), wire[j])
  {
    assert wire[..j + 1][..j] == wire[..j];
  }

  lemma {:induction false} DecodedPrefix(wire: seq<nat>, n: nat)
    requires n <= |wire| && Decoded(wire).Some?
    ensures Decoded(wire[..n]) == Some(Decoded(wire).value[..n])
  {
    hide Decoded;
    assert wire[..|wire|] == wire;
    if n == |wire| {
      assert Decoded(wire).value[..n] == Decoded(wire).value;
    } else {
      var m := |wire| - 1;
      DecodedNext(wire, m);
      DecodedPrefix(wire[..m], n);
      assert wire[..m][..n] == wire[..n];
      assert Decoded(wire).value[..n] == Decoded(wire).value[..m][..n];
    }
  }

  /** The stream of compact sizes is read in chunks and refused when one exceeds 16 bits. */
  method ReadDistances(wire: seq<nat>) returns (ok: bool)
    ensures ok <==> Fits16(wire)
  {
    var n := 0;
    while n < |wire|
      invariant n <= |wire| && Fits16(wire[..n])
    {
      var limit := if 1000 + n < |wire| then 1000 + n else |wire|;
      while n < limit
        invariant n <= limit && Fits16(wire[..n])
      {
        if wire[n] > MAX16 {
          return false;
        }
        n := n + 1;
      }
    }
    assert wire[..n] == wire;
    return true;
  }

  method DecodeIndexes(wire: seq<nat>) returns (r: Option<seq<nat>>)
    ensures r == Decoded(wire)
  {
    var ok := ReadDistances(wire);
    if !ok {
      var i: nat :| i < |wire| && wire[i] > MAX16;
      Overflows(wire, i);
      return None;
    }
    var indexes: seq<nat>, offset: nat := wire, 0;
    for j := 0 to |indexes|
      invariant Summed(wire, indexes, offset, j)
    {
      hide Decoded;
      SumNext(wire, indexes, offset, j);
      if indexes[j] + offset > MAX16 {
        return None;
      }
      indexes := indexes[j := indexes[j] + offset];
      offset := (indexes[j] + 1) % (MAX16 + 1);
    }
    assert wire[..|wire|] == wire && indexes[..|wire|] == indexes;
    return Some(indexes);
  }

  /** The first j distances have been replaced by indexes. */
  ghost predicate Summed(wire: seq<nat>, indexes: seq<nat>, offset: nat, j: nat) {
    && |indexes| == |wire| && j <= |wire| && Fits16(wire)
    && (forall k: nat :: j <= k < |wire| ==> indexes[k] == wire[k])
    && Decoded(wire[..j]) == Some(indexes[..j]) && offset == NextOffset(indexes[..j])
  }

  lemma SumNext(wire: seq<nat>, indexes: seq<nat>, offset: nat, j: nat)
    requires Summed(wire, indexes, offset, j) && j < |wire|
    ensures indexes[j] + offset > MAX16 ==> Decoded(wire) == None
    ensures indexes[j] + offset <= MAX16 ==>
              Summed(wire, indexes[j := indexes[j] + offset], (indexes[j] + offset + 1) % (MAX16 + 1), j + 1)
  {
    hide Decoded;
    DecodedNext(wire, j);
    if indexes[j] + offset > MAX16 {
      if Decoded(wire).Some? {
        DecodedPrefix(wire, j + 1);
      }
    } else {
      var next := indexes[j := indexes[j] + offset];
      assert next[..j + 1] == indexes[..j] + [indexes[j] + offset];
    }
  }

  lemma {:induction false} Overflows(wire: seq<nat>, i: nat)
    requires i < |wire| && wire[i] > MAX16
    ensures Decoded(wire) == None
  {
    if i < |wire| - 1 {
      Overflows(wire[..|wire| - 1], i);
    }
  }

  /** A list of 16-bit indexes arrives unchanged if it is strictly increasing, and is refused otherwise. */
  lemma {:induction false} RequestRoundTrip(l: seq<nat>)
    requires Fits16(l)
    ensures Decoded(Wire(l)) == if Increasing(l) then Some(l) else None
  {
    if l != [] {
      var n := |l| - 1;
      var wire := Wire(l);
      assert Wire(l[..n]) == wire[..n];
      assert wire[n] == Delta(l, n) % Powers.TWO_TO_64;
      hide Decoded, Wire, Delta, Extended, Increasing;
      RequestRoundTrip(l[..n]);
      DecodedNext(wire, n);
      ExtendedBack(l);
      assert wire[..n + 1] == wire;
    }
  }

  lemma ExtendedBack(l: seq<nat>)
    requires l != [] && Fits16(l)
    ensures var n := |l| - 1;
            var front := if Increasing(l[..n]) then Some(l[..n]) else None;
            Extended(front, Delta(l, n) % Powers.TWO_TO_64) == if Increasing(l) then Some(l) else None
  {
    var n := |l| - 1;
    assert l == l[..n] + [l[n]];
    IncreasingNext(l[..n], l[n]);
    if n > 0 && l[n] <= l[n - 1] {
      assert Delta(l, n) % Powers.TWO_TO_64 == Powers.TWO_TO_64 + Delta(l, n);
    } else {
      assert Delta(l, n) % Powers.TWO_TO_64 == Delta(l, n);
    }
  }

  lemma IncreasingNext(l: seq<nat>, x: nat)
    ensures Increasing(l + [x]) <==> Increasing(l) && (l != [] ==> l[|l| - 1] < x)
  {
    var more := l + [x];
    if Increasing(more) {
      assert forall i: nat :: i < |l| ==> more[i] == l[i];
      assert l != [] ==> more[|l| - 1] < more[|l|];
    }
  }

  /** Where a list of distances leads: the position just after its last index, not wrapped. */
  ghost function Reach(wire: seq<nat>): nat {
    if wire == [] then 0 else Reach(wire[..|wire| - 1]) + wire[|wire| - 1] + 1
  }

  /**
    Distances decode to a strictly increasing list exactly when they lead no further than 16
    bits go.  Past that they are refused, or index 65535 is followed by a wrapped offset.
   */
  lemma {:induction false} IncreasingExactly(wire: seq<nat>)
    ensures Decoded(wire).Some? && Increasing(Decoded(wire).value) <==> Reach(wire) <= MAX16 + 1
    ensures Reach(wire) <= MAX16 + 1 ==> Reaches(Decoded(wire), Reach(wire))
  {
    if wire != [] {
      var n := |wire| - 1;
      assert wire[..n + 1] == wire;
      assert Reach(wire) == Reach(wire[..n]) + wire[n] + 1;
      hide Decoded, Reach, Increasing, Extended;
      DecodedNext(wire, n);
      IncreasingExactly(wire[..n]);
      ExtendedReach(Decoded(wire[..n]), Reach(wire[..n]), wire[n]);
    }
  }

  /** A decoded list that is strictly increasing and ends just before `reach`. */
  ghost predicate Reaches(done: Option<seq<nat>>, reach: nat) {
    && done.Some? && Increasing(done.value)
    && reach == if done.value == [] then 0 else done.value[|done.value| - 1] + 1
  }

  lemma ExtendedReach(done: Option<seq<nat>>, reach: nat, distance: nat)
    requires done.Some? ==> Fits16(done.value)
    requires if reach <= MAX16 + 1 then Reaches(done, reach) else !(done.Some? && Increasing(done.value))
    ensures var more := Extended(done, distance);
            var reach' := reach + distance + 1;
            if reach' <= MAX16 + 1 then Reaches(more, reach') else !(more.Some? && Increasing(more.value))
  {
    hide Increasing;
    if done.Some? {
      var l := done.value;
      IncreasingNext(l, distance + NextOffset(l));
      assert l != [] ==> l[|l| - 1] <= MAX16;
    }
  }

  // ---------------------------------------------------------------- short ids

  const SHORT_ID_SPACE: nat := 0x1_0000_0000_0000

  /** The low four bytes and the high two bytes of a short id. */
  function WriteShortId(id: nat): (r: (nat, nat))
    ensures r.0 < Powers.TWO_TO_32 && r.1 <= MAX16
  {
    (id % Powers.TWO_TO_32, id / Powers.TWO_TO_32 % (MAX16 + 1))
  }

  function ReadShortId(lsb: nat, msb: nat): nat {
    msb * Powers.TWO_TO_32 + lsb
  }

  /** The first part counts ones and the second 2^32s, both ways. */
  lemma ShortIdParts(id: nat, lsb: nat, msb: nat)
    ensures WriteShortId(id).0 == id % Powers.TWO_TO_32
    ensures id < SHORT_ID_SPACE ==> id == WriteShortId(id).0 + WriteShortId(id).1 * Powers.TWO_TO_32
    ensures ReadShortId(0, 0) == 0 && ReadShortId(lsb + 1, msb) == ReadShortId(lsb, msb) + 1
    ensures ReadShortId(lsb, msb + 1) == ReadShortId(lsb, msb) + Powers.TWO_TO_32
  {
    if id < SHORT_ID_SPACE {
      assert id / Powers.TWO_TO_32 <= MAX16;
    }
  }

  /** Six bytes hold a short id exactly when it is below 2^48. */
  lemma ShortIdRoundTrip(id: nat)
    ensures ReadShortId(WriteShortId(id).0, WriteShortId(id).1) == id <==> id < SHORT_ID_SPACE
  {
    if id < SHORT_ID_SPACE {
      assert id / Powers.TWO_TO_32 <= MAX16;
    }
  }

  method SendShortIds(ids: seq<nat>) returns (wire: seq<(nat, nat)>)
    ensures |wire| == |ids| && forall i: nat :: i < |ids| ==> wire[i] == WriteShortId(ids[i])
  {
    wire := [];
    for i := 0 to |ids|
      invariant |wire| == i && forall j: nat :: j < i ==> wire[j] == WriteShortId(ids[j])
    {
      wire := wire + [WriteShortId(ids[i])];
    }
  }

  /** Short ids are read in chunks, like distances. */
  method ReceiveShortIds(wire: seq<(nat, nat)>, ghost sent: seq<nat>) returns (ids: seq<nat>)
    requires |wire| == |sent| && forall i: nat :: i < |sent| ==> wire[i] == WriteShortId(sent[i])
    ensures |ids| == |sent|
    ensures forall i: nat :: i < |sent| ==> (ids[i] == sent[i] <==> sent[i] < SHORT_ID_SPACE)
  {
    hide ReadShortId, WriteShortId;
    ids := [];
    while |ids| < |wire|
      invariant |ids| <= |wire|
      invariant forall i: nat :: i < |ids| ==> (ids[i] == sent[i] <==> sent[i] < SHORT_ID_SPACE)
    {
      var limit := if 1000 + |ids| < |wire| then 1000 + |ids| else |wire|;
      while |ids| < limit
        invariant |ids| <= limit
        invariant forall i: nat :: i < |ids| ==> (ids[i] == sent[i] <==> sent[i] < SHORT_ID_SPACE)
      {
        var i := |ids|;
        ShortIdRoundTrip(sent[i]);
        ids := ids + [ReadShortId(wire[i].0, wire[i].1)];
      }
    }
  }
}

/** Slots of a partly downloaded block: which are empty, and how candidates settle on them. */
module BlockSlots {
  import opened Options
  import opened BlockRequests

  /** A transaction with the hash it caches. */
  datatype Transaction = Transaction(hash: nat, isNull: bool, payload: seq<bv8>)

  /** An element of the memory pool's hash list, or of the list of extra transactions. */
  datatype Candidate = Candidate(hash: nat, tx: Transaction)

  type Slots = seq<Option<Transaction>>

  // ---------------------------------------------------------------- empty slots

  /** The positions of the empty slots, in order. */
  function Gaps(a: Slots): (r: seq<nat>)
    ensures |r| <= |a| && forall k: nat :: k < |r| ==> r[k] < |a| && a[r[k]].None?
  {
    if a == [] then []
    else
      var n := |a| - 1;
      Gaps(a[..n]) + if a[n].None? then [n] else []
  }

  lemma GapsNext(a: Slots, n: nat)
    requires n < |a|
    ensures Gaps(a[..n + 1]) == Gaps(a[..n]) + if a[n].None? then [n] else []
  {
    assert a[..n + 1][..n] == a[..n];
  }

  lemma {:induction false} GapsPrefix(a: Slots, n: nat)
    requires n <= |a|
    ensures Gaps(a[..n]) <= Gaps(a)
  {
    hide Gaps;
    assert a[..|a|] == a;
    if n < |a| {
      var m := |a| - 1;
      GapsPrefix(a[..m], n);
      assert a[..m][..n] == a[..n];
      GapsNext(a, m);
    }
  }

  /** An empty slot before which there are k empty slots is the k-th. */
  lemma GapAt(a: Slots, n: nat)
    requires n < |a| && a[n].None?
    ensures |Gaps(a[..n])| < |Gaps(a)| && Gaps(a)[|Gaps(a[..n])|] == n
  {
    hide Gaps;
    GapsNext(a, n);
    GapsPrefix(a, n + 1);
  }

  lemma {:induction false} GapsIncrease(a: Slots)
    ensures Increasing(Gaps(a))
  {
    if a != [] {
      GapsIncrease(a[..|a| - 1]);
    }
  }

  /** Filling an empty slot removes one gap. */
  lemma {:induction false} FillGap(a: Slots, p: nat, t: Transaction)
    requires p < |a| && a[p].None?
    ensures |Gaps(a[p := Some(t)])| == |Gaps(a)| - 1
  {
    var n := |a| - 1;
    if p == n {
      assert a[p := Some(t)][..n] == a[..n];
    } else {
      FillGap(a[..n], p, t);
      assert a[p := Some(t)][..n] == a[..n][p := Some(t)];
    }
  }

  lemma {:induction false} AllGaps(a: Slots)
    requires forall i: nat :: i < |a| ==> a[i].None?
    ensures Gaps(a) == seq(|a|, i => i)
  {
    if a != [] {
      AllGaps(a[..|a| - 1]);
    }
  }

  /** The slots with the gaps taken, in order, from `missing`. */
  ghost predicate Completes(block: seq<Transaction>, a: Slots, missing: seq<Transaction>) {
    && |block| == |a| && |Gaps(a)| == |missing|
    && (forall i: nat :: i < |a| && a[i].Some? ==> block[i] == a[i].value)
    && (forall k: nat :: k < |missing| ==> block[Gaps(a)[k]] == missing[k])
  }

  // ---------------------------------------------------------------- candidates

  /** Which slot a candidate is for, if any. */
  function Target(c: Candidate, ids: map<nat, nat>, shortId: nat -> nat): Option<nat> {
    var id := shortId(c.hash);
    if id in ids then Some(ids[id]) else None
  }

  /** The candidates for slot p, in order. */
  ghost function Matches(cs: seq<Candidate>, ids: map<nat, nat>, shortId: nat -> nat, p: nat): (r: seq<Transaction>)
  {
    if cs == [] then []
    else
      var n := |cs| - 1;
      Matches(cs[..n], ids, shortId, p) + if Target(cs[n], ids, shortId) == Some(p) then [cs[n].tx] else []
  }

  lemma MatchesNext(cs: seq<Candidate>, n: nat, ids: map<nat, nat>, shortId: nat -> nat, p: nat)
    requires n < |cs|
    ensures Matches(cs[..n + 1], ids, shortId, p) ==
            var m := Matches(cs[..n], ids, shortId, p);
            if Target(cs[n], ids, shortId) == Some(p) then m + [cs[n].tx] else m
  {
    assert cs[..n + 1][..n] == cs[..n];
  }

  /**
    What a slot ends up with: nothing when two pool transactions claim it, or when the
    claims differ in hash; otherwise the first claim.
   */
  ghost function Pick(fromPool: seq<Transaction>, fromExtra: seq<Transaction>): Option<Transaction> {
    var all := fromPool + fromExtra;
    if |fromPool| > 1 || all == [] then None
    else if forall t <- all :: t.hash == all[0].hash then Some(all[0])
    else None
  }

  /** Every slot holds what its candidates so far settle on, or what it held before the scan. */
  ghost predicate Settled(before: Slots, a: Slots, have: seq<bool>, ids: map<nat, nat>, shortId: nat -> nat,
                          pool: seq<Candidate>, extra: seq<Candidate>)
  {
    && |a| == |have| == |before|
    && forall p: nat :: p < |a| ==>
         SettledSlot(before[p], a[p], have[p], Matches(pool, ids, shortId, p), Matches(extra, ids, shortId, p))
  }

  ghost predicate SettledSlot(was: Option<Transaction>, now: Option<Transaction>, have: bool,
                              fromPool: seq<Transaction>, fromExtra: seq<Transaction>)
  {
    && (have <==> fromPool + fromExtra != [])
    && now == if have then Pick(fromPool, fromExtra) else was
  }

  /** The slots that a scan has filled. */
  ghost function Filled(a: Slots, have: seq<bool>): (r: set<nat>)
    requires |a| == |have|
  {
    set p: nat | p < |a| && have[p] && a[p].Some?
  }

  /** One step of a scan: the slot's new content and whether it counts as filled now. */
  function AfterPool(now: Option<Transaction>, have: bool, t: Transaction): Option<Transaction> {
    if !have then Some(t) else None
  }

  function AfterExtra(now: Option<Transaction>, have: bool, t: Transaction): Option<Transaction> {
    if !have then Some(t)
    else if now.Some? && now.value.hash != t.hash then None
    else now
  }

  lemma PoolClaim(was: Option<Transaction>, now: Option<Transaction>, have: bool, fromPool: seq<Transaction>, t: Transaction)
    requires SettledSlot(was, now, have, fromPool, [])
    ensures SettledSlot(was, AfterPool(now, have, t), true, fromPool + [t], [])
  {
  }

  lemma ExtraClaim(was: Option<Transaction>, now: Option<Transaction>, have: bool,
                   fromPool: seq<Transaction>, fromExtra: seq<Transaction>, t: Transaction)
    requires SettledSlot(was, now, have, fromPool, fromExtra)
    ensures SettledSlot(was, AfterExtra(now, have, t), true, fromPool, fromExtra + [t])
  {
    var all := fromPool + fromExtra;
    assert fromPool + (fromExtra + [t]) == all + [t];
    if have {
      assert (all + [t])[0] == all[0];
      assert forall u <- all :: u in all + [t];
      assert t in all + [t];
    }
  }

  lemma PoolStep(before: Slots, a: Slots, have: seq<bool>, ids: map<nat, nat>, shortId: nat -> nat,
                 pool: seq<Candidate>, n: nat)
    requires n < |pool| && Settled(before, a, have, ids, shortId, pool[..n], [])
    requires forall id <- ids :: ids[id] < |a|
    ensures match Target(pool[n], ids, shortId)
            case None => Settled(before, a, have, ids, shortId, pool[..n + 1], [])
            case Some(p) => Settled(before, a[p := AfterPool(a[p], have[p], pool[n].tx)], have[p := true],
                                    ids, shortId, pool[..n + 1], [])
  {
    hide Matches, SettledSlot, Pick;
    forall q: nat | q < |a|
      ensures Matches(pool[..n + 1], ids, shortId, q) ==
              if Target(pool[n], ids, shortId) == Some(q) then Matches(pool[..n], ids, shortId, q) + [pool[n].tx]
              else Matches(pool[..n], ids, shortId, q)
    {
      MatchesNext(pool, n, ids, shortId, q);
    }
    match Target(pool[n], ids, shortId)
    case None =>
    case Some(p) =>
      assert Matches([], ids, shortId, p) == [] by { MatchesNone(ids, shortId, p); }
      PoolClaim(before[p], a[p], have[p], Matches(pool[..n], ids, shortId, p), pool[n].tx);
  }

  lemma MatchesNone(ids: map<nat, nat>, shortId: nat -> nat, p: nat)
    ensures Matches([], ids, shortId, p) == []
  {
  }

  lemma ExtraStep(before: Slots, a: Slots, have: seq<bool>, ids: map<nat, nat>, shortId: nat -> nat,
                  pool: seq<Candidate>, extra: seq<Candidate>, n: nat)
    requires n < |extra| && Settled(before, a, have, ids, shortId, pool, extra[..n])
    requires forall id <- ids :: ids[id] < |a|
    ensures match Target(extra[n], ids, shortId)
            case None => Settled(before, a, have, ids, shortId, pool, extra[..n + 1])
            case Some(p) => Settled(before, a[p := AfterExtra(a[p], have[p], extra[n].tx)], have[p := true],
                                    ids, shortId, pool, extra[..n + 1])
  {
    hide Matches, SettledSlot, Pick;
    forall q: nat | q < |a|
      ensures Matches(extra[..n + 1], ids, shortId, q) ==
              if Target(extra[n], ids, shortId) == Some(q) then Matches(extra[..n], ids, shortId, q) + [extra[n].tx]
              else Matches(extra[..n], ids, shortId, q)
    {
      MatchesNext(extra, n, ids, shortId, q);
    }
    match Target(extra[n], ids, shortId)
    case None =>
    case Some(p) =>
      ExtraClaim(before[p], a[p], have[p], Matches(pool, ids, shortId, p), Matches(extra[..n], ids, shortId, p), extra[n].tx);
  }

  /** How a step changes the set of filled slots. */
  lemma FilledStep(a: Slots, have: seq<bool>, p: nat, now: Option<Transaction>)
    requires |a| == |have| && p < |a|
    ensures var was := have[p] && a[p].Some?;
            var filled := Filled(a[p := now], have[p := true]);
            && filled <= Filled(a, have) + {p} && (was ==> |Filled(a, have)| > 0)
            && |filled| == |Filled(a, have)| + (if now.Some? then 1 else 0) - (if was then 1 else 0)
  {
    var filled := Filled(a[p := now], have[p := true]);
    assert filled == if now.Some? then Filled(a, have) + {p} else Filled(a, have) - {p};
    assert p in Filled(a, have) <==> have[p] && a[p].Some?;
  }

  /** As many filled slots as short ids means that every slot with a short id is filled. */
  lemma FullMeansAll(filled: set<nat>, ids: map<nat, nat>)
    requires filled <= ids.Values && |filled| == |ids|
    ensures filled == ids.Values
  {
    ValuesBounded(ids);
    SubsetSize(filled, ids.Values);
  }

  lemma SubsetSize(a: set<nat>, b: set<nat>)
    requires a <= b && |b| <= |a|
    ensures a == b
  {
    assert |b - a| == |b| - |a| by {
      assert b == a + (b - a);
    }
    assert b - a == {};
  }

  lemma {:induction false} ValuesBounded(m: map<nat, nat>)
    ensures |m.Values| <= |m|
    decreases |m|
  {
    if k: nat :| k in m {
      var rest := m - {k};
      assert m.Values == rest.Values + {m[k]} by {
        forall v: nat | v in m.Values ensures v in rest.Values + {m[k]} {
          var j: nat :| j in m && m[j] == v;
          assert j != k ==> j in rest && rest[j] == v;
        }
      }
      assert m.Keys == rest.Keys + {k};
      assert |rest| == |rest.Keys| && |m| == |m.Keys|;
      ValuesBounded(rest);
    } else {
      assert m == map[];
    }
  }
}
