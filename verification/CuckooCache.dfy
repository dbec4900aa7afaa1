/**
  The garbage-collection flags of src/cuckoocache.h: one bit per entry, packed in bytes.
 */
module PackedFlags {

  function BitMask(i: nat): (m: bv8)
    requires i < 8
  {
    (1 as bv8) << i
  }

  predicate IsSet(byte: bv8, i: nat)
    requires i < 8
  {
    BitMask(i) & byte != 0
  }

  lemma AllOnes(i: nat)
    requires i < 8
    ensures IsSet(0xFF, i)
  {
    assert i == 0 || i == 1 || i == 2 || i == 3 || i == 4 || i == 5 || i == 6 || i == 7;
  }

  lemma OrSets(byte: bv8, i: nat, j: nat)
    requires i < 8 && j < 8
    ensures IsSet(byte | BitMask(i), j) <==> i == j || IsSet(byte, j)
  {
    Masks(i);
    Masks(j);
  }

  lemma AndUnsets(byte: bv8, i: nat, j: nat)
    requires i < 8 && j < 8
    ensures IsSet(byte & !BitMask(i), j) <==> i != j && IsSet(byte, j)
  {
    Masks(i);
    Masks(j);
  }

  lemma Masks(i: nat)
    requires i < 8
    ensures BitMask(i) == if i == 0 then 1 else if i == 1 then 2 else if i == 2 then 4 else if i == 3 then 8
                          else if i == 4 then 16 else if i == 5 then 32 else if i == 6 then 64 else 128
  {
    assert i == 0 || i == 1 || i == 2 || i == 3 || i == 4 || i == 5 || i == 6 || i == 7;
  }

  class Flags {
    const mem: array<bv8>
    /** What the bytes stand for, padding included. */
    ghost var bits: seq<bool>

    ghost predicate Valid()
      reads this, mem
    {
      && |bits| == 8 * mem.Length
      && forall s: nat :: s < |bits| ==> bits[s] == IsSet(mem[s / 8], s % 8)
    }

    constructor (size: nat)
      ensures Valid() && fresh(mem) && size <= |bits|
      ensures forall s: nat :: s < |bits| ==> bits[s]
    {
      mem := new bv8[(size + 7) / 8];
      bits := seq(8 * ((size + 7) / 8), _ => true);
      new;
      for i := 0 to mem.Length
        invariant forall j :: 0 <= j < i ==> mem[j] == 0xFF
        invariant bits == seq(8 * mem.Length, _ => true)
      {
        mem[i] := 0xFF;
      }
      hide IsSet;
      forall s: nat | s < |bits|
        ensures bits[s] == IsSet(mem[s / 8], s % 8)
      {
        AllOnes(s % 8);
      }
    }

    method BitSet(s: nat)
      requires Valid() && s < |bits|
      modifies this, mem
      ensures Valid() && bits == old(bits)[s := true]
    {
      hide IsSet, BitMask;
      ghost var byte := mem[s / 8];
      mem[s / 8] := mem[s / 8] | BitMask(s % 8);
      bits := bits[s := true];
      forall t: nat | t < |bits|
        ensures bits[t] == IsSet(mem[t / 8], t % 8)
      {
        if t / 8 == s / 8 {
          OrSets(byte, s % 8, t % 8);
        }
      }
    }

    method BitUnset(s: nat)
      requires Valid() && s < |bits|
      modifies this, mem
      ensures Valid() && bits == old(bits)[s := false]
    {
      hide IsSet, BitMask;
      ghost var byte := mem[s / 8];
      mem[s / 8] := mem[s / 8] & !BitMask(s % 8);
      bits := bits[s := false];
      forall t: nat | t < |bits|
        ensures bits[t] == IsSet(mem[t / 8], t % 8)
      {
        if t / 8 == s / 8 {
          AndUnsets(byte, s % 8, t % 8);
        }
      }
    }

    method BitIsSet(s: nat) returns (r: bool)
      requires Valid() && s < |bits|
      ensures r == bits[s]
    {
      hide BitMask;
      r := BitMask(s % 8) & mem[s / 8] != 0;
    }
  }
}

/**
  The slots of the cuckoo cache as values: which elements are live, how a chain of
  evictions moves them, and how many the epochs let accumulate.
 */
module CuckooSlots {
  import Powers

  type Hash<!E> = (nat, E) -> nat

  /** One place of the table with its epoch flag and its collection flag. */
  datatype Slot<E> = Slot(elem: E, recent: bool, garbage: bool)

  datatype Entry<E> = Entry(elem: E, recent: bool)

  const WAYS: nat := 8

  /** The places where an element may be stored. */
  function Locs<E>(hash: Hash<E>, size: nat, e: E): (r: seq<nat>)
    requires size > 0
    ensures |r| == 8 && forall k: nat :: k < 8 ==> r[k] < size
  {
    seq(WAYS, k requires 0 <= k < WAYS => Loc(hash, size, e, k))
  }

  function Loc<E>(hash: Hash<E>, size: nat, e: E, k: nat): (r: nat)
    requires size > 0
    ensures r < size
  {
    Powers.AndBound(hash(k, e), size - 1);
    Powers.And(hash(k, e), size - 1)
  }

  /** In a table of 2^depth slots the places are the hashes modulo the size. */
  lemma PlacesAreResidues<E>(hash: Hash<E>, depth: nat, e: E, k: nat)
    requires k < WAYS
    ensures Locs(hash, Powers.Pow2(depth), e)[k] == hash(k, e) % Powers.Pow2(depth)
  {
    Powers.AndLow(hash(k, e), depth);
  }

  // ---------------------------------------------------------------- live elements

  function Only<E>(e: E, yes: bool): multiset<E> {
    if yes then multiset{e} else multiset{}
  }

  function Held<E>(s: Slot<E>, recent: bool): multiset<E> {
    Only(s.elem, !s.garbage && s.recent == recent)
  }

  /** The elements in non-collectable slots of the current epoch (recent) or the one before. */
  function Live<E>(slots: seq<Slot<E>>, recent: bool): (r: multiset<E>)
  {
    if slots == [] then multiset{} else Live(slots[..|slots| - 1], recent) + Held(slots[|slots| - 1], recent)
  }

  function AllLive<E>(slots: seq<Slot<E>>): multiset<E> {
    Live(slots, true) + Live(slots, false)
  }

  lemma Interchange<E>(a: multiset<E>, b: multiset<E>, c: multiset<E>, d: multiset<E>, e: multiset<E>)
    requires a + b == c + d
    ensures (a + e) + b == (c + e) + d
  {
    assert (a + e) + b == (a + b) + e;
    assert (c + e) + d == (c + d) + e;
  }

  lemma LiveNext<E>(slots: seq<Slot<E>>, i: nat)
    requires i < |slots|
    ensures |Live(slots[..i + 1], true)| ==
            |Live(slots[..i], true)| + if slots[i].recent && !slots[i].garbage then 1 else 0
  {
    assert slots[..i + 1][..i] == slots[..i];
  }

  lemma {:induction false} LiveReplace<E>(slots: seq<Slot<E>>, i: nat, s: Slot<E>, recent: bool)
    requires i < |slots|
    ensures Live(slots[i := s], recent) + Held(slots[i], recent) == Live(slots, recent) + Held(s, recent)
  {
    hide Held;
    var n := |slots| - 1;
    if i == n {
      assert slots[i := s][..n] == slots[..n];
    } else {
      LiveReplace(slots[..n], i, s, recent);
      assert slots[i := s][..n] == slots[..n][i := s];
      Interchange(Live(slots[..n][i := s], recent), Held(slots[i], recent),
                  Live(slots[..n], recent), Held(s, recent), Held(slots[n], recent));
    }
  }

  lemma {:induction false} LiveMember<E>(slots: seq<Slot<E>>, recent: bool, x: E)
    ensures x in Live(slots, recent)
            <==> exists i: nat :: i < |slots| && slots[i] == Slot(x, recent, false)
  {
    if slots != [] {
      var n := |slots| - 1;
      LiveMember(slots[..n], recent, x);
      if x in Live(slots[..n], recent) {
        var i: nat :| i < n && slots[..n][i] == Slot(x, recent, false);
        assert slots[i] == Slot(x, recent, false);
      }
      if i: nat :| i < |slots| && slots[i] == Slot(x, recent, false) {
        if i < n {
          assert slots[..n][i] == Slot(x, recent, false);
        }
      }
    }
  }

  /** An element is live exactly if some slot that is not collectable stores it. */
  lemma LiveIsKept<E>(slots: seq<Slot<E>>, x: E)
    ensures x in AllLive(slots) <==> exists i: nat :: i < |slots| && slots[i].elem == x && !slots[i].garbage
  {
    LiveMember(slots, true, x);
    LiveMember(slots, false, x);
    if i: nat :| i < |slots| && slots[i].elem == x && !slots[i].garbage {
      assert slots[i] == Slot(x, slots[i].recent, false);
    }
  }

  // ---------------------------------------------------------------- epochs

  /** 45% of the size, with the 32-bit product that the source computes. */
  function EpochSize(size: nat): (r: nat)
    ensures r >= 1 && (r == 1 || 100 * r <= 45 * size)
    ensures 45 * size < 0x1_0000_0000 ==> 100 * (r + 1) > 45 * size
  {
    var share := 45 * size % 0x1_0000_0000 / 100;
    if share < 1 then 1 else share
  }

  function ScanSlack(epochSize: nat): nat {
    if epochSize / 16 < 1 then 1 else epochSize / 16
  }

  /** How many elements one epoch may reach. */
  function EpochBound(epochSize: nat): nat {
    epochSize + ScanSlack(epochSize)
  }

  /** Two full epochs always fit in a table of at least four slots. */
  lemma TwoEpochsFit(size: nat)
    requires size >= 4 && size % 4 == 0
    ensures 2 * EpochBound(EpochSize(size)) <= size
  {
  }

  /** The current epoch can still take `counter` insertions before the next scan. */
  ghost predicate WithinLoad<E>(slots: seq<Slot<E>>, counter: nat, epochSize: nat) {
    && |Live(slots, true)| + counter <= EpochBound(epochSize)
    && |Live(slots, false)| <= EpochBound(epochSize)
  }

  function AgedSlot<E>(s: Slot<E>): Slot<E> {
    if s.recent then s.(recent := false) else s.(garbage := true)
  }

  /** The old epoch becomes collectable and the current epoch becomes the old one. */
  function Aged<E>(slots: seq<Slot<E>>): (r: seq<Slot<E>>)
    ensures |r| == |slots| && forall i: nat :: i < |slots| ==> r[i] == AgedSlot(slots[i])
  {
    seq(|slots|, i requires 0 <= i < |slots| => AgedSlot(slots[i]))
  }

  lemma {:induction false} AgedLive<E>(slots: seq<Slot<E>>)
    ensures Live(Aged(slots), true) == multiset{}
    ensures Live(Aged(slots), false) == Live(slots, true)
  {
    if slots != [] {
      var n := |slots| - 1;
      AgedLive(slots[..n]);
      assert Aged(slots)[..n] == Aged(slots[..n]);
    }
  }

  /** The state after the check that precedes every insertion. */
  ghost function Checked<E>(slots: seq<Slot<E>>, counter: nat, epochSize: nat): (r: (seq<Slot<E>>, nat))
    ensures |r.0| == |slots|
  {
    var unused := |Live(slots, true)|;
    if counter != 0 then (slots, counter - 1)
    else if unused >= epochSize then (Aged(slots), epochSize)
    else (slots, Max(1, Max(epochSize / 16, epochSize - unused)))
  }

  function Max(a: int, b: int): (r: int)
    ensures a <= r && b <= r && r in {a, b}
  {
    if a < b then b else a
  }

  /** After the check there is room in the load bound for one more recent element. */
  lemma CheckedLoad<E>(slots: seq<Slot<E>>, counter: nat, epochSize: nat)
    requires epochSize >= 1 && WithinLoad(slots, counter, epochSize)
    ensures var (s, c) := Checked(slots, counter, epochSize);
            |Live(s, true)| + c + 1 <= EpochBound(epochSize) && |Live(s, false)| <= EpochBound(epochSize)
  {
    AgedLive(slots);
  }

  // ---------------------------------------------------------------- placement

  /** Every slot holds an element that hashes to it, or is untouched since construction. */
  ghost predicate WellPlaced<E>(slots: seq<Slot<E>>, blank: E, hash: Hash<E>) {
    forall i: nat :: i < |slots| ==>
      (slots[i].garbage && slots[i].elem == blank) || i in Locs(hash, |slots|, slots[i].elem)
  }

  /** No element other than the blank one is stored twice. */
  ghost predicate StoredOnce<E>(slots: seq<Slot<E>>, blank: E) {
    forall i: nat, j: nat :: i < j < |slots| && slots[i].elem == slots[j].elem ==> slots[i].elem == blank
  }

  ghost predicate Stores<E>(slots: seq<Slot<E>>, e: E) {
    exists i: nat :: i < |slots| && slots[i].elem == e
  }

  ghost predicate Orderly<E>(slots: seq<Slot<E>>, blank: E, hash: Hash<E>) {
    WellPlaced(slots, blank, hash) && StoredOnce(slots, blank)
  }

  /** One element came in as recent and at most one entry left. */
  ghost predicate Exchange<E(!new)>(before: seq<Slot<E>>, after: seq<Slot<E>>, came: E, gone: seq<Entry<E>>) {
    && |gone| <= 1
    && forall r: bool :: Live(after, r) + Left(gone, r) == Live(before, r) + Only(came, r)
  }

  function Left<E>(gone: seq<Entry<E>>, recent: bool): multiset<E> {
    if gone == [] then multiset{} else Only(gone[0].elem, gone[0].recent == recent)
  }

  /** Insertion while `carried` is in hand: nothing has been lost so far. */
  ghost predicate InFlight<E>(before: seq<Slot<E>>, now: seq<Slot<E>>, came: E, carried: Entry<E>, blank: E, hash: Hash<E>) {
    && |now| == |before|
    && Live(now, true) + Only(carried.elem, carried.recent) == Live(before, true) + multiset{came}
    && Live(now, false) + Only(carried.elem, !carried.recent) == Live(before, false)
    && Orderly(now, blank, hash)
    && (carried.elem != blank ==> !Stores(now, carried.elem))
  }

  lemma NotAtItsPlaces<E>(slots: seq<Slot<E>>, e: E, blank: E, hash: Hash<E>)
    requires Orderly(slots, blank, hash) && e != blank && |slots| > 0
    requires forall k: nat :: k < WAYS ==> slots[Locs(hash, |slots|, e)[k]].elem != e
    ensures !Stores(slots, e)
  {
    hide StoredOnce, Locs;
  }

  /** Writing an entry over slot i. */
  function Put<E>(slots: seq<Slot<E>>, i: nat, x: Entry<E>): (r: seq<Slot<E>>)
    requires i < |slots|
  {
    slots[i := Slot(x.elem, x.recent, false)]
  }

  lemma PutOrderly<E>(slots: seq<Slot<E>>, i: nat, x: Entry<E>, blank: E, hash: Hash<E>)
    requires i < |slots| && Orderly(slots, blank, hash)
    requires i in Locs(hash, |slots|, x.elem)
    requires x.elem != blank ==> !Stores(slots, x.elem) || slots[i].elem == x.elem
    ensures Orderly(Put(slots, i, x), blank, hash)
  {
    hide Locs;
    var after := Put(slots, i, x);
    forall p: nat, q: nat | p < q < |after| && after[p].elem == after[q].elem
      ensures after[p].elem == blank
    {
      if x.elem != blank && slots[i].elem != x.elem {
        assert !Stores(slots, x.elem);
      }
    }
  }

  /** Swapping the carried entry with a live slot keeps everything in flight. */
  lemma SwapKeeps<E>(before: seq<Slot<E>>, now: seq<Slot<E>>, came: E, carried: Entry<E>, i: nat, blank: E, hash: Hash<E>)
    requires InFlight(before, now, came, carried, blank, hash)
    requires i < |now| && !now[i].garbage && i in Locs(hash, |now|, carried.elem)
    ensures InFlight(before, Put(now, i, carried), came, Entry(now[i].elem, now[i].recent), blank, hash)
  {
    var after := Put(now, i, carried);
    LiveReplace(now, i, Slot(carried.elem, carried.recent, false), true);
    LiveReplace(now, i, Slot(carried.elem, carried.recent, false), false);
    PutOrderly(now, i, carried, blank, hash);
    SwapDisplaces(now, carried, i, blank, hash);
    hide Orderly, Stores, Live, Locs;
  }

  lemma SwapDisplaces<E>(now: seq<Slot<E>>, carried: Entry<E>, i: nat, blank: E, hash: Hash<E>)
    requires Orderly(now, blank, hash) && i < |now|
    requires carried.elem != blank ==> !Stores(now, carried.elem)
    ensures now[i].elem != blank ==> !Stores(Put(now, i, carried), now[i].elem)
  {
    hide Locs, WellPlaced;
    var after := Put(now, i, carried);
    if j: nat :| now[i].elem != blank && j < |after| && after[j].elem == now[i].elem {
      assert false;
    }
  }

  /** Putting the carried entry into a collectable slot loses nothing. */
  lemma SettleKeeps<E(!new)>(before: seq<Slot<E>>, now: seq<Slot<E>>, came: E, carried: Entry<E>, i: nat, blank: E, hash: Hash<E>)
    requires InFlight(before, now, came, carried, blank, hash)
    requires i < |now| && now[i].garbage && i in Locs(hash, |now|, carried.elem)
    ensures Exchange(before, Put(now, i, carried), came, [])
    ensures Orderly(Put(now, i, carried), blank, hash)
  {
    LiveReplace(now, i, Slot(carried.elem, carried.recent, false), true);
    LiveReplace(now, i, Slot(carried.elem, carried.recent, false), false);
    PutOrderly(now, i, carried, blank, hash);
    hide Orderly, Stores, Live, Locs;
  }

  /** Running out of depth loses exactly the carried entry. */
  lemma DropLosesOne<E(!new)>(before: seq<Slot<E>>, now: seq<Slot<E>>, came: E, carried: Entry<E>, blank: E, hash: Hash<E>)
    requires InFlight(before, now, came, carried, blank, hash)
    ensures Exchange(before, now, came, [carried])
  {
    hide Live;
  }

  /** Inserting an element that is still in the table only refreshes its slot. */
  lemma ReviveKeeps<E(!new)>(before: seq<Slot<E>>, e: E, i: nat, blank: E, hash: Hash<E>)
    requires Orderly(before, blank, hash)
    requires i < |before| && before[i].elem == e && i in Locs(hash, |before|, e)
    ensures Exchange(before, Put(before, i, Entry(e, true)), e,
                     if before[i].garbage then [] else [Entry(e, before[i].recent)])
    ensures Orderly(Put(before, i, Entry(e, true)), blank, hash)
  {
    LiveReplace(before, i, Slot(e, true, false), true);
    LiveReplace(before, i, Slot(e, true, false), false);
    PutOrderly(before, i, Entry(e, true), blank, hash);
    hide Orderly, Live, Locs;
  }

  lemma ExchangeLoad<E(!new)>(before: seq<Slot<E>>, after: seq<Slot<E>>, came: E, gone: seq<Entry<E>>)
    requires Exchange(before, after, came, gone)
    ensures |Live(after, true)| <= |Live(before, true)| + 1
    ensures |Live(after, false)| <= |Live(before, false)|
  {
    hide Live;
    assert |Live(after, true) + Left(gone, true)| == |Live(before, true) + Only(came, true)|;
    assert |Live(after, false) + Left(gone, false)| == |Live(before, false) + Only(came, false)|;
  }

  /** Whatever was live, and the newcomer, is live afterwards unless it is the one entry that left. */
  lemma OnlyGoneIsLost<E(!new)>(before: seq<Slot<E>>, after: seq<Slot<E>>, came: E, gone: seq<Entry<E>>, x: E)
    requires Exchange(before, after, came, gone)
    requires x in AllLive(before) || x == came
    requires x !in AllLive(after)
    ensures |gone| == 1 && gone[0].elem == x
  {
    hide Live;
    if x in Live(before, false) {
      assert x in Live(after, false) + Left(gone, false);
    } else {
      assert x in Live(after, true) + Left(gone, true);
    }
  }
}

/** The cuckoo cache of src/cuckoocache.h. */
module CuckooCache {
  import opened PackedFlags
  import opened CuckooSlots
  import Powers

  const INVALID_LOC: nat := 0xFFFF_FFFF

  /** The position of the first occurrence of x, or the length if there is none. */
  function Find(locs: seq<nat>, x: nat): (k: nat)
    ensures k <= |locs| && (k < |locs| ==> locs[k] == x)
    ensures forall j: nat :: j < k ==> locs[j] != x
  {
    if locs == [] then 0 else if locs[0] == x then 0 else 1 + Find(locs[1..], x)
  }

  /** The position, among an element's places, of the one to evict from next. */
  function NextPlace(locs: seq<nat>, last: nat): (k: nat)
    requires |locs| == WAYS
    ensures k < WAYS
  {
    (1 + Find(locs, last)) % WAYS
  }

  /** The place after the first occurrence of the last one, the eighth being followed by the first. */
  lemma NextPlaceFollows(locs: seq<nat>, last: nat)
    requires |locs| == WAYS
    ensures var k := NextPlace(locs, last);
            if last !in locs then k == 1
            else var j := (k + WAYS - 1) % WAYS; locs[j] == last && last !in locs[..j]
  {
    var j := Find(locs, last);
    assert last in locs ==> j < WAYS;
  }

  /** The first eviction goes to the second place: the search for the invalid place runs off the end. */
  lemma FirstEviction<E>(hash: Hash<E>, size: nat, e: E)
    requires 0 < size <= INVALID_LOC
    ensures NextPlace(Locs(hash, size, e), INVALID_LOC) == 1
  {
    hide Locs;
    assert Find(Locs(hash, size, e), INVALID_LOC) == WAYS;
  }

  /** The first of an element's places at `at` is directly followed by another one at `at`. */
  predicate Repeats(locs: seq<nat>, at: nat) {
    var k := Find(locs, at);
    k + 1 < |locs| && locs[k + 1] == at
  }

  /** The next place is the last one again exactly when it directly repeats among the eight. */
  lemma NextPlaceReturns(locs: seq<nat>, last: nat)
    requires |locs| == WAYS && last in locs
    ensures locs[NextPlace(locs, last)] == last <==> Repeats(locs, last)
  {
    var k := Find(locs, last);
    if k + 1 == WAYS {
      assert NextPlace(locs, last) == 0;
    }
  }

  /**
    After a swap, the place that the next eviction would use holds the element just put in
    exactly when that element's place directly repeats among those of the evicted one.
   */
  lemma JustPutMovesExactly<E>(before: seq<Slot<E>>, now: seq<Slot<E>>, came: E, carried: Entry<E>, i: nat, blank: E, hash: Hash<E>)
    requires InFlight(before, now, came, carried, blank, hash) && carried.elem != blank
    requires i < |now| && !now[i].garbage && i in Locs(hash, |now|, carried.elem)
    ensures var locs := Locs(hash, |now|, now[i].elem);
            Put(now, i, carried)[locs[NextPlace(locs, i)]].elem == carried.elem <==> Repeats(locs, i)
  {
    hide Locs, NextPlace, Repeats;
    var locs := Locs(hash, |now|, now[i].elem);
    assert i in locs;
    NextPlaceReturns(locs, i);
    SwapKeeps(before, now, came, carried, i, blank, hash);
    var after := Put(now, i, carried);
    var next := locs[NextPlace(locs, i)];
    assert after[i].elem == carried.elem;
  }

  // ---------------------------------------------------------------- where an insertion leaves everything

  /** The first of these places whose slot is collectable, or the number of places. */
  ghost function FirstOpen<E>(slots: seq<Slot<E>>, locs: seq<nat>): (k: nat)
    requires forall j: nat :: j < |locs| ==> locs[j] < |slots|
    ensures k <= |locs| && (k < |locs| ==> slots[locs[k]].garbage)
    ensures forall j: nat :: j < k ==> !slots[locs[j]].garbage
  {
    if locs == [] || slots[locs[0]].garbage then 0 else 1 + FirstOpen(slots, locs[1..])
  }

  /** The first of these places that stores the element, or the number of places. */
  ghost function FirstHeld<E>(slots: seq<Slot<E>>, locs: seq<nat>, e: E): (k: nat)
    requires forall j: nat :: j < |locs| ==> locs[j] < |slots|
    ensures k <= |locs| && (k < |locs| ==> slots[locs[k]].elem == e)
    ensures forall j: nat :: j < k ==> slots[locs[j]].elem != e
  {
    if locs == [] || slots[locs[0]].elem == e then 0 else 1 + FirstHeld(slots, locs[1..], e)
  }

  /**
    With an entry in hand that was evicted from `last`: it goes to the first of its places that
    is collectable, or else takes the next place of the entry there, which goes on; with no
    steps left it is dropped.
   */
  ghost function Evict<E>(slots: seq<Slot<E>>, carried: Entry<E>, last: nat, steps: nat, hash: Hash<E>): (r: (seq<Slot<E>>, seq<Entry<E>>))
    requires |slots| > 0
    ensures |r.0| == |slots|
    decreases steps
  {
    var locs := Locs(hash, |slots|, carried.elem);
    var open := FirstOpen(slots, locs);
    if steps == 0 then (slots, [carried])
    else if open < WAYS then (Put(slots, locs[open], carried), [])
    else
      var i := locs[NextPlace(locs, last)];
      Evict(Put(slots, i, carried), Entry(slots[i].elem, slots[i].recent), i, steps - 1, hash)
  }

  lemma EvictStep<E>(slots: seq<Slot<E>>, carried: Entry<E>, last: nat, steps: nat, hash: Hash<E>, open: nat)
    requires |slots| > 0 && open == FirstOpen(slots, Locs(hash, |slots|, carried.elem)) && steps > 0
    ensures var locs := Locs(hash, |slots|, carried.elem);
            Evict(slots, carried, last, steps, hash) ==
            if open < WAYS then (Put(slots, locs[open], carried), [])
            else
              var i := locs[NextPlace(locs, last)];
              Evict(Put(slots, i, carried), Entry(slots[i].elem, slots[i].recent), i, steps - 1, hash)
  {
  }

  lemma EvictEnds<E>(slots: seq<Slot<E>>, carried: Entry<E>, last: nat, hash: Hash<E>)
    requires |slots| > 0
    ensures Evict(slots, carried, last, 0, hash) == (slots, [carried])
  {
  }

  /** The slots after an insertion and the entry that left: an element found at one of its places is only refreshed. */
  ghost function Inserted<E>(slots: seq<Slot<E>>, e: E, steps: nat, hash: Hash<E>): (r: (seq<Slot<E>>, seq<Entry<E>>))
    requires |slots| > 0
    ensures |r.0| == |slots|
  {
    var locs := Locs(hash, |slots|, e);
    var k := FirstHeld(slots, locs, e);
    if k < WAYS then
      var s := slots[locs[k]];
      (Put(slots, locs[k], Entry(e, true)), if s.garbage then [] else [Entry(e, s.recent)])
    else Evict(slots, Entry(e, true), INVALID_LOC, steps, hash)
  }

  class Cache<E(==, !new)> {
    const hash: Hash<E>
    /** The default-constructed element that fills the new table. */
    const blank: E
    const size: nat
    const depthLimit: nat
    const epochSize: nat
    const flags: Flags
    var table: seq<E>
    var epochFlags: seq<bool>
    var counter: nat

    ghost var slots: seq<Slot<E>>

    ghost predicate Valid()
      reads this, flags, flags.mem
    {
      && Coherent()
      && Orderly(slots, blank, hash)
      && WithinLoad(slots, counter, epochSize)
    }

    /** `slots` is the table with its two flags. */
    ghost predicate Coherent()
      reads this, flags, flags.mem
    {
      && 0 < size <= INVALID_LOC && 0 < depthLimit && 0 < epochSize
      && flags.Valid()
      && |slots| == |table| == |epochFlags| == size <= |flags.bits|
      && forall i: nat :: i < size ==> slots[i] == Slot(table[i], epochFlags[i], flags.bits[i])
    }

    /** A table of 2^depth slots, all of them blank and collectable. */
    constructor (depth: nat, hash: Hash<E>, blank: E)
      requires 1 <= depth <= 31
      ensures Valid() && fresh(flags) && fresh(flags.mem)
      ensures this.hash == hash && this.blank == blank && depthLimit == depth
      ensures size == Powers.Pow2(depth) && epochSize == EpochSize(size)
      ensures AllLive(slots) == multiset{} && counter == epochSize
      ensures forall i: nat :: i < size ==> slots[i] == Slot(blank, false, true)
    {
      Powers.Pow2Mono(depth, 31);
      Powers.Pow2Values();
      this.hash := hash;
      this.blank := blank;
      depthLimit := depth;
      var n := Powers.Pow2(depth);
      size := n;
      epochSize := EpochSize(n);
      counter := EpochSize(n);
      table := seq(n, _ => blank);
      epochFlags := seq(n, _ => false);
      flags := new Flags(n);
      slots := seq(n, _ => Slot(blank, false, true));
      NothingLive(seq(n, _ => Slot(blank, false, true)));
    }

    /** Ages the epochs when the current one has filled up. */
    method EpochCheck()
      requires Valid()
      modifies this, flags, flags.mem
      ensures Coherent() && Orderly(slots, blank, hash)
      ensures table == old(table)
      ensures (slots, counter) == Checked(old(slots), old(counter), epochSize)
    {
      hide Orderly, WithinLoad, Live, Aged;
      if counter != 0 {
        counter := counter - 1;
        return;
      }
      var unused := CountUnused();
      if unused >= epochSize {
        AgeAll();
        AgedOrderly(old(slots), blank, hash);
        counter := epochSize;
      } else {
        counter := Max(1, Max(epochSize / 16, epochSize - unused));
      }
    }

    /** Counts the entries of the current epoch that have not been erased. */
    method CountUnused() returns (n: nat)
      requires Coherent()
      ensures n == |Live(slots, true)|
    {
      n := 0;
      assert |Live(slots[..0], true)| == 0;
      hide Live;
      for i := 0 to size
        invariant n == |Live(slots[..i], true)|
      {
        LiveNext(slots, i);
        var collected := flags.BitIsSet(i);
        if epochFlags[i] && !collected {
          n := n + 1;
        }
      }
      assert slots[..size] == slots;
    }

    method AgeAll()
      requires Coherent()
      modifies this, flags, flags.mem
      ensures Coherent() && slots == Aged(old(slots)) && table == old(table) && counter == old(counter)
    {
      hide Aged;
      ghost var before := slots;
      for i := 0 to size
        invariant Coherent() && table == old(table) && counter == old(counter) && |before| == size
        invariant forall j: nat :: j < size ==> slots[j] == if j < i then AgedSlot(before[j]) else before[j]
      {
        if epochFlags[i] {
          epochFlags := epochFlags[i := false];
          slots := slots[i := slots[i].(recent := false)];
        } else {
          flags.BitSet(i);
          slots := slots[i := slots[i].(garbage := true)];
        }
      }
      assert slots == Aged(before) by { AgedAt(before); }
    }

    /** Writes an entry at a place and marks it as one to keep. */
    method Store(i: nat, x: Entry<E>)
      requires Coherent() && i < size
      modifies this, flags, flags.mem
      ensures Coherent() && slots == Put(old(slots), i, x) && counter == old(counter)
      ensures table == old(table)[i := x.elem]
    {
      table := table[i := x.elem];
      flags.BitUnset(i);
      epochFlags := epochFlags[i := x.recent];
      slots := Put(slots, i, x);
    }

    /** The first of the element's places where it is stored, or `WAYS`. */
    method Locate(e: E) returns (k: nat)
      requires Coherent()
      ensures k == FirstHeld(slots, Locs(hash, size, e), e)
    {
      hide Locs;
      k := 0;
      while k < WAYS && table[Locs(hash, size, e)[k]] != e
        invariant k <= WAYS
        invariant forall j: nat :: j < k ==> slots[Locs(hash, size, e)[j]].elem != e
      {
        k := k + 1;
      }
    }

    /** The first of the element's places that is collectable, or `WAYS`. */
    method OpenPlace(e: E) returns (k: nat)
      requires Coherent()
      ensures k == FirstOpen(slots, Locs(hash, size, e))
    {
      hide Locs;
      k := 0;
      while k < WAYS
        invariant k <= WAYS
        invariant forall j: nat :: j < k ==> !slots[Locs(hash, size, e)[j]].garbage
      {
        var collected := flags.BitIsSet(Locs(hash, size, e)[k]);
        if collected {
          return;
        }
        k := k + 1;
      }
    }

    /**
      Inserts an element, moving others along their places when all of its own are taken.
      Relative to the state after the epoch check, the element came in and at most one entry
      left; `gone` is that entry.
     */
    method Insert(e: E) returns (ghost gone: seq<Entry<E>>)
      requires Valid()
      modifies this, flags, flags.mem
      ensures Valid()
      ensures (slots, gone) == Inserted(Checked(old(slots), old(counter), epochSize).0, e, depthLimit, hash)
      ensures var before := Checked(old(slots), old(counter), epochSize).0;
              && Exchange(before, slots, e, gone) && counter == Checked(old(slots), old(counter), epochSize).1
              && (HasRoom(before, hash, e) ==> e in Live(slots, true) && forall x <- gone :: x.elem == e)
    {
      hide Orderly, WithinLoad, Exchange, Locs, Live, Checked, InFlight;
      CheckedLoad(slots, counter, epochSize);
      EpochCheck();
      ghost var before := slots;
      var k := Locate(e);
      if k < WAYS {
        var i := Locs(hash, size, e)[k];
        ReviveKeeps(before, e, i, blank, hash);
        gone := if before[i].garbage then [] else [Entry(e, before[i].recent)];
        Store(i, Entry(e, true));
        PutIsLive(before, i, Entry(e, true));
      } else {
        StartFlight(before, e, blank, hash);
        gone := Displace(before, e);
      }
      ExchangeWithin(before, slots, e, gone, counter, epochSize);
    }

    /** The chain of evictions, at most `depthLimit` long. */
    method Displace(ghost before: seq<Slot<E>>, came: E) returns (ghost gone: seq<Entry<E>>)
      requires Coherent() && slots == before
      requires InFlight(before, slots, came, Entry(came, true), blank, hash)
      modifies this, flags, flags.mem
      ensures Coherent() && counter == old(counter)
      ensures (slots, gone) == Evict(before, Entry(came, true), INVALID_LOC, depthLimit, hash)
      ensures Orderly(slots, blank, hash) && Exchange(before, slots, came, gone)
      ensures HasOpen(before, hash, came) ==> gone == [] && came in Live(slots, true)
    {
      hide Orderly, Exchange, Locs, Live, InFlight, Evict, NextPlace, FirstOpen, Put;
      var e, lastEpoch, lastLoc := came, true, INVALID_LOC;
      for depth := 0 to depthLimit
        invariant Coherent() && counter == old(counter)
        invariant InFlight(before, slots, came, Entry(e, lastEpoch), blank, hash)
        invariant Evict(slots, Entry(e, lastEpoch), lastLoc, depthLimit - depth, hash) ==
                  Evict(before, Entry(came, true), INVALID_LOC, depthLimit, hash)
        invariant depth == 0 ==> slots == before && e == came && lastEpoch
        invariant depth > 0 ==> !HasOpen(before, hash, came)
      {
        var k := OpenPlace(e);
        EvictStep(slots, Entry(e, lastEpoch), lastLoc, depthLimit - depth, hash, k);
        if k < WAYS {
          var i := Locs(hash, size, e)[k];
          SettleKeeps(before, slots, came, Entry(e, lastEpoch), i, blank, hash);
          PutIsLive(slots, i, Entry(e, lastEpoch));
          Store(i, Entry(e, lastEpoch));
          gone := [];
          return;
        }
        lastLoc := Locs(hash, size, e)[NextPlace(Locs(hash, size, e), lastLoc)];
        SwapKeeps(before, slots, came, Entry(e, lastEpoch), lastLoc, blank, hash);
        e, lastEpoch := Swap(lastLoc, e, lastEpoch);
      }
      DropLosesOne(before, slots, came, Entry(e, lastEpoch), blank, hash);
      FlightOrderly(before, slots, came, Entry(e, lastEpoch), blank, hash);
      gone := [Entry(e, lastEpoch)];
      assert Evict(slots, Entry(e, lastEpoch), lastLoc, 0, hash) == (slots, gone) by { EvictEnds(slots, Entry(e, lastEpoch), lastLoc, hash); }
    }

    /** Exchanges the entry in hand with the one at a live place. */
    method Swap(i: nat, e: E, recent: bool) returns (e': E, recent': bool)
      requires Coherent() && i < size && !slots[i].garbage
      modifies this
      ensures Coherent() && counter == old(counter)
      ensures slots == Put(old(slots), i, Entry(e, recent))
      ensures e' == old(slots[i].elem) && recent' == old(slots[i].recent)
    {
      e', recent' := table[i], epochFlags[i];
      table := table[i := e];
      epochFlags := epochFlags[i := recent];
      slots := Put(slots, i, Entry(e, recent));
    }

    /**
      Finds an element, collectable or not, and marks it collectable when `erase` is set.
      Every live element is found; apart from the blank one, exactly the stored ones are.
     */
    method Contains(e: E, erase: bool) returns (r: bool)
      requires Valid()
      modifies this, flags, flags.mem
      ensures Valid() && table == old(table) && counter == old(counter) && epochFlags == old(epochFlags)
      ensures r <==> exists k: nat :: k < WAYS && table[Locs(hash, size, e)[k]] == e
      ensures e in AllLive(old(slots)) ==> r
      ensures e != blank ==> (r <==> e in table)
      ensures !(r && erase) ==> slots == old(slots)
      ensures r && erase ==>
                var locs := Locs(hash, size, e);
                var k := FirstHeld(old(slots), locs, e);
                k < WAYS && slots == old(slots)[locs[k] := old(slots)[locs[k]].(garbage := true)]
    {
      hide Orderly, WithinLoad, Locs, Live;
      var k := Locate(e);
      r := k < WAYS;
      if e in AllLive(slots) {
        FoundIfLive(slots, e, blank, hash);
      }
      if e != blank {
        FoundIffStored(slots, e, blank, hash);
      }
      if r && erase {
        var i := Locs(hash, size, e)[k];
        CollectKeeps(slots, i, blank, hash, counter, epochSize);
        flags.BitSet(i);
        slots := slots[i := slots[i].(garbage := true)];
      }
    }

    /** The table never holds more than two epochs' worth of live elements. */
    lemma LoadBound()
      requires Valid()
      ensures |Live(slots, true)| <= EpochBound(epochSize)
      ensures |AllLive(slots)| <= 2 * EpochBound(epochSize)
    {
    }
  }

  /** Some place of the element is collectable. */
  ghost predicate HasOpen<E>(slots: seq<Slot<E>>, hash: Hash<E>, e: E)
  {
    |slots| > 0 && exists k: nat :: k < WAYS && slots[Locs(hash, |slots|, e)[k]].garbage
  }

  predicate AtHand<E(==)>(s: Slot<E>, e: E) {
    s.garbage || s.elem == e
  }

  /** The element is already at one of its places, or one of them is collectable. */
  ghost predicate HasRoom<E>(slots: seq<Slot<E>>, hash: Hash<E>, e: E)
  {
    && |slots| > 0
    && exists k: nat :: k < WAYS && AtHand(slots[Locs(hash, |slots|, e)[k]], e)
  }

  lemma StartFlight<E>(before: seq<Slot<E>>, e: E, blank: E, hash: Hash<E>)
    requires |before| > 0 && Orderly(before, blank, hash)
    requires forall k: nat :: k < WAYS ==> before[Locs(hash, |before|, e)[k]].elem != e
    ensures InFlight(before, before, e, Entry(e, true), blank, hash)
  {
    if e != blank {
      NotAtItsPlaces(before, e, blank, hash);
    }
  }

  lemma FlightOrderly<E>(before: seq<Slot<E>>, now: seq<Slot<E>>, came: E, carried: Entry<E>, blank: E, hash: Hash<E>)
    requires InFlight(before, now, came, carried, blank, hash)
    ensures Orderly(now, blank, hash)
  {
  }

  lemma PutIsLive<E>(slots: seq<Slot<E>>, i: nat, x: Entry<E>)
    requires i < |slots|
    ensures x.elem in Live(Put(slots, i, x), x.recent)
  {
    LiveMember(Put(slots, i, x), x.recent, x.elem);
    assert Put(slots, i, x)[i] == Slot(x.elem, x.recent, false);
  }

  lemma ExchangeWithin<E(!new)>(before: seq<Slot<E>>, after: seq<Slot<E>>, came: E, gone: seq<Entry<E>>,
                                counter: nat, epochSize: nat)
    requires Exchange(before, after, came, gone)
    requires |Live(before, true)| + counter + 1 <= EpochBound(epochSize)
    requires |Live(before, false)| <= EpochBound(epochSize)
    ensures WithinLoad(after, counter, epochSize)
  {
    hide Live, Exchange;
    ExchangeLoad(before, after, came, gone);
  }

  lemma FoundIfLive<E>(slots: seq<Slot<E>>, e: E, blank: E, hash: Hash<E>)
    requires |slots| > 0 && Orderly(slots, blank, hash) && e in AllLive(slots)
    ensures exists k: nat :: k < WAYS && slots[Locs(hash, |slots|, e)[k]].elem == e
  {
    hide Locs, StoredOnce;
    var r := e in Live(slots, true);
    LiveMember(slots, r, e);
    var i: nat :| i < |slots| && slots[i] == Slot(e, r, false);
    var k: nat :| k < WAYS && Locs(hash, |slots|, e)[k] == i;
  }

  lemma FoundIffStored<E>(slots: seq<Slot<E>>, e: E, blank: E, hash: Hash<E>)
    requires |slots| > 0 && Orderly(slots, blank, hash) && e != blank
    ensures Stores(slots, e) <==> exists k: nat :: k < WAYS && slots[Locs(hash, |slots|, e)[k]].elem == e
  {
    hide Locs, StoredOnce;
    if i: nat :| i < |slots| && slots[i].elem == e {
      var k: nat :| k < WAYS && Locs(hash, |slots|, e)[k] == i;
    }
  }

  lemma CollectKeeps<E>(slots: seq<Slot<E>>, i: nat, blank: E, hash: Hash<E>, counter: nat, epochSize: nat)
    requires i < |slots| && Orderly(slots, blank, hash) && WithinLoad(slots, counter, epochSize)
    ensures var after := slots[i := slots[i].(garbage := true)];
            Orderly(after, blank, hash) && WithinLoad(after, counter, epochSize)
  {
    hide Locs, Live;
    var s := slots[i].(garbage := true);
    LiveReplace(slots, i, s, true);
    LiveReplace(slots, i, s, false);
    assert |Live(slots[i := s], true) + Held(slots[i], true)| == |Live(slots, true)|;
    assert |Live(slots[i := s], false) + Held(slots[i], false)| == |Live(slots, false)|;
  }

  lemma AgedAt<E>(slots: seq<Slot<E>>)
    ensures |Aged(slots)| == |slots| && forall i: nat :: i < |slots| ==> Aged(slots)[i] == AgedSlot(slots[i])
  {
  }

  lemma AgedOrderly<E>(slots: seq<Slot<E>>, blank: E, hash: Hash<E>)
    requires Orderly(slots, blank, hash)
    ensures Orderly(Aged(slots), blank, hash)
  {
    hide Locs;
  }

  lemma {:induction false} NothingLive<E>(slots: seq<Slot<E>>)
    requires forall i: nat :: i < |slots| ==> slots[i].garbage
    ensures Live(slots, true) == multiset{} && Live(slots, false) == multiset{}
  {
    if slots != [] {
      NothingLive(slots[..|slots| - 1]);
    }
  }
}
