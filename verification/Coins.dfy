/** The UTXO cache stack of src/coins.{h,cpp}: a database view below any number of write-back
    caches, each holding entries flagged DIRTY (may differ from the parent) and FRESH (the parent
    has no unspent coin here). The specification is a plain map from outpoint to unspent coin,
    one per level of the stack. */
module Coins {

  const OP_RETURN: nat := 0x6a
  const MAX_SCRIPT_SIZE: nat := 10000

  type Script = seq<nat>

  datatype OutPoint = OutPoint(hash: nat, n: nat)

  datatype Coin = Coin(value: int, script: Script, height: nat, coinbase: bool) {
    /** A spent coin is one whose output is null, that is, has value -1. */
    predicate IsSpent() { value == -1 }

    predicate IsUnspendable() {
      (|script| > 0 && script[0] == OP_RETURN) || |script| > MAX_SCRIPT_SIZE
    }
  }

  /** Which coins are spent, and which can never be: those that start with OP_RETURN, 0x6a, or exceed 10000 bytes. */
  lemma CoinKinds(c: Coin)
    ensures c.IsSpent() <==> c.value + 1 == 0
    ensures c.IsUnspendable() <==> (exists rest: Script :: c.script == [0x6a] + rest) || |c.script| > 10000
  {
    if |c.script| > 0 && c.script[0] == 0x6a {
      assert c.script == [0x6a] + c.script[1..];
    }
  }

  const EMPTY_COIN := Coin(-1, [], 0, false)

  datatype Entry = Entry(coin: Coin, isDirty: bool, isFresh: bool)

  type CoinMap = map<OutPoint, Coin>
  type EntryMap = map<OutPoint, Entry>

  datatype Cache = Cache(coins: EntryMap, usage: int)

  const EMPTY_CACHE := Cache(map[], 0)

  // ----- What a stack of views means -----

  /** The unspent coins seen through a cache with entries `c` above a view that shows `parent`. */
  ghost function Overlay(parent: CoinMap, c: EntryMap): CoinMap {
    map o | o in parent.Keys + c.Keys && (o in c ==> !c[o].coin.IsSpent()) ::
      if o in c then c[o].coin else parent[o]
  }

  /** `views` lists what the stack shows level by level: the database, then each cache over the one below. */
  ghost predicate Shows(db: CoinMap, caches: seq<Cache>, views: seq<CoinMap>) {
    && |views| == |caches| + 1
    && views[0] == db
    && forall k | 0 <= k < |caches| :: Overlay(views[k], caches[k].coins) == views[k + 1]
  }

  /** The stack decides what is shown. */
  lemma {:induction false} ShowsUnique(db: CoinMap, caches: seq<Cache>, v: seq<CoinMap>, w: seq<CoinMap>)
    requires Shows(db, caches, v) && Shows(db, caches, w)
    ensures v == w
    decreases |caches|
  {
    if caches != [] {
      var n := |caches| - 1;
      assert forall k | 0 <= k < n :: caches[..n][k] == caches[k];
      ShowsUnique(db, caches[..n], v[..n + 1], w[..n + 1]);
      assert v[n] == v[..n + 1][n] == w[n];
      assert v == v[..n + 1] + [v[n + 1]] && w == w[..n + 1] + [w[n + 1]];
    }
  }

  /** What the two flags promise about one entry, given what the parent view shows. */
  ghost predicate EntrySound(parent: CoinMap, o: OutPoint, e: Entry) {
    && (e.isFresh ==> o !in parent)
    && (!e.isDirty ==> if e.coin.IsSpent() then o !in parent else o in parent && parent[o] == e.coin)
  }

  ghost predicate Sound(parent: CoinMap, c: EntryMap) {
    forall o | o in c :: EntrySound(parent, o, c[o])
  }

  ghost predicate NoneSpent(view: CoinMap) {
    forall o | o in view :: !view[o].IsSpent()
  }

  ghost function ValueOf(view: CoinMap, prevouts: seq<OutPoint>): int {
    if prevouts == [] then 0
    else
      var p := prevouts[|prevouts| - 1];
      ValueOf(view, prevouts[..|prevouts| - 1]) + if p in view then view[p].value else -1
  }

  // ----- Memory accounting -----

  ghost function TotalUsage(c: EntryMap, memory: Script -> nat): nat
    decreases |c|
  {
    if c == map[] then 0
    else
      var o :| o in c;
      memory(c[o].coin.script) + TotalUsage(c - {o}, memory)
  }

  lemma {:induction false} TotalUsageSplit(c: EntryMap, o: OutPoint, memory: Script -> nat)
    requires o in c
    ensures TotalUsage(c, memory) == memory(c[o].coin.script) + TotalUsage(c - {o}, memory)
    decreases |c|
  {
    var p :| p in c && TotalUsage(c, memory) == memory(c[p].coin.script) + TotalUsage(c - {p}, memory);
    if p != o {
      TotalUsageSplit(c - {p}, o, memory);
      assert c - {p} - {o} == c - {o} - {p};
      TotalUsageSplit(c - {o}, p, memory);
    }
  }

  lemma TotalUsagePut(c: EntryMap, o: OutPoint, e: Entry, memory: Script -> nat)
    ensures TotalUsage(c[o := e], memory) ==
            TotalUsage(c, memory) + memory(e.coin.script) - (if o in c then memory(c[o].coin.script) else 0)
  {
    TotalUsageSplit(c[o := e], o, memory);
    assert c[o := e] - {o} == c - {o};
    if o in c {
      TotalUsageSplit(c, o, memory);
    } else {
      assert c - {o} == c;
    }
  }

  // ----- The specification: one plain map per level -----

  datatype Op =
    | Fetch(level: nat, o: OutPoint)
    | Add(o: OutPoint, coin: Coin, overwrite: bool)
    | Spend(o: OutPoint)
    | Uncache(level: nat, o: OutPoint)
    | Flush(level: nat)
    | Push
    | Drop

  /** What a caller must respect: AddCoin takes an unspent coin, and without the overwrite flag
      only where the view has none. */
  ghost predicate Legal(views: seq<CoinMap>, op: Op) {
    |views| > 0 &&
    match op
    case Fetch(level, _) => level < |views|
    case Add(o, coin, overwrite) => |views| > 1 && !coin.IsSpent() && (overwrite || o !in views[|views| - 1])
    case Spend(_) => |views| > 1
    case Uncache(level, _) => 0 < level < |views|
    case Flush(level) => 0 < level < |views|
    case Push => true
    case Drop => |views| > 1
  }

  ghost function SpecStep(views: seq<CoinMap>, op: Op): (r: seq<CoinMap>)
    requires Legal(views, op)
    ensures |r| > 0
  {
    var top := |views| - 1;
    match op
    case Fetch(_, _) => views
    case Add(o, coin, _) => if coin.IsUnspendable() then views else views[top := views[top][o := coin]]
    case Spend(o) => views[top := views[top] - {o}]
    case Uncache(_, _) => views
    case Flush(level) => views[level - 1 := views[level]]
    case Push => views + [views[top]]
    case Drop => views[..top]
  }

  ghost predicate LegalRun(views: seq<CoinMap>, ops: seq<Op>)
    decreases |ops|
  {
    ops == [] || (Legal(views, ops[0]) && LegalRun(SpecStep(views, ops[0]), ops[1..]))
  }

  ghost function SpecRun(views: seq<CoinMap>, ops: seq<Op>): seq<CoinMap>
    requires LegalRun(views, ops)
    decreases |ops|
  {
    if ops == [] then views else SpecRun(SpecStep(views, ops[0]), ops[1..])
  }

  // ----- How single entries may change -----

  /** The case analysis of BatchWrite for one DIRTY child entry, as a change to the parent's entries. */
  function Merge(us: EntryMap, o: OutPoint, e: Entry): EntryMap {
    if o !in us then
      if e.isFresh && e.coin.IsSpent() then us else us[o := Entry(e.coin, true, e.isFresh)]
    else if us[o].isFresh && e.coin.IsSpent() then us - {o}
    else us[o := Entry(e.coin, true, us[o].isFresh)]
  }

  /** The condition of the throw "FRESH flag misapplied to cache entry for base transaction with
      spendable outputs". */
  predicate Misapplied(us: EntryMap, o: OutPoint, e: Entry) {
    o in us && e.isFresh && !us[o].coin.IsSpent()
  }

  /** FRESH is sound across levels: merging a child's DIRTY entry into the parent makes the parent
      show what the child showed there and nothing else new, keeps the parent's own flags true of the
      grandparent, and never meets the "FRESH flag misapplied" condition. */
  lemma MergeSound(grand: CoinMap, us: EntryMap, o: OutPoint, e: Entry)
    requires Sound(grand, us)
    requires EntrySound(Overlay(grand, us), o, e) && e.isDirty
    ensures !Misapplied(us, o, e)
    ensures Sound(grand, Merge(us, o, e))
    ensures Overlay(grand, Merge(us, o, e)) ==
            if e.coin.IsSpent() then Overlay(grand, us) - {o} else Overlay(grand, us)[o := e.coin]
  {
    var shown := Overlay(grand, us);
    assert o in us ==> EntrySound(grand, o, us[o]);
    if o in us && us[o].isFresh && e.coin.IsSpent() {
      EraseFresh(grand, us, o);
    } else if o !in us && e.isFresh && e.coin.IsSpent() {
      assert shown - {o} == shown;
    } else {
      var put := Entry(e.coin, true, if o in us then us[o].isFresh else e.isFresh);
      if e.coin.IsSpent() {
        PutSpent(grand, us, o, put);
      } else {
        PutUnspent(grand, us, o, put);
      }
    }
  }

  /** Handing one child entry to the parent (or ignoring it when it is not DIRTY) and then forgetting
      it in the child changes nothing that the child showed. */
  lemma HandOver(parent: CoinMap, child: EntryMap, o: OutPoint, after: CoinMap)
    requires Sound(parent, child) && o in child
    requires after == if !child[o].isDirty then parent
                      else if child[o].coin.IsSpent() then parent - {o} else parent[o := child[o].coin]
    ensures Sound(after, child - {o})
    ensures Overlay(after, child - {o}) == Overlay(parent, child)
  {
  }

  /** One iteration of BatchWrite, seen from below: the parent's flags stay true of the grandparent and
      the rest of the child over the new parent still shows what the whole child showed. */
  lemma MergeStep(grand: CoinMap, us: EntryMap, child: EntryMap, o: OutPoint, after: EntryMap)
    requires Sound(grand, us) && Sound(Overlay(grand, us), child) && o in child
    requires after == if child[o].isDirty then Merge(us, o, child[o]) else us
    ensures child[o].isDirty ==> !Misapplied(us, o, child[o])
    ensures Sound(grand, after) && Sound(Overlay(grand, after), child - {o})
    ensures Overlay(Overlay(grand, after), child - {o}) == Overlay(Overlay(grand, us), child)
  {
    var parent := Overlay(grand, us);
    assert EntrySound(parent, o, child[o]);
    if child[o].isDirty {
      MergeSound(grand, us, o, child[o]);
    }
    HandOver(parent, child, o, Overlay(grand, after));
  }

  lemma EmptyOverlay(view: CoinMap)
    ensures Sound(view, map[]) && Overlay(view, map[]) == view
  {
  }

  lemma PutUnspent(parent: CoinMap, c: EntryMap, o: OutPoint, e: Entry)
    requires Sound(parent, c) && EntrySound(parent, o, e) && !e.coin.IsSpent()
    ensures Sound(parent, c[o := e])
    ensures Overlay(parent, c[o := e]) == Overlay(parent, c)[o := e.coin]
  {
  }

  lemma PutSpent(parent: CoinMap, c: EntryMap, o: OutPoint, e: Entry)
    requires Sound(parent, c) && EntrySound(parent, o, e) && e.coin.IsSpent()
    ensures Sound(parent, c[o := e])
    ensures Overlay(parent, c[o := e]) == Overlay(parent, c) - {o}
  {
  }

  /** An entry may be erased outright when the parent shows nothing there. */
  lemma EraseFresh(parent: CoinMap, c: EntryMap, o: OutPoint)
    requires Sound(parent, c) && o in c && c[o].isFresh
    ensures Sound(parent, c - {o})
    ensures Overlay(parent, c - {o}) == Overlay(parent, c) - {o}
  {
  }

  /** The entries after a spend: a FRESH entry is erased, any other is emptied and marked DIRTY. */
  ghost function Spent(us: EntryMap, o: OutPoint, spent: bool): EntryMap {
    if !spent then us
    else if o in us && us[o].isFresh then us - {o}
    else us[o := Entry(EMPTY_COIN, true, false)]
  }

  /** The entries after a lookup: a coin found only in the parent view is copied, with neither flag. */
  ghost function Fetched(us: EntryMap, parent: CoinMap, o: OutPoint): EntryMap {
    if o in us || o !in parent then us else us[o := Entry(parent[o], false, false)]
  }

  // ----- Adding a coin -----

  /** The entry AddCoin leaves: DIRTY, and FRESH if it was or if a caller without the overwrite flag met no DIRTY one. */
  function AddedEntry(us: EntryMap, o: OutPoint, coin: Coin, overwrite: bool): Entry {
    var it := if o in us then us[o] else Entry(EMPTY_COIN, false, false);
    Entry(coin, true, it.isFresh || (!overwrite && !it.isDirty))
  }

  /** The condition of the throw "Adding new coin that replaces non-pruned entry". */
  predicate Replaces(us: EntryMap, o: OutPoint, overwrite: bool) {
    !overwrite && o in us && !us[o].coin.IsSpent()
  }

  /** Unless it throws, AddCoin shows the coin; its flags stay true exactly when the overwrite flag is given or the
      view had no unspent coin there. */
  lemma AddExactly(parent: CoinMap, us: EntryMap, o: OutPoint, coin: Coin, overwrite: bool)
    requires Sound(parent, us) && !coin.IsSpent() && !Replaces(us, o, overwrite)
    ensures var after := us[o := AddedEntry(us, o, coin, overwrite)];
            && Overlay(parent, after) == Overlay(parent, us)[o := coin]
            && (Sound(parent, after) <==> overwrite || o !in Overlay(parent, us))
  {
    var e := AddedEntry(us, o, coin, overwrite);
    var after := us[o := e];
    assert after[o] == e;
    if overwrite || o !in Overlay(parent, us) {
      assert o in us ==> EntrySound(parent, o, us[o]);
      PutUnspent(parent, us, o, e);
    } else {
      assert o !in us && o in parent && e.isFresh;
      assert !EntrySound(parent, o, after[o]);
    }
  }

  /** A cache whose flags hold of its parent's view and whose memory counter is exact. */
  ghost predicate CacheOk(parent: CoinMap, c: Cache, memory: Script -> nat) {
    Sound(parent, c.coins) && c.usage == TotalUsage(c.coins, memory)
  }

  /** An entry that AddCoin refuses to replace is shown. */
  lemma ReplacesShown(parent: CoinMap, us: EntryMap, o: OutPoint, overwrite: bool)
    ensures Replaces(us, o, overwrite) ==> o in Overlay(parent, us)
  {
  }

  lemma NoneSpentPut(view: CoinMap, o: OutPoint, coin: Coin)
    requires !coin.IsSpent()
    ensures NoneSpent(view) ==> NoneSpent(view[o := coin])
  {
  }

  // ----- The stack itself -----

  class CoinsViewStack {
    /** memusage::DynamicUsage of a script, left open. */
    const memory: Script -> nat

    var db: CoinMap
    /** caches[0] has the database as its base, caches[i] has caches[i - 1]. */
    var caches: seq<Cache>

    /** What each level shows: view 0 is the database, view k is caches[k - 1] over view k - 1. */
    ghost var views: seq<CoinMap>

    ghost predicate Valid()
      reads this
    {
      && memory([]) == 0
      && Shows(db, caches, views)
      && (forall k | 0 <= k < |views| :: NoneSpent(views[k]))
      && (forall k | 0 <= k < |caches| :: CacheOk(views[k], caches[k], memory))
    }

    constructor (memory: Script -> nat)
      requires memory([]) == 0
      ensures Valid() && this.memory == memory && db == map[] && caches == [] && views == [map[]]
    {
      this.memory := memory;
      db, caches := map[], [];
      views := [map[]];
    }

    /** CCoinsViewDB::GetCoin for level 0, CCoinsViewCache::GetCoin above. A lookup may fill every
        cache below, and no level's meaning moves. */
    method GetCoin(level: nat, o: OutPoint) returns (found: bool, coin: Coin)
      requires Valid() && level <= |caches|
      modifies this
      ensures Valid() && db == old(db) && |caches| == |old(caches)| && views == old(views)
      ensures forall k | level <= k < |caches| :: caches[k] == old(caches[k])
      ensures found <==> o in views[level]
      ensures found ==> coin == views[level][o]
      decreases level, 1
    {
      if level == 0 {
        found := o in db;
        coin := if found then db[o] else EMPTY_COIN;
      } else {
        var present := FetchCoin(level, o);
        coin := if present then caches[level - 1].coins[o].coin else EMPTY_COIN;
        found := present && !coin.IsSpent();
      }
    }

    /** Makes sure the cache at `level` holds an entry for `o` if its view may have one. */
    method FetchCoin(level: nat, o: OutPoint) returns (present: bool)
      requires Valid() && 0 < level <= |caches|
      modifies this
      ensures Valid() && db == old(db) && |caches| == |old(caches)| && views == old(views)
      ensures forall k | level <= k < |caches| :: caches[k] == old(caches[k])
      ensures present <==> o in caches[level - 1].coins
      ensures !present ==> o !in views[level]
      ensures present ==> var c := caches[level - 1].coins[o].coin;
                          if o in views[level] then c == views[level][o] else c.IsSpent()
      ensures present <==> o in old(caches[level - 1].coins) || o in views[level]
      ensures caches[level - 1].coins == Fetched(old(caches[level - 1].coins), views[level - 1], o)
      decreases level, 0
    {
      var i := level - 1;
      assert Overlay(views[i], caches[i].coins) == views[i + 1];
      if o in caches[i].coins {
        return true;
      }
      var found, tmp := GetCoin(i, o);
      var c := caches[i];
      assert Overlay(views[i], c.coins) == views[i + 1];
      if !found {
        return false;
      }
      var e := Entry(tmp, false, tmp.IsSpent());
      TotalUsagePut(c.coins, o, e, memory);
      assert NoneSpent(views[i]);
      PutUnspent(views[i], c.coins, o, e);
      assert views[i + 1][o := tmp] == views[i + 1];
      caches := caches[i := Cache(c.coins[o := e], c.usage + memory(tmp.script))];
      present := true;
    }

    method AccessCoin(o: OutPoint) returns (coin: Coin)
      requires Valid() && |caches| > 0
      modifies this
      ensures Valid() && db == old(db) && |caches| == |old(caches)| && views == old(views)
      ensures if o in views[|caches|] then coin == views[|caches|][o] else coin.IsSpent()
      ensures o !in views[|caches|] && o !in old(caches[|caches| - 1].coins) ==> coin == Coin(-1, [], 0, false)
    {
      var present := FetchCoin(|caches|, o);
      var top := |caches| - 1;
      coin := if present then caches[top].coins[o].coin else EMPTY_COIN;
    }

    /** Adds an unspent coin to the top cache. The caller's side of the bargain, `Legal`, is exactly what keeps the
        flags true; without it the call throws, with the entry's memory already deducted, or marks as FRESH a coin
        that the parent has. */
    method AddCoin(o: OutPoint, coin: Coin, overwrite: bool) returns (thrown: bool)
      requires Valid() && |caches| > 0 && !coin.IsSpent()
      modifies this
      ensures db == old(db) && |caches| == |old(caches)| && Shows(db, caches, views)
      ensures forall k | 0 <= k < |caches| - 1 :: caches[k] == old(caches[k])
      ensures thrown <==> !coin.IsUnspendable() && Replaces(old(caches[|caches| - 1].coins), o, overwrite)
      ensures thrown ==> views == old(views) && caches[|caches| - 1].coins == old(caches[|caches| - 1].coins)
      ensures thrown ==>
                caches[|caches| - 1].usage == old(caches[|caches| - 1].usage - memory(caches[|caches| - 1].coins[o].coin.script))
      ensures !thrown ==> views == if coin.IsUnspendable() then old(views)
                                   else old(views)[|caches| := old(views[|caches|])[o := coin]]
      ensures coin.IsUnspendable() ==> caches == old(caches)
      ensures !thrown && !coin.IsUnspendable() ==>
                var us := old(caches[|caches| - 1].coins);
                caches[|caches| - 1].coins == us[o := AddedEntry(us, o, coin, overwrite)]
      ensures !coin.IsUnspendable() ==>
                (!thrown && Sound(views[|caches| - 1], caches[|caches| - 1].coins) <==> Legal(old(views), Add(o, coin, overwrite)))
      ensures coin.IsUnspendable() || Legal(old(views), Add(o, coin, overwrite)) ==> Valid()
    {
      hide Overlay, TotalUsage, Sound, NoneSpent;
      var top := |caches| - 1;
      var c := caches[top];
      assert Overlay(views[top], c.coins) == views[top + 1];
      if coin.IsUnspendable() {
        return false;
      }
      var inserted := o !in c.coins;
      var it := if inserted then Entry(EMPTY_COIN, false, false) else c.coins[o];
      var usage := if inserted then c.usage else c.usage - memory(it.coin.script);
      ReplacesShown(views[top], c.coins, o, overwrite);
      var markFresh := false;
      if !overwrite {
        if !it.coin.IsSpent() {
          caches := caches[top := c.(usage := usage)];
          return true;
        }
        markFresh := !it.isDirty;
      }
      var e := Entry(coin, true, it.isFresh || markFresh);
      TotalUsagePut(c.coins, o, e, memory);
      AddExactly(views[top], c.coins, o, coin, overwrite);
      NoneSpentPut(views[top + 1], o, coin);
      caches := caches[top := Cache(c.coins[o := e], usage + memory(coin.script))];
      views := views[top + 1 := views[top + 1][o := coin]];
      return false;
    }

    method SpendCoin(o: OutPoint) returns (spent: bool, moveout: Coin)
      requires Valid() && |caches| > 0
      modifies this
      ensures Valid() && db == old(db) && |caches| == |old(caches)|
      ensures views == SpecStep(old(views), Spend(o))
      ensures o in old(views[|caches|]) ==> spent && moveout == old(views[|caches|])[o]
      ensures spent && o !in old(views[|caches|]) ==> moveout.IsSpent()
      ensures spent <==> o in old(views[|caches|]) || o in old(caches[|caches| - 1].coins)
      ensures caches[|caches| - 1].coins == Spent(old(caches[|caches| - 1].coins), o, spent)
    {
      hide Overlay, TotalUsage, Sound;
      var top := |caches| - 1;
      var present := FetchCoin(|caches|, o);
      moveout := EMPTY_COIN;
      ghost var shown := views[top + 1];
      views := views[top + 1 := shown - {o}];
      if !present {
        assert shown - {o} == shown;
        return false, moveout;
      }
      var c := caches[top];
      assert Overlay(views[top], c.coins) == shown;
      moveout := c.coins[o].coin;
      var left := SpendEntry(views[top], c, o);
      caches := caches[top := left];
      spent := true;
    }

    /** Takes an entry of a cache out, with its memory. */
    method SpendEntry(ghost parent: CoinMap, c: Cache, o: OutPoint) returns (r: Cache)
      requires CacheOk(parent, c, memory) && o in c.coins && memory([]) == 0
      ensures CacheOk(parent, r, memory) && r.coins == Spent(c.coins, o, true)
      ensures Overlay(parent, r.coins) == Overlay(parent, c.coins) - {o}
    {
      hide Overlay, TotalUsage, Sound;
      var it := c.coins[o];
      TotalUsageSplit(c.coins, o, memory);
      if it.isFresh {
        EraseFresh(parent, c.coins, o);
        r := Cache(c.coins - {o}, c.usage - memory(it.coin.script));
      } else {
        var e := Entry(EMPTY_COIN, true, false);
        TotalUsagePut(c.coins, o, e, memory);
        PutSpent(parent, c.coins, o, e);
        r := Cache(c.coins[o := e], c.usage - memory(it.coin.script));
      }
    }

    method Uncache(level: nat, o: OutPoint)
      requires Valid() && 0 < level <= |caches|
      modifies this
      ensures Valid() && db == old(db) && |caches| == |old(caches)| && views == old(views)
      ensures forall k | 0 <= k < |caches| && k != level - 1 :: caches[k] == old(caches[k])
      ensures var us := old(caches[level - 1].coins);
              caches[level - 1].coins == if o in us && us[o] == Entry(us[o].coin, false, false) then us - {o} else us
    {
      var i := level - 1;
      var c := caches[i];
      if o in c.coins && !c.coins[o].isDirty && !c.coins[o].isFresh {
        TotalUsageSplit(c.coins, o, memory);
        HandOver(views[i], c.coins, o, views[i]);
        caches := caches[i := Cache(c.coins - {o}, c.usage - memory(c.coins[o].coin.script))];
      }
    }

    /** A new cache above the current top: its entries are empty, so it shows what its base shows. */
    method Push()
      requires Valid()
      modifies this
      ensures Valid() && db == old(db) && views == SpecStep(old(views), Op.Push)
      ensures caches == old(caches) + [EMPTY_CACHE]
    {
      caches := caches + [EMPTY_CACHE];
      views := views + [views[|views| - 1]];
      EmptyOverlay(views[|views| - 1]);
    }

    /** The top cache is destroyed without a flush: its changes are forgotten. */
    method Drop()
      requires Valid() && |caches| > 0
      modifies this
      ensures Valid() && db == old(db) && views == SpecStep(old(views), Op.Drop)
      ensures caches == old(caches)[..|old(caches)| - 1]
    {
      caches := caches[..|caches| - 1];
      views := views[..|views| - 1];
    }

    /** BatchWrite of a cache: merges the child's DIRTY entries into this one, in whatever order the
        child's map is walked. The throw is guarded by the assertion in the loop. */
    method BatchWriteCache(ghost grand: CoinMap, us: Cache, child: EntryMap) returns (merged: Cache)
      requires CacheOk(grand, us, memory) && Sound(Overlay(grand, us.coins), child)
      ensures CacheOk(grand, merged, memory)
      ensures Overlay(grand, merged.coins) == Overlay(Overlay(grand, us.coins), child)
    {
      hide Overlay, TotalUsage, Merge;
      merged := us;
      var mapCoins := child;
      while mapCoins != map[]
        invariant CacheOk(grand, merged, memory)
        invariant Sound(Overlay(grand, merged.coins), mapCoins)
        invariant Overlay(Overlay(grand, merged.coins), mapCoins) == Overlay(Overlay(grand, us.coins), child)
        decreases |mapCoins|
      {
        var o :| o in mapCoins;
        var e := mapCoins[o];
        MergeStep(grand, merged.coins, mapCoins, o, if e.isDirty then Merge(merged.coins, o, e) else merged.coins);
        if e.isDirty {
          assert !Misapplied(merged.coins, o, e);
          merged := MergeEntry(merged, o, e);
        }
        mapCoins := mapCoins - {o};
      }
      EmptyOverlay(Overlay(grand, merged.coins));
    }

    /** One iteration of BatchWrite, with its memory accounting. */
    method MergeEntry(us: Cache, o: OutPoint, e: Entry) returns (r: Cache)
      requires us.usage == TotalUsage(us.coins, memory)
      ensures r.coins == Merge(us.coins, o, e) && r.usage == TotalUsage(r.coins, memory)
    {
      var coins, usage := us.coins, us.usage;
      if o !in coins {
        if !(e.isFresh && e.coin.IsSpent()) {
          TotalUsagePut(coins, o, Entry(e.coin, true, e.isFresh), memory);
          coins := coins[o := Entry(e.coin, true, false)];
          usage := usage + memory(e.coin.script);
          if e.isFresh {
            coins := coins[o := coins[o].(isFresh := true)];
          }
        }
      } else if coins[o].isFresh && e.coin.IsSpent() {
        TotalUsageSplit(coins, o, memory);
        usage := usage - memory(coins[o].coin.script);
        coins := coins - {o};
      } else {
        TotalUsagePut(coins, o, Entry(e.coin, true, coins[o].isFresh), memory);
        usage := usage - memory(coins[o].coin.script);
        coins := coins[o := coins[o].(coin := e.coin)];
        usage := usage + memory(coins[o].coin.script);
        coins := coins[o := coins[o].(isDirty := true)];
      }
      r := Cache(coins, usage);
    }

    /** CCoinsViewDB::BatchWrite: erases DIRTY spent coins and writes DIRTY unspent ones. */
    method BatchWriteDb(child: EntryMap)
      requires Sound(db, child)
      modifies this`db
      ensures db == Overlay(old(db), child)
    {
      var mapCoins := child;
      while mapCoins != map[]
        invariant Sound(db, mapCoins) && Overlay(db, mapCoins) == Overlay(old(db), child)
        decreases |mapCoins|
      {
        var o :| o in mapCoins;
        var e := mapCoins[o];
        ghost var parent := db;
        if e.isDirty {
          db := if e.coin.IsSpent() then db - {o} else db[o := e.coin];
        }
        HandOver(parent, mapCoins, o, db);
        mapCoins := mapCoins - {o};
      }
      EmptyOverlay(db);
    }

    /** After a flush the parent and the emptied child both show what the child showed. */
    method Flush(level: nat)
      requires Valid() && 0 < level <= |caches|
      modifies this
      ensures Valid() && |caches| == |old(caches)| && caches[level - 1] == EMPTY_CACHE
      ensures views == SpecStep(old(views), Op.Flush(level))
    {
      hide Overlay, Sound, NoneSpent;
      var i := level - 1;
      var child := caches[i].coins;
      ghost var shown := views[level];
      assert Overlay(views[i], child) == shown;
      if i == 0 {
        BatchWriteDb(child);
      } else {
        assert Overlay(views[i - 1], caches[i - 1].coins) == views[i];
        var merged := BatchWriteCache(views[i - 1], caches[i - 1], child);
        caches := caches[i - 1 := merged];
      }
      caches := caches[i := EMPTY_CACHE];
      views := views[i := shown];
      EmptyOverlay(shown);
    }

    method Perform(op: Op)
      requires Valid() && Legal(views, op)
      modifies this
      ensures Valid() && views == SpecStep(old(views), op)
    {
      match op
      case Fetch(level, o) => var _, _ := GetCoin(level, o);
      case Add(o, coin, overwrite) => var _ := AddCoin(o, coin, overwrite);
      case Spend(o) => var _, _ := SpendCoin(o);
      case Uncache(level, o) => Uncache(level, o);
      case Flush(level) => Flush(level);
      case Push => Push();
      case Drop => Drop();
    }

    /** Any legal run on any stack refines the plain maps, level by level. */
    method Run(ops: seq<Op>)
      requires Valid() && LegalRun(views, ops)
      modifies this
      ensures Valid() && views == SpecRun(old(views), ops)
      decreases |ops|
    {
      if ops != [] {
        Perform(ops[0]);
        Run(ops[1..]);
      }
    }

    /** True exactly when every input is an unspent coin of the top view. */
    method HaveInputs(isCoinBase: bool, prevouts: seq<OutPoint>) returns (have: bool)
      requires Valid() && |caches| > 0
      modifies this
      ensures Valid() && db == old(db) && |caches| == |old(caches)| && views == old(views)
      ensures have <==> isCoinBase || forall p | p in prevouts :: p in views[|caches|]
    {
      if !isCoinBase {
        for i := 0 to |prevouts|
          invariant Valid() && db == old(db) && |caches| == |old(caches)| && views == old(views)
          invariant forall j | 0 <= j < i :: prevouts[j] in views[|caches|]
        {
          var found, _ := GetCoin(|caches|, prevouts[i]);
          if !found {
            return false;
          }
        }
      }
      return true;
    }

    /** Sums what AccessCoin returns; an input that is not in the view counts as the empty coin's -1. */
    method GetValueIn(isCoinBase: bool, prevouts: seq<OutPoint>) returns (total: int)
      requires Valid() && |caches| > 0
      modifies this
      ensures Valid() && db == old(db) && |caches| == |old(caches)| && views == old(views)
      ensures total == if isCoinBase then 0 else ValueOf(views[|caches|], prevouts)
    {
      total := 0;
      if isCoinBase {
        return;
      }
      for i := 0 to |prevouts|
        invariant Valid() && db == old(db) && |caches| == |old(caches)| && views == old(views)
        invariant total == ValueOf(views[|caches|], prevouts[..i])
      {
        var coin := AccessCoin(prevouts[i]);
        total := total + coin.value;
        assert prevouts[..i + 1][..i] == prevouts[..i];
      }
      assert prevouts[..|prevouts|] == prevouts;
    }
  }
}
