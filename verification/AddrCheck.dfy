/**
  The address manager's own consistency check (Check_ in src/addrman.cpp), which is compiled for
  debugging only, against the invariant that every operation keeps.
 */
module AddrCheck {
  import opened AddrBook
  import opened AddrMan

  /** Every entry is counted once, as tried or as new. */
  lemma CountsAddUp(k: Book, ports: bool, h: Hashing)
    requires Consistent(k, ports, h, {}, {})
    ensures |k.random| == k.nTried + k.nNew
  {
    hide AddrOk, TriedOk, NewOk, TimesOk, TriedIds, FreshIds;
    EntriesTwoKinds(k.infos);
  }

  // ---------------------------------------------------------------- looking an entry up by its full address

  /** What `mapAddr[a]` evaluates to: 0 for a key that is not there. */
  function Subscript(addrs: map<Service, nat>, a: Service): nat {
    if a in addrs then addrs[a] else 0
  }

  /** What `mapAddr[a]` leaves: the key is entered. */
  function Subscripted(addrs: map<Service, nat>, a: Service): map<Service, nat> {
    if a in addrs then addrs else addrs[a := 0]
  }

  /**
    Check_ subscripts the map with an entry's full address, port included.  That yields the
    entry's id exactly when ports are told apart, the port is 0 or the id is 0, and it leaves
    the map consistent exactly when ports are told apart or the port is 0.
   */
  lemma LiteralLookup(k: Book, ports: bool, h: Hashing, id: nat)
    requires Consistent(k, ports, h, {}, {}) && id in k.infos
    ensures var a := k.infos[id].addr;
            && (Subscript(k.addrs, a) == id <==> ports || a.port == 0 || id == 0)
            && (Subscripted(k.addrs, a) == k.addrs <==> ports || a.port == 0)
            && (AddrOk(k.infos, Subscripted(k.addrs, a), ports) <==> ports || a.port == 0)
  {
    hide IndexOk, TriedOk, NewOk, CountOk, TimesOk;
    var a := k.infos[id].addr;
    if a in k.addrs {
      assert Norm(ports, k.infos[k.addrs[a]].addr) == a;
    } else {
      var entered := Subscripted(k.addrs, a);
      assert Norm(ports, a) in k.addrs && Norm(ports, a) != a;
      assert a in entered && entered[a] == 0;
      assert 0 in k.infos ==> Norm(ports, k.infos[0].addr) != a;
    }
  }

  /** An entry is in the new slots that its reference count says, and in no tried slot, or the reverse. */
  lemma OneTableEach(k: Book, ports: bool, h: Hashing, id: nat)
    requires Consistent(k, ports, h, {}, {}) && id in k.infos
    ensures (exists s <- k.triedAt :: k.triedAt[s] == id) <==> k.infos[id].inTried
    ensures (exists s <- k.newAt :: k.newAt[s] == id) <==> !k.infos[id].inTried
  {
    hide IndexOk, AddrOk, TimesOk, TriedIds, FreshIds, Homes;
    if k.infos[id].inTried {
      assert TriedSlot(h, k.infos[id].addr) in k.triedAt;
      NowhereNew(k.infos, k.newAt, h, id);
    } else {
      FreshRefs(k.infos, k.nTried, k.nNew, id);
      var b := SomewhereNew(k.infos, k.newAt, h, id);
    }
  }

  // ---------------------------------------------------------------- the entries

  /** The tests on one entry, in order; `found` is what the map of addresses yields for it. */
  function EntryCode(info: Info, n: nat, found: nat, random: seq<nat>): int {
    if info.inTried && info.lastSuccess == 0 then -1
    else if info.inTried && info.refCount != 0 then -2
    else if !info.inTried && (info.refCount < 0 || info.refCount > MAX_REFERENCES) then -3
    else if !info.inTried && info.refCount == 0 then -4
    else if found != n then -5
    else if info.randomPos < 0 || info.randomPos >= |random| || random[info.randomPos] != n then -14
    else if info.lastTry < 0 then -6
    else if info.lastSuccess < 0 then -8
    else 0
  }

  /** An entry in order: its times, its references, its address and its place. */
  ghost predicate EntryOk(info: Info, n: nat, found: nat, random: seq<nat>) {
    && Timely(info)
    && (if info.inTried then info.refCount == 0 else 0 < info.refCount <= 8)
    && found == n
    && 0 <= info.randomPos < |random| && random[info.randomPos] == n
  }

  /** The result is 0 exactly for an entry in order; -5 and -14 blame the address and the place, the others flags, references and times. */
  lemma EntryCodeExact(info: Info, n: nat, found: nat, random: seq<nat>)
    ensures var code := EntryCode(info, n, found, random);
            && (code == 0 <==> EntryOk(info, n, found, random))
            && (code in {-1, -2} ==> info.inTried) && (code in {-3, -4} ==> !info.inTried)
            && (code in {-2, -3} ==> info.refCount != 0) && (code == -4 ==> info.refCount == 0)
            && (code == -5 ==> found != n)
            && (code == -14 ==> found == n && (0 <= info.randomPos < |random| ==> random[info.randomPos] != n))
            && (code in {-1, -6, -8} ==> !Timely(info)) && (code == -6 ==> info.lastTry < 0) && (code == -8 ==> info.lastSuccess < 0)
            && code in {0, -1, -2, -3, -4, -5, -6, -8, -14}
  {
  }

  /** Of a consistent manager's entries only those with odd times or an unlucky address fail. */
  lemma ConsistentEntry(k: Book, ports: bool, h: Hashing, id: nat, found: nat)
    requires Consistent(k, ports, h, {}, {}) && id in k.infos
    ensures var code := EntryCode(k.infos[id], id, found, k.random);
            && code in {0, -1, -5, -6, -8}
            && (code == 0 <==> Timely(k.infos[id]) && found == id)
            && (Timely(k.infos[id]) ==> code == if found == id then 0 else -5)
  {
    hide IndexOk, AddrOk, TriedOk, NewOk, CountOk, TimesOk;
    PlaceKnown(k.infos, k.random, id);
    if k.infos[id].inTried {
      TriedRefs(k.infos, k.nTried, k.nNew, id);
    } else {
      FreshRefs(k.infos, k.nTried, k.nNew, id);
    }
  }

  lemma TriedRefs(infos: Infos, nTried: int, nNew: int, id: nat)
    requires CountOk(infos, nTried, nNew, {}, {}) && id in infos && infos[id].inTried
    ensures infos[id].refCount == 0
  {
    hide TriedIds, FreshIds;
  }

  /** The subscript of this entry's address yields its id. */
  predicate Lucky(info: Info, id: nat, ports: bool) {
    ports || info.addr.port == 0 || id == 0
  }

  ghost predicate AllTimely(infos: Infos) {
    forall id <- infos :: Timely(infos[id])
  }

  ghost predicate AllLucky(infos: Infos, ports: bool) {
    forall id <- infos :: Lucky(infos[id], id, ports)
  }

  ghost predicate AllFound(infos: Infos, addrs: map<Service, nat>) {
    forall id <- infos :: Subscript(addrs, infos[id].addr) == id
  }

  /** Every entry but these is in order. */
  ghost predicate EntriesOk(infos: Infos, addrs: map<Service, nat>, random: seq<nat>, todo: set<nat>) {
    forall id <- infos :: id !in todo ==> EntryOk(infos[id], id, Subscript(addrs, infos[id].addr), random)
  }

  /** The tests on some entry have this result. */
  ghost predicate SomeCode(infos: Infos, addrs: map<Service, nat>, random: seq<nat>, code: int) {
    exists id <- infos :: EntryCode(infos[id], id, Subscript(addrs, infos[id].addr), random) == code
  }

  lemma EntryNext(infos: Infos, addrs: map<Service, nat>, random: seq<nat>, todo: set<nat>, id: nat)
    requires EntriesOk(infos, addrs, random, todo) && id in todo && id in infos
    ensures var code := EntryCode(infos[id], id, Subscript(addrs, infos[id].addr), random);
            && SomeCode(infos, addrs, random, code)
            && (code == 0 ==> EntriesOk(infos, addrs, random, todo - {id}))
            && (code != 0 ==> !EntriesOk(infos, addrs, random, {}))
  {
    hide EntryOk, EntryCode, Subscript;
    EntryCodeExact(infos[id], id, Subscript(addrs, infos[id].addr), random);
  }

  /** No entry's full address differs from its key. */
  ghost predicate AllPlain(infos: Infos, ports: bool) {
    forall id <- infos :: ports || infos[id].addr.port == 0
  }

  /** The map after the addresses of these entries have been looked up: missing keys are entered, with 0. */
  ghost predicate LookedUp(infos: Infos, addrs: map<Service, nat>, now: map<Service, nat>, seen: set<nat>) {
    && (forall a <- now :: now[a] == Subscript(addrs, a))
    && now.Keys == addrs.Keys + (set id | id in infos && id in seen :: infos[id].addr)
  }

  lemma LookNext(infos: Infos, addrs: map<Service, nat>, now: map<Service, nat>, seen: set<nat>, id: nat)
    requires LookedUp(infos, addrs, now, seen) && id in infos
    ensures Subscript(now, infos[id].addr) == Subscript(addrs, infos[id].addr)
    ensures LookedUp(infos, addrs, Subscripted(now, infos[id].addr), seen + {id})
  {
    var a := infos[id].addr;
    assert (set j | j in infos && j in seen + {id} :: infos[j].addr)
        == (set j | j in infos && j in seen :: infos[j].addr) + {a};
  }

  /** What the walk over the entries has collected: the tried ones, and the new ones with their references. */
  ghost predicate Sorted(infos: Infos, todo: set<nat>, tried: set<nat>, counted: map<nat, int>) {
    && tried == TriedIds(infos) - todo
    && counted.Keys == FreshIds(infos) - todo
    && forall id <- counted :: id in infos && counted[id] == infos[id].refCount
  }

  lemma SortNext(infos: Infos, todo: set<nat>, tried: set<nat>, counted: map<nat, int>, id: nat)
    requires Sorted(infos, todo, tried, counted) && id in todo && id in infos
    ensures infos[id].inTried ==> Sorted(infos, todo - {id}, tried + {id}, counted)
    ensures !infos[id].inTried ==> Sorted(infos, todo - {id}, tried, counted[id := infos[id].refCount])
  {
    if infos[id].inTried {
      assert TriedIds(infos) - (todo - {id}) == tried + {id};
      assert FreshIds(infos) - (todo - {id}) == counted.Keys;
    } else {
      assert TriedIds(infos) - (todo - {id}) == tried;
      assert FreshIds(infos) - (todo - {id}) == counted.Keys + {id};
    }
  }

  /** The walk over the entries with those in `todo` to come. */
  ghost predicate Walked(infos: Infos, addrs: map<Service, nat>, random: seq<nat>, now: map<Service, nat>, todo: set<nat>,
                         tried: set<nat>, counted: map<nat, int>)
  {
    && EntriesOk(infos, addrs, random, todo)
    && LookedUp(infos, addrs, now, infos.Keys - todo)
    && Sorted(infos, todo, tried, counted)
  }

  lemma WalkStart(infos: Infos, addrs: map<Service, nat>, random: seq<nat>)
    ensures Walked(infos, addrs, random, addrs, infos.Keys, {}, map[])
  {
    assert TriedIds(infos) - infos.Keys == {} && FreshIds(infos) - infos.Keys == {};
    assert (set id | id in infos && id in infos.Keys - infos.Keys :: infos[id].addr) == {};
  }

  lemma WalkNext(infos: Infos, addrs: map<Service, nat>, random: seq<nat>, now: map<Service, nat>, todo: set<nat>,
                 tried: set<nat>, counted: map<nat, int>, id: nat)
    requires Walked(infos, addrs, random, now, todo, tried, counted) && id in todo && id in infos
    ensures var info := infos[id];
            var code := EntryCode(info, id, Subscript(now, info.addr), random);
            var now' := Subscripted(now, info.addr);
            && LookedUp(infos, addrs, now', infos.Keys - todo + {id})
            && (code != 0 ==> !EntriesOk(infos, addrs, random, {}) && SomeCode(infos, addrs, random, code))
            && (code == 0 && info.inTried ==> Walked(infos, addrs, random, now', todo - {id}, tried + {id}, counted))
            && (code == 0 && !info.inTried ==>
                  Walked(infos, addrs, random, now', todo - {id}, tried, counted[id := info.refCount]))
  {
    hide EntriesOk, LookedUp, Sorted, SomeCode, EntryCode, Subscript, Subscripted;
    LookNext(infos, addrs, now, infos.Keys - todo, id);
    SortNext(infos, todo, tried, counted, id);
    EntryNext(infos, addrs, random, todo, id);
    assert infos.Keys - todo + {id} == infos.Keys - (todo - {id});
  }

  lemma WalkEnd(infos: Infos, addrs: map<Service, nat>, random: seq<nat>, now: map<Service, nat>,
                tried: set<nat>, counted: map<nat, int>)
    requires Walked(infos, addrs, random, now, {}, tried, counted)
    ensures EntriesOk(infos, addrs, random, {}) && LookedUp(infos, addrs, now, infos.Keys) && Sorted(infos, {}, tried, counted)
  {
    hide EntriesOk, LookedUp, Sorted;
    assert infos.Keys - {} == infos.Keys;
  }

  /** The walk over the entries, in any order: the result is the code of an entry that is not in order. */
  method CheckEntries(man: AddressManager) returns (code: int, tried: set<nat>, counted: map<nat, int>, ghost seen: set<nat>)
    modifies man`mapAddr
    ensures code == 0 <==> EntriesOk(man.mapInfo, old(man.mapAddr), man.random, {})
    ensures code != 0 ==> SomeCode(man.mapInfo, old(man.mapAddr), man.random, code)
    ensures code == 0 ==> Sorted(man.mapInfo, {}, tried, counted) && seen == man.mapInfo.Keys
    ensures LookedUp(man.mapInfo, old(man.mapAddr), man.mapAddr, seen)
  {
    hide Walked, Sorted, LookedUp, EntryCode, EntriesOk, SomeCode, Subscript, Subscripted;
    ghost var addrs := man.mapAddr;
    tried, counted, code := {}, map[], 0;
    var todo := man.mapInfo.Keys;
    WalkStart(man.mapInfo, addrs, man.random);
    while todo != {}
      invariant todo <= man.mapInfo.Keys && code == 0
      invariant Walked(man.mapInfo, addrs, man.random, man.mapAddr, todo, tried, counted)
      decreases |todo|
    {
      var n :| n in todo;
      var info := man.mapInfo[n];
      WalkNext(man.mapInfo, addrs, man.random, man.mapAddr, todo, tried, counted, n);
      code := EntryCode(info, n, Subscript(man.mapAddr, info.addr), man.random);
      man.mapAddr := Subscripted(man.mapAddr, info.addr);
      seen := man.mapInfo.Keys - todo + {n};
      if code != 0 {
        return;
      }
      if info.inTried {
        tried := tried + {n};
      } else {
        counted := counted[n := info.refCount];
      }
      todo := todo - {n};
    }
    WalkEnd(man.mapInfo, addrs, man.random, man.mapAddr, tried, counted);
    seen := man.mapInfo.Keys;
  }

  /** As many entries as places, each at its own, leave no place over. */
  lemma PlacesFill(infos: Infos, random: seq<nat>, p: nat)
    requires |infos| == |random| && p < |random|
    requires forall id <- infos :: 0 <= infos[id].randomPos < |random| && random[infos[id].randomPos] == id
    ensures random[p] in infos && infos[random[p]].randomPos == p
  {
    if random[p] !in infos || infos[random[p]].randomPos != p {
      var rest := random[..p] + random[p + 1..];
      forall id <- infos
        ensures id in rest
      {
        var q := infos[id].randomPos;
        assert rest[if q < p then q else q - 1] == id;
      }
      assert |infos| == |infos.Keys|;
      AtMostLength(rest, infos.Keys);
      assert false;
    }
  }

  lemma {:induction false} AtMostLength(s: seq<nat>, values: set<nat>)
    requires forall x <- values :: x in s
    ensures |values| <= |s|
  {
    if s != [] {
      AtMostLength(s[1..], values - {s[0]});
      assert values == values - {s[0]} + values * {s[0]};
      assert |values * {s[0]}| <= 1 by {
        assert values * {s[0]} <= {s[0]};
        assert values * {s[0]} == {} || values * {s[0]} == {s[0]};
      }
    }
  }

  lemma EntriesTwoKinds(infos: Infos)
    ensures |infos| == |TriedIds(infos)| + |FreshIds(infos)| && FreshIds(infos) - {} == FreshIds(infos)
  {
    assert TriedIds(infos) + FreshIds(infos) == infos.Keys;
    assert TriedIds(infos) * FreshIds(infos) == {};
    assert |infos| == |infos.Keys|;
  }

  /** The entries are in order exactly when these four hold of all of them. */
  lemma EntriesApart(infos: Infos, addrs: map<Service, nat>, random: seq<nat>)
    ensures EntriesOk(infos, addrs, random, {}) <==> AllTimely(infos) && AllFound(infos, addrs) && AllRefs(infos) && AllPlaces(infos, random)
  {
    hide Timely, Subscript;
  }

  ghost predicate AllRefs(infos: Infos) {
    forall id <- infos :: if infos[id].inTried then infos[id].refCount == 0 else 0 < infos[id].refCount <= 8
  }

  ghost predicate AllPlaces(infos: Infos, random: seq<nat>) {
    forall id <- infos :: 0 <= infos[id].randomPos < |random| && random[infos[id].randomPos] == id
  }

  lemma IndexMeans(infos: Infos, random: seq<nat>)
    ensures IndexOk(infos, random) <==> |infos| == |random| && AllPlaces(infos, random)
  {
    if |infos| == |random| && AllPlaces(infos, random) {
      forall p: nat | p < |random|
        ensures random[p] in infos && infos[random[p]].randomPos == p
      {
        PlacesFill(infos, random, p);
      }
    }
  }

  /** The tests on the entries and the three on the counters amount to these conditions of consistency. */
  lemma EntriesMean(k: Book)
    ensures && |k.random| == k.nTried + k.nNew && EntriesOk(k.infos, k.addrs, k.random, {})
            && |TriedIds(k.infos)| == k.nTried && |FreshIds(k.infos)| == k.nNew
            <==>
            && IndexOk(k.infos, k.random) && CountOk(k.infos, k.nTried, k.nNew, {}, {})
            && AllTimely(k.infos) && AllFound(k.infos, k.addrs)
  {
    hide AllTimely, AllFound, IndexOk, AllPlaces, EntriesOk, TriedIds, FreshIds;
    EntriesTwoKinds(k.infos);
    EntriesApart(k.infos, k.addrs, k.random);
    IndexMeans(k.infos, k.random);
    assert CountOk(k.infos, k.nTried, k.nNew, {}, {}) <==>
           |TriedIds(k.infos)| == k.nTried && |FreshIds(k.infos)| == k.nNew && AllRefs(k.infos);
  }

  // ---------------------------------------------------------------- the tables

  /** A walk over a table, bucket by bucket, has passed this slot when it is at position i of bucket n. */
  predicate Passed(s: Slot, n: nat, i: nat) {
    s.bucket < n || (s.bucket == n && s.pos < i)
  }

  /** The passed slots are in order, and `left` are the tried entries that none of them holds. */
  ghost predicate TriedSeen(infos: Infos, triedAt: Table, h: Hashing, left: set<nat>, n: nat, i: nat) {
    && (forall s <- triedAt :: Passed(s, n, i) ==>
          triedAt[s] in infos && infos[triedAt[s]].inTried && s == TriedSlot(h, infos[triedAt[s]].addr))
    && (forall id :: id in left <==>
          id in infos && infos[id].inTried && forall s <- triedAt :: Passed(s, n, i) ==> triedAt[s] != id)
  }

  lemma TriedWalk(infos: Infos, triedAt: Table, h: Hashing, left: set<nat>, n: nat, i: nat)
    requires TriedSeen(infos, triedAt, h, left, n, i)
    ensures var s := Slot(n, i);
            && (s !in triedAt ==> TriedSeen(infos, triedAt, h, left, n, i + 1))
            && (s in triedAt && triedAt[s] in left ==> triedAt[s] in infos)
            && (s in triedAt && triedAt[s] in left && TriedSlot(h, infos[triedAt[s]].addr) == s ==>
                  TriedSeen(infos, triedAt, h, left - {triedAt[s]}, n, i + 1))
            && (s in triedAt && !(triedAt[s] in left && TriedSlot(h, infos[triedAt[s]].addr) == s) ==>
                  !TriedOk(infos, triedAt, h))
  {
    hide TriedSlot;
  }

  lemma TriedRow(infos: Infos, triedAt: Table, h: Hashing, left: set<nat>, n: nat)
    requires forall s <- triedAt :: s.bucket < TRIED_BUCKETS && s.pos < BUCKET_SIZE
    ensures TriedSeen(infos, triedAt, h, TriedIds(infos), 0, 0)
    ensures TriedSeen(infos, triedAt, h, left, n, BUCKET_SIZE) ==> TriedSeen(infos, triedAt, h, left, n + 1, 0)
    ensures TriedSeen(infos, triedAt, h, left, TRIED_BUCKETS, 0) ==> (left == {} <==> TriedOk(infos, triedAt, h))
  {
    hide TriedSlot;
    if TriedSeen(infos, triedAt, h, left, TRIED_BUCKETS, 0) && !TriedOk(infos, triedAt, h) {
      var id :| id in infos && infos[id].inTried
                && !(TriedSlot(h, infos[id].addr) in triedAt && triedAt[TriedSlot(h, infos[id].addr)] == id);
      assert id in left;
    }
  }

  /** Some tried slot holds an entry whose bucket, or else whose position, is another. */
  ghost predicate Misplaced(infos: Infos, triedAt: Table, h: Hashing, bucket: bool) {
    exists s <- triedAt :: triedAt[s] in infos && Elsewhere(TriedSlot(h, infos[triedAt[s]].addr), s, bucket)
  }

  predicate Elsewhere(right: Slot, s: Slot, bucket: bool) {
    if bucket then right.bucket != s.bucket else right.bucket == s.bucket && right.pos != s.pos
  }

  lemma MisplacedAt(infos: Infos, triedAt: Table, h: Hashing, s: Slot)
    requires s in triedAt && triedAt[s] in infos
    ensures var right := TriedSlot(h, infos[triedAt[s]].addr);
            && (right.bucket != s.bucket ==> Misplaced(infos, triedAt, h, true))
            && (right.bucket == s.bucket && right.pos != s.pos ==> Misplaced(infos, triedAt, h, false))
  {
    hide TriedSlot;
    var right := TriedSlot(h, infos[triedAt[s]].addr);
    assert Elsewhere(right, s, true) || Elsewhere(right, s, false) || right == s;
  }

  /** Some tried entry is in no slot. */
  ghost predicate Unheld(infos: Infos, triedAt: Table) {
    exists id <- infos :: infos[id].inTried && forall s <- triedAt :: triedAt[s] != id
  }

  lemma UnheldLeft(infos: Infos, triedAt: Table, h: Hashing, left: set<nat>)
    requires forall s <- triedAt :: s.bucket < TRIED_BUCKETS && s.pos < BUCKET_SIZE
    requires TriedSeen(infos, triedAt, h, left, TRIED_BUCKETS, 0) && left != {}
    ensures Unheld(infos, triedAt)
  {
    hide TriedSlot;
    var id :| id in left;
    assert id in infos && infos[id].inTried && forall s <- triedAt :: triedAt[s] != id;
  }

  /** The walk over the tried table passes and leaves nothing exactly when the table is in order. */
  method CheckTried(man: AddressManager, tried: set<nat>) returns (code: int, left: set<nat>)
    requires man.Backed() && tried == TriedIds(man.mapInfo)
    ensures code == 0 && left == {} <==> TriedOk(man.mapInfo, man.triedAt, man.h)
    ensures code in {0, -11, -17, -18}
    ensures code in {-17, -18} ==> Misplaced(man.mapInfo, man.triedAt, man.h, code == -17)
    ensures code == 0 && left != {} ==> Unheld(man.mapInfo, man.triedAt)
  {
    hide TriedOk, TriedSeen, Shows, Issued, TriedSlot, TriedIds, Misplaced, Unheld;
    left := tried;
    ShownWithin(man.vvTried, man.triedAt, TRIED_BUCKETS);
    TriedRow(man.mapInfo, man.triedAt, man.h, left, 0);
    for n := 0 to TRIED_BUCKETS
      invariant TriedSeen(man.mapInfo, man.triedAt, man.h, left, n, 0)
    {
      for i := 0 to BUCKET_SIZE
        invariant TriedSeen(man.mapInfo, man.triedAt, man.h, left, n, i)
      {
        TriedWalk(man.mapInfo, man.triedAt, man.h, left, n, i);
        var id := man.TriedAt(Slot(n, i));
        if id != -1 {
          if id !in left {
            return -11, left;
          }
          if TriedSlot(man.h, man.mapInfo[id].addr).bucket != n {
            MisplacedAt(man.mapInfo, man.triedAt, man.h, Slot(n, i));
            return -17, left;
          }
          if TriedSlot(man.h, man.mapInfo[id].addr).pos != i {
            MisplacedAt(man.mapInfo, man.triedAt, man.h, Slot(n, i));
            return -18, left;
          }
          left := left - {id};
        }
      }
      TriedRow(man.mapInfo, man.triedAt, man.h, left, n);
    }
    TriedRow(man.mapInfo, man.triedAt, man.h, left, 0);
    if left != {} {
      UnheldLeft(man.mapInfo, man.triedAt, man.h, left);
    }
    return 0, left;
  }

  lemma ShownWithin(t: array2<int>, m: Table, buckets: nat)
    requires Shows(t, m, buckets)
    ensures forall s <- m :: s.bucket < buckets && s.pos < BUCKET_SIZE
  {
  }

  /** The new buckets of an entry that have been passed. */
  ghost function HomesSeen(newAt: Table, h: Hashing, id: nat, a: Service, n: nat, i: nat): set<nat> {
    set b | b in Homes(newAt, h, id, a) && Passed(NewSlot(h, a, b), n, i)
  }

  /** The references of every new entry, and none of a tried one. */
  ghost predicate Counts(infos: Infos, counts: map<nat, int>) {
    && counts.Keys == FreshIds(infos)
    && (forall id <- counts :: id in infos && counts[id] == infos[id].refCount > 0)
    && (forall id <- infos :: id !in counts ==> infos[id].refCount == 0)
  }

  /** The passed slots are in order, and `left` holds what of the references has not been met. */
  ghost predicate NewSeen(infos: Infos, newAt: Table, h: Hashing, left: map<nat, int>, n: nat, i: nat) {
    && (forall s <- newAt :: Passed(s, n, i) ==> newAt[s] in infos && s == NewSlot(h, infos[newAt[s]].addr, s.bucket))
    && (forall id <- left :: id in infos)
    && (forall id <- infos :: Unmet(infos[id].refCount, |HomesSeen(newAt, h, id, infos[id].addr, n, i)|, left, id))
  }

  ghost predicate Unmet(refs: int, met: nat, left: map<nat, int>, id: nat) {
    met <= refs && (id in left <==> met < refs) && (id in left ==> left[id] == refs - met)
  }

  /** What counting down one reference leaves. */
  function Lowered(left: map<nat, int>, id: nat): map<nat, int>
    requires id in left
  {
    if left[id] - 1 == 0 then left - {id} else left[id := left[id] - 1]
  }

  lemma HomesWalk(newAt: Table, h: Hashing, id: nat, a: Service, n: nat, i: nat)
    requires n < NEW_BUCKETS
    ensures var s := Slot(n, i);
            if s in newAt && newAt[s] == id && s == NewSlot(h, a, n) then
              && n !in HomesSeen(newAt, h, id, a, n, i) && n in Homes(newAt, h, id, a)
              && HomesSeen(newAt, h, id, a, n, i + 1) == HomesSeen(newAt, h, id, a, n, i) + {n}
            else HomesSeen(newAt, h, id, a, n, i + 1) == HomesSeen(newAt, h, id, a, n, i)
  {
    forall b | b in HomesSeen(newAt, h, id, a, n, i + 1) && b !in HomesSeen(newAt, h, id, a, n, i)
      ensures b == n && NewSlot(h, a, n) == Slot(n, i)
    {
    }
  }

  /** The slot the walk is at is in order and one of its entry's references is left to meet. */
  ghost predicate SlotFine(infos: Infos, newAt: Table, h: Hashing, left: map<nat, int>, s: Slot)
    requires s in newAt
  {
    newAt[s] in left && newAt[s] in infos && s == NewSlot(h, infos[newAt[s]].addr, s.bucket)
  }

  lemma NewWalk(infos: Infos, newAt: Table, h: Hashing, left: map<nat, int>, n: nat, i: nat)
    requires NewSeen(infos, newAt, h, left, n, i) && n < NEW_BUCKETS
    ensures var s := Slot(n, i);
            && (s !in newAt ==> NewSeen(infos, newAt, h, left, n, i + 1))
            && (s in newAt && newAt[s] in left ==> newAt[s] in infos)
            && (s in newAt && SlotFine(infos, newAt, h, left, s) ==> NewSeen(infos, newAt, h, Lowered(left, newAt[s]), n, i + 1))
  {
    var s := Slot(n, i);
    if s !in newAt || SlotFine(infos, newAt, h, left, s) {
      var after := if s in newAt then Lowered(left, newAt[s]) else left;
      forall id <- infos
        ensures Unmet(infos[id].refCount, |HomesSeen(newAt, h, id, infos[id].addr, n, i + 1)|, after, id)
      {
        HomesWalk(newAt, h, id, infos[id].addr, n, i);
        hide HomesSeen, Homes, NewSlot;
        assert Unmet(infos[id].refCount, |HomesSeen(newAt, h, id, infos[id].addr, n, i)|, left, id);
      }
    }
  }

  /** A slot that is not fine shows that the table is not in order. */
  lemma NewFault(infos: Infos, newAt: Table, h: Hashing, left: map<nat, int>, n: nat, i: nat)
    requires NewSeen(infos, newAt, h, left, n, i) && n < NEW_BUCKETS
    requires Slot(n, i) in newAt && !SlotFine(infos, newAt, h, left, Slot(n, i))
    ensures !NewOk(infos, newAt, h)
  {
    if NewOk(infos, newAt, h) {
      var s := Slot(n, i);
      var id := newAt[s];
      var a := infos[id].addr;
      SlotKnown(infos, newAt, h, s);
      assert Unmet(infos[id].refCount, |HomesSeen(newAt, h, id, a, n, i)|, left, id);
      HomesWalk(newAt, h, id, a, n, i);
      Fewer(HomesSeen(newAt, h, id, a, n, i), Homes(newAt, h, id, a), n);
      assert false;
    }
  }

  lemma Fewer(some: set<nat>, all: set<nat>, x: nat)
    requires some <= all && x in all && x !in some
    ensures |some| < |all|
  {
    var rest := all - some;
    assert all == some + rest && x in rest;
  }

  lemma HomesRow(newAt: Table, h: Hashing, id: nat, a: Service, n: nat)
    ensures HomesSeen(newAt, h, id, a, 0, 0) == {}
    ensures HomesSeen(newAt, h, id, a, n, BUCKET_SIZE) == HomesSeen(newAt, h, id, a, n + 1, 0)
    ensures HomesSeen(newAt, h, id, a, NEW_BUCKETS, 0) == Homes(newAt, h, id, a)
  {
  }

  lemma NewStart(infos: Infos, newAt: Table, h: Hashing, left: map<nat, int>)
    requires Counts(infos, left)
    ensures NewSeen(infos, newAt, h, left, 0, 0)
  {
    forall id <- infos
      ensures HomesSeen(newAt, h, id, infos[id].addr, 0, 0) == {}
    {
      HomesRow(newAt, h, id, infos[id].addr, 0);
    }
    hide HomesSeen, NewSlot;
  }

  lemma NewRow(infos: Infos, newAt: Table, h: Hashing, left: map<nat, int>, n: nat)
    requires NewSeen(infos, newAt, h, left, n, BUCKET_SIZE)
    requires forall s <- newAt :: s.bucket < NEW_BUCKETS && s.pos < BUCKET_SIZE
    ensures NewSeen(infos, newAt, h, left, n + 1, 0)
  {
    forall id <- infos
      ensures Unmet(infos[id].refCount, |HomesSeen(newAt, h, id, infos[id].addr, n + 1, 0)|, left, id)
    {
      HomesRow(newAt, h, id, infos[id].addr, n);
    }
    hide HomesSeen, NewSlot, Unmet;
  }

  lemma NewEnd(infos: Infos, newAt: Table, h: Hashing, left: map<nat, int>)
    requires NewSeen(infos, newAt, h, left, NEW_BUCKETS, 0)
    requires forall s <- newAt :: s.bucket < NEW_BUCKETS && s.pos < BUCKET_SIZE
    ensures left == map[] <==> NewOk(infos, newAt, h)
  {
    forall id <- infos
      ensures Unmet(infos[id].refCount, |Homes(newAt, h, id, infos[id].addr)|, left, id)
    {
      HomesRow(newAt, h, id, infos[id].addr, 0);
    }
    hide HomesSeen, Homes, NewSlot;
    if NewOk(infos, newAt, h) {
      assert left.Keys == {};
    }
  }

  /** The walk over the new table passes and leaves nothing exactly when the table is in order. */
  method CheckNew(man: AddressManager, counts: map<nat, int>) returns (code: int, left: map<nat, int>)
    requires man.Backed() && Counts(man.mapInfo, counts)
    ensures code == 0 && left == map[] <==> NewOk(man.mapInfo, man.newAt, man.h)
    ensures code in {0, -12, -19}
  {
    hide NewOk, NewSeen, Shows, Issued, NewSlot, Counts;
    left := counts;
    ShownWithin(man.vvNew, man.newAt, NEW_BUCKETS);
    NewStart(man.mapInfo, man.newAt, man.h, left);
    for n := 0 to NEW_BUCKETS
      invariant NewSeen(man.mapInfo, man.newAt, man.h, left, n, 0)
    {
      for i := 0 to BUCKET_SIZE
        invariant NewSeen(man.mapInfo, man.newAt, man.h, left, n, i)
      {
        NewWalk(man.mapInfo, man.newAt, man.h, left, n, i);
        var id := man.NewAt(Slot(n, i));
        if id != -1 {
          if id !in left {
            NewFault(man.mapInfo, man.newAt, man.h, left, n, i);
            return -12, left;
          }
          if NewSlot(man.h, man.mapInfo[id].addr, n).pos != i {
            NewFault(man.mapInfo, man.newAt, man.h, left, n, i);
            return -19, left;
          }
          if left[id] - 1 == 0 {
            left := left - {id};
          } else {
            left := left[id := left[id] - 1];
          }
        }
      }
      NewRow(man.mapInfo, man.newAt, man.h, left, n);
    }
    NewEnd(man.mapInfo, man.newAt, man.h, left);
    return 0, left;
  }

  // ---------------------------------------------------------------- the whole check

  /**
    What Check_ establishes: of consistency all but the map of addresses, whose every entry
    must be found by its full address.
   */
  ghost predicate Passes(k: Book, h: Hashing) {
    && IndexOk(k.infos, k.random) && CountOk(k.infos, k.nTried, k.nNew, {}, {})
    && TriedOk(k.infos, k.triedAt, h) && NewOk(k.infos, k.newAt, h)
    && AllTimely(k.infos) && AllFound(k.infos, k.addrs)
  }

  /**
    Check_ on any manager whatever: 0 exactly when it passes and the key is not null.  On a
    consistent one that is when every entry's times are in range and no entry but 0 has a port
    that is not told apart.
   */
  method Check(man: AddressManager, nullKey: bool) returns (code: int)
    requires man.Backed()
    modifies man`mapAddr
    ensures code == 0 <==> !nullKey && Passes(old(man.State()), man.h)
    ensures code == -7 <==> |man.random| != man.nTried + man.nNew
    ensures code == -16 <==> nullKey && Passes(old(man.State()), man.h)
    ensures code in {-1, -2, -3, -4, -5, -6, -8, -14} ==> SomeCode(man.mapInfo, old(man.mapAddr), man.random, code)
    ensures code == -9 ==> |TriedIds(man.mapInfo)| != man.nTried
    ensures code == -10 ==> |TriedIds(man.mapInfo)| == man.nTried && |FreshIds(man.mapInfo)| != man.nNew
    ensures code in {-11, -13, -17, -18} ==> !TriedOk(man.mapInfo, man.triedAt, man.h)
    ensures code in {-17, -18} ==> Misplaced(man.mapInfo, man.triedAt, man.h, code == -17)
    ensures code == -13 ==> Unheld(man.mapInfo, man.triedAt)
    ensures code in {-12, -15, -19} ==> !NewOk(man.mapInfo, man.newAt, man.h)
    ensures -19 <= code <= 0
    ensures old(man.Valid()) ==>
              && code in {0, -1, -5, -6, -8, -16}
              && (code == 0 <==> !nullKey && AllTimely(man.mapInfo) && AllLucky(man.mapInfo, man.ports))
              && (man.odd == {} ==> code == if !AllLucky(man.mapInfo, man.ports) then -5 else if nullKey then -16 else 0)
              && (AllPlain(man.mapInfo, man.ports) ==> man.mapAddr == old(man.mapAddr))
  {
    hide Consistent, Shows, Issued, IndexOk, CountOk, TriedOk, NewOk, AllTimely, AllFound, AllLucky, AllPlain, EntriesOk,
         Sorted, Counts, TriedIds, FreshIds, LookedUp, SomeCode, Misplaced, Unheld;
    ghost var k := man.State();
    EntriesMean(k);
    if Consistent(k, man.ports, man.h, {}, {}) {
      ConsistentCheck(k, man.ports, man.h);
    }
    if |man.random| != man.nTried + man.nNew {
      return -7;
    }
    var tried, counts;
    ghost var seen;
    code, tried, counts, seen := CheckEntries(man);
    if Consistent(k, man.ports, man.h, {}, {}) {
      PlainLookups(k, man.ports, man.h, man.mapAddr, seen);
    }
    if code != 0 {
      EntryCodeRange(k, code);
      return;
    }
    SortedCounts(k, tried, counts);
    if |tried| != man.nTried {
      return -9;
    }
    if |counts| != man.nNew {
      return -10;
    }
    var triedLeft, countsLeft;
    code, triedLeft := CheckTried(man, tried);
    if code != 0 {
      return;
    }
    code, countsLeft := CheckNew(man, counts);
    if code != 0 {
      return;
    }
    if |triedLeft| != 0 {
      return -13;
    }
    if |countsLeft| != 0 {
      return -15;
    }
    if nullKey {
      return -16;
    }
    return 0;
  }

  lemma EntryCodeRange(k: Book, code: int)
    requires SomeCode(k.infos, k.addrs, k.random, code)
    ensures code in {0, -1, -2, -3, -4, -5, -6, -8, -14}
  {
  }

  /** What the walk and the final result come to on a consistent manager. */
  lemma ConsistentCheck(k: Book, ports: bool, h: Hashing)
    requires Consistent(k, ports, h, {}, {})
    ensures Passes(k, h) <==> AllTimely(k.infos) && AllLucky(k.infos, ports)
    ensures AllFound(k.infos, k.addrs) <==> AllLucky(k.infos, ports)
    ensures |k.random| == k.nTried + k.nNew && |TriedIds(k.infos)| == k.nTried && |FreshIds(k.infos)| == k.nNew
    ensures TriedOk(k.infos, k.triedAt, h) && NewOk(k.infos, k.newAt, h)
    ensures k.odd == {} ==> AllTimely(k.infos)
    ensures forall code :: code != 0 && SomeCode(k.infos, k.addrs, k.random, code) ==> code in {-1, -5, -6, -8} && (AllTimely(k.infos) ==> code == -5)
  {
    assert k.odd == {} ==> AllTimely(k.infos);
    CountsAddUp(k, ports, h);
    EntriesTwoKinds(k.infos);
    hide IndexOk, AddrOk, TriedOk, NewOk, CountOk, TimesOk, EntryCode, Timely, Subscript, Lucky;
    forall id <- k.infos
      ensures Subscript(k.addrs, k.infos[id].addr) == id <==> Lucky(k.infos[id], id, ports)
    {
      LuckyFound(k, ports, h, id);
    }
    forall code | code != 0 && SomeCode(k.infos, k.addrs, k.random, code)
      ensures code in {-1, -5, -6, -8} && (AllTimely(k.infos) ==> code == -5)
    {
      var id :| id in k.infos && EntryCode(k.infos[id], id, Subscript(k.addrs, k.infos[id].addr), k.random) == code;
      ConsistentEntry(k, ports, h, id, Subscript(k.addrs, k.infos[id].addr));
    }
  }

  lemma LuckyFound(k: Book, ports: bool, h: Hashing, id: nat)
    requires Consistent(k, ports, h, {}, {}) && id in k.infos
    ensures Subscript(k.addrs, k.infos[id].addr) == id <==> Lucky(k.infos[id], id, ports)
  {
    hide Consistent, Subscript;
    LiteralLookup(k, ports, h, id);
  }

  lemma PlainLookups(k: Book, ports: bool, h: Hashing, now: map<Service, nat>, seen: set<nat>)
    requires Consistent(k, ports, h, {}, {}) && LookedUp(k.infos, k.addrs, now, seen)
    ensures AllPlain(k.infos, ports) ==> now == k.addrs
  {
    hide IndexOk, TriedOk, NewOk, CountOk, TimesOk;
    if AllPlain(k.infos, ports) {
      forall id <- k.infos
        ensures k.infos[id].addr in k.addrs
      {
        assert Norm(ports, k.infos[id].addr) == k.infos[id].addr;
      }
      assert now.Keys == k.addrs.Keys;
    }
  }

  lemma SortedCounts(k: Book, tried: set<nat>, counts: map<nat, int>)
    requires EntriesOk(k.infos, k.addrs, k.random, {}) && Sorted(k.infos, {}, tried, counts)
    ensures tried == TriedIds(k.infos) && |counts| == |FreshIds(k.infos)|
    ensures Counts(k.infos, counts)
  {
    hide Timely, Subscript;
    assert TriedIds(k.infos) - {} == TriedIds(k.infos) && FreshIds(k.infos) - {} == FreshIds(k.infos);
    assert |counts| == |counts.Keys|;
    forall id <- k.infos
      ensures if k.infos[id].inTried then k.infos[id].refCount == 0 else k.infos[id].refCount > 0 && id in counts
    {
      assert EntryOk(k.infos[id], id, Subscript(k.addrs, k.infos[id].addr), k.random);
    }
  }
}
