/**
  The address manager's structures as one value, its consistency invariant, and the
  elementary updates that src/addrman.cpp is made of.
 */
module AddrBook {

  const TRIED_BUCKETS: nat := 256
  const NEW_BUCKETS: nat := 1024
  const BUCKET_SIZE: nat := 64
  const MAX_REFERENCES: nat := 8

  type Ip = nat

  datatype Service = Service(ip: Ip, port: nat)

  datatype Info = Info(addr: Service, source: Ip, time: int, lastTry: int, lastCountAttempt: int,
                       lastSuccess: int, attempts: nat, refCount: int, inTried: bool, randomPos: int)

  datatype Slot = Slot(bucket: nat, pos: nat)

  /** The keyed hashes, before they are reduced to table sizes. */
  datatype Hashing = Hashing(tried: Service -> nat, untried: (Service, Ip) -> nat, position: (bool, nat, Service) -> nat)

  function TriedSlot(h: Hashing, a: Service): (s: Slot)
    ensures s.bucket < TRIED_BUCKETS && s.pos < BUCKET_SIZE
  {
    var b := h.tried(a) % TRIED_BUCKETS;
    Slot(b, h.position(false, b, a) % BUCKET_SIZE)
  }

  function NewBucket(h: Hashing, a: Service, source: Ip): (b: nat)
    ensures b < NEW_BUCKETS
  {
    h.untried(a, source) % NEW_BUCKETS
  }

  function NewSlot(h: Hashing, a: Service, b: nat): (s: Slot)
    ensures s.bucket == b && s.pos < BUCKET_SIZE
  {
    Slot(b, h.position(true, b, a) % BUCKET_SIZE)
  }

  /** Buckets and positions are the hashes' residues modulo 256 or 1024, and 64. */
  lemma SlotsAreResidues(h: Hashing, a: Service, source: Ip, b: nat)
    ensures exists q: nat :: h.tried(a) == q * 256 + TriedSlot(h, a).bucket
    ensures exists q: nat :: h.untried(a, source) == q * 1024 + NewBucket(h, a, source)
    ensures exists q: nat :: h.position(false, TriedSlot(h, a).bucket, a) == q * 64 + TriedSlot(h, a).pos
    ensures exists q: nat :: h.position(true, b, a) == q * 64 + NewSlot(h, a, b).pos
  {
    assert h.tried(a) == (h.tried(a) / 256) * 256 + TriedSlot(h, a).bucket;
    assert h.untried(a, source) == (h.untried(a, source) / 1024) * 1024 + NewBucket(h, a, source);
    var p := h.position(false, TriedSlot(h, a).bucket, a);
    assert p == (p / 64) * 64 + TriedSlot(h, a).pos;
    var n := h.position(true, b, a);
    assert n == (n / 64) * 64 + NewSlot(h, a, b).pos;
  }

  /** The key of an address: without its port unless ports are told apart. */
  function Norm(ports: bool, a: Service): (r: Service)
    ensures r.ip == a.ip && (r == a <==> ports || a.port == 0) && (!ports ==> r.port == 0)
  {
    if ports then a else a.(port := 0)
  }

  type Infos = map<nat, Info>
  type Table = map<Slot, nat>

  /** `odd` are the entries that have been given a time out of range; see `TimesOk`. */
  datatype Book = Book(infos: Infos, addrs: map<Service, nat>, random: seq<nat>,
                       triedAt: Table, newAt: Table, nTried: int, nNew: int, odd: set<nat>)

  // ---------------------------------------------------------------- the invariant

  /** vRandom is a permutation of the ids, and every entry knows its place in it. */
  ghost predicate IndexOk(infos: Infos, random: seq<nat>) {
    && |infos| == |random|
    && (forall id <- infos :: 0 <= infos[id].randomPos < |random| && random[infos[id].randomPos] == id)
    && (forall p: nat :: p < |random| ==> random[p] in infos && infos[random[p]].randomPos == p)
  }

  /** mapAddr is the inverse of the entries' normalised addresses. */
  ghost predicate AddrOk(infos: Infos, addrs: map<Service, nat>, ports: bool) {
    && (forall id <- infos :: Norm(ports, infos[id].addr) in addrs && addrs[Norm(ports, infos[id].addr)] == id)
    && (forall a <- addrs :: addrs[a] in infos && Norm(ports, infos[addrs[a]].addr) == a)
  }

  /** The tried table holds exactly the tried entries, each in its hashed slot. */
  ghost predicate TriedOk(infos: Infos, triedAt: Table, h: Hashing) {
    && (forall s <- triedAt :: triedAt[s] in infos && infos[triedAt[s]].inTried && s == TriedSlot(h, infos[triedAt[s]].addr))
    && (forall id <- infos :: infos[id].inTried ==>
          TriedSlot(h, infos[id].addr) in triedAt && triedAt[TriedSlot(h, infos[id].addr)] == id)
  }

  /** The new buckets that hold an entry. */
  ghost function Homes(newAt: Table, h: Hashing, id: nat, a: Service): set<nat> {
    set b: nat | b < NEW_BUCKETS && NewSlot(h, a, b) in newAt && newAt[NewSlot(h, a, b)] == id
  }

  /** New slots hold known entries at their hashed positions, and nRefCount counts them. */
  ghost predicate NewOk(infos: Infos, newAt: Table, h: Hashing) {
    && (forall s <- newAt :: s.bucket < NEW_BUCKETS && newAt[s] in infos && s == NewSlot(h, infos[newAt[s]].addr, s.bucket))
    && (forall id <- infos :: infos[id].refCount == |Homes(newAt, h, id, infos[id].addr)|)
  }

  ghost function TriedIds(infos: Infos): set<nat> {
    set id | id in infos && infos[id].inTried
  }

  ghost function FreshIds(infos: Infos): set<nat> {
    set id | id in infos && !infos[id].inTried
  }

  /**
    The counters.  Between the steps of an operation `loose` entries are counted neither as
    new nor as tried, and `spare` ones are counted as new without being in any bucket yet.
   */
  ghost predicate CountOk(infos: Infos, nTried: int, nNew: int, loose: set<nat>, spare: set<nat>) {
    && nTried == |TriedIds(infos)|
    && loose <= FreshIds(infos)
    && nNew == |FreshIds(infos) - loose|
    && (forall id <- infos :: infos[id].refCount <= MAX_REFERENCES)
    && (forall id <- infos :: infos[id].inTried || id in loose ==> infos[id].refCount == 0)
    && (forall id <- infos :: !infos[id].inTried && id !in loose && id !in spare ==> infos[id].refCount > 0)
  }

  /** No time is negative, and a tried entry has succeeded at some time. */
  predicate Timely(info: Info) {
    info.lastTry >= 0 && info.lastSuccess >= 0 && (info.inTried ==> info.lastSuccess > 0)
  }

  ghost predicate TimesOk(infos: Infos, odd: set<nat>) {
    forall id <- infos :: id !in odd ==> Timely(infos[id])
  }

  ghost predicate Consistent(k: Book, ports: bool, h: Hashing, loose: set<nat>, spare: set<nat>) {
    && IndexOk(k.infos, k.random)
    && AddrOk(k.infos, k.addrs, ports)
    && TriedOk(k.infos, k.triedAt, h)
    && NewOk(k.infos, k.newAt, h)
    && CountOk(k.infos, k.nTried, k.nNew, loose, spare)
    && TimesOk(k.infos, k.odd)
  }

  // ---------------------------------------------------------------- vRandom

  lemma IndexCreate(infos: Infos, random: seq<nat>, id: nat, info: Info)
    requires IndexOk(infos, random) && id !in infos && info.randomPos == |random|
    ensures IndexOk(infos[id := info], random + [id])
  {
    var infos' := infos[id := info];
    assert infos'.Keys == infos.Keys + {id};
    assert |infos'| == |infos'.Keys| && |infos| == |infos.Keys|;
  }

  function SwappedInfos(infos: Infos, random: seq<nat>, p: nat, q: nat): (r: Infos)
    requires p < |random| && q < |random| && random[p] in infos && random[q] in infos
    ensures r.Keys == infos.Keys
  {
    var first := infos[random[p] := infos[random[p]].(randomPos := q)];
    first[random[q] := first[random[q]].(randomPos := p)]
  }

  function SwappedRandom(random: seq<nat>, p: nat, q: nat): (r: seq<nat>)
    requires p < |random| && q < |random|
    ensures |r| == |random|
  {
    random[p := random[q]][q := random[p]]
  }

  lemma IndexSwap(infos: Infos, random: seq<nat>, p: nat, q: nat)
    requires IndexOk(infos, random) && p < |random| && q < |random| && p != q
    ensures IndexOk(SwappedInfos(infos, random, p, q), SwappedRandom(random, p, q))
  {
    var infos' := SwappedInfos(infos, random, p, q);
    var random' := SwappedRandom(random, p, q);
    SwapPlaces(infos, random, p, q);
    assert |infos'| == |infos'.Keys| && |infos| == |infos.Keys|;
    hide SwappedInfos, SwappedRandom;
    assert forall r: nat :: r < |random'| ==> random'[r] in infos;
  }

  lemma SwapPlaces(infos: Infos, random: seq<nat>, p: nat, q: nat)
    requires p < |random| && q < |random| && random[p] in infos && random[q] in infos && random[p] != random[q]
    ensures var infos' := SwappedInfos(infos, random, p, q);
            forall id <- infos ::
              infos'[id].randomPos == if id == random[p] then q else if id == random[q] then p else infos[id].randomPos
    ensures var random' := SwappedRandom(random, p, q);
            forall r: nat :: r < |random| ==> random'[r] == if r == p then random[q] else if r == q then random[p] else random[r]
  {
  }

  lemma IndexPop(infos: Infos, random: seq<nat>)
    requires IndexOk(infos, random) && |random| > 0
    ensures IndexOk(infos - {random[|random| - 1]}, random[..|random| - 1])
  {
    var id := random[|random| - 1];
    var infos' := infos - {id};
    assert infos'.Keys == infos.Keys - {id};
    assert |infos'| == |infos'.Keys| && |infos| == |infos.Keys|;
  }

  /** The same ids with the same places. */
  lemma IndexFrame(infos: Infos, infos': Infos, random: seq<nat>)
    requires IndexOk(infos, random) && infos'.Keys == infos.Keys
    requires forall id <- infos :: infos'[id].randomPos == infos[id].randomPos
    ensures IndexOk(infos', random)
  {
    assert |infos'| == |infos'.Keys| && |infos| == |infos.Keys|;
  }

  // ---------------------------------------------------------------- mapAddr

  lemma AddrCreate(infos: Infos, addrs: map<Service, nat>, ports: bool, id: nat, info: Info)
    requires AddrOk(infos, addrs, ports) && id !in infos && Norm(ports, info.addr) !in addrs
    ensures AddrOk(infos[id := info], addrs[Norm(ports, info.addr) := id], ports)
  {
  }

  lemma AddrDelete(infos: Infos, addrs: map<Service, nat>, ports: bool, id: nat)
    requires AddrOk(infos, addrs, ports) && id in infos
    ensures AddrOk(infos - {id}, addrs - {Norm(ports, infos[id].addr)}, ports)
  {
  }

  // ---------------------------------------------------------------- the tables

  lemma TriedPut(infos: Infos, triedAt: Table, h: Hashing, id: nat)
    requires TriedOk(infos, triedAt, h) && id in infos && !infos[id].inTried
    requires TriedSlot(h, infos[id].addr) !in triedAt
    ensures TriedOk(infos[id := infos[id].(inTried := true)], triedAt[TriedSlot(h, infos[id].addr) := id], h)
  {
  }

  lemma TriedTake(infos: Infos, triedAt: Table, h: Hashing, id: nat)
    requires TriedOk(infos, triedAt, h) && id in infos && infos[id].inTried
    ensures TriedOk(infos[id := infos[id].(inTried := false)], triedAt - {TriedSlot(h, infos[id].addr)}, h)
  {
  }

  lemma HomesPut(newAt: Table, h: Hashing, id: nat, a: Service, s: Slot, who: nat)
    requires s.bucket < NEW_BUCKETS && s !in newAt
    ensures Homes(newAt[s := who], h, id, a) ==
            if who == id && s == NewSlot(h, a, s.bucket) then Homes(newAt, h, id, a) + {s.bucket} else Homes(newAt, h, id, a)
  {
  }

  lemma HomesTake(newAt: Table, h: Hashing, id: nat, a: Service, s: Slot)
    requires s.bucket < NEW_BUCKETS && s in newAt
    ensures Homes(newAt - {s}, h, id, a) ==
            if newAt[s] == id && s == NewSlot(h, a, s.bucket) then Homes(newAt, h, id, a) - {s.bucket} else Homes(newAt, h, id, a)
  {
  }

  /** Entering an entry in a free new slot of its own. */
  lemma NewPut(infos: Infos, newAt: Table, h: Hashing, id: nat, b: nat)
    requires NewOk(infos, newAt, h) && id in infos && b < NEW_BUCKETS
    requires NewSlot(h, infos[id].addr, b) !in newAt
    ensures NewOk(infos[id := infos[id].(refCount := infos[id].refCount + 1)], newAt[NewSlot(h, infos[id].addr, b) := id], h)
  {
    hide Homes;
    var s := NewSlot(h, infos[id].addr, b);
    var infos' := infos[id := infos[id].(refCount := infos[id].refCount + 1)];
    forall j <- infos'
      ensures infos'[j].refCount == |Homes(newAt[s := id], h, j, infos'[j].addr)|
    {
      HomesPut(newAt, h, j, infos[j].addr, s, id);
      HomeIff(newAt, h, j, infos[j].addr, b);
    }
  }

  lemma HomeIff(newAt: Table, h: Hashing, id: nat, a: Service, b: nat)
    ensures b in Homes(newAt, h, id, a) <==> b < NEW_BUCKETS && NewSlot(h, a, b) in newAt && newAt[NewSlot(h, a, b)] == id
  {
  }

  /** Emptying a new slot. */
  lemma NewTake(infos: Infos, newAt: Table, h: Hashing, s: Slot)
    requires NewOk(infos, newAt, h) && s in newAt
    ensures var id := newAt[s];
            NewOk(infos[id := infos[id].(refCount := infos[id].refCount - 1)], newAt - {s}, h)
            && infos[id].refCount > 0
  {
    hide Homes;
    var id := newAt[s];
    var infos' := infos[id := infos[id].(refCount := infos[id].refCount - 1)];
    HomeIff(newAt, h, id, infos[id].addr, s.bucket);
    forall j <- infos'
      ensures infos'[j].refCount == |Homes(newAt - {s}, h, j, infos'[j].addr)|
    {
      HomesTake(newAt, h, j, infos[j].addr, s);
    }
    assert s.bucket in Homes(newAt, h, id, infos[id].addr);
  }

  /** An entry without references is in no slot. */
  lemma NowhereNew(infos: Infos, newAt: Table, h: Hashing, id: nat)
    requires NewOk(infos, newAt, h) && id in infos && infos[id].refCount == 0
    ensures forall s <- newAt :: newAt[s] != id
  {
    assert Homes(newAt, h, id, infos[id].addr) == {};
    forall s <- newAt
      ensures newAt[s] != id
    {
      HomeIff(newAt, h, id, infos[id].addr, s.bucket);
    }
  }

  lemma NewDelete(infos: Infos, newAt: Table, h: Hashing, id: nat)
    requires NewOk(infos, newAt, h) && id in infos && infos[id].refCount == 0
    ensures NewOk(infos - {id}, newAt, h)
  {
    NowhereNew(infos, newAt, h, id);
  }

  lemma NewCreate(infos: Infos, newAt: Table, h: Hashing, id: nat, info: Info)
    requires NewOk(infos, newAt, h) && id !in infos && info.refCount == 0
    ensures NewOk(infos[id := info], newAt, h)
  {
    assert Homes(newAt, h, id, info.addr) == {};
  }

  /** Some new bucket holds every entry that has references. */
  lemma SomewhereNew(infos: Infos, newAt: Table, h: Hashing, id: nat) returns (b: nat)
    requires NewOk(infos, newAt, h) && id in infos && infos[id].refCount > 0
    ensures b < NEW_BUCKETS && NewSlot(h, infos[id].addr, b) in newAt && newAt[NewSlot(h, infos[id].addr, b)] == id
  {
    var homes := Homes(newAt, h, id, infos[id].addr);
    assert homes != {};
    b :| b in homes;
  }

  // ---------------------------------------------------------------- what each part depends on

  lemma AddrFrame(infos: Infos, infos': Infos, addrs: map<Service, nat>, ports: bool)
    requires AddrOk(infos, addrs, ports) && infos'.Keys == infos.Keys
    requires forall id <- infos :: infos'[id].addr == infos[id].addr
    ensures AddrOk(infos', addrs, ports)
  {
    assert forall id <- infos' :: id in infos;
  }

  lemma TriedFrame(infos: Infos, infos': Infos, triedAt: Table, h: Hashing)
    requires TriedOk(infos, triedAt, h) && infos'.Keys == infos.Keys
    requires forall id <- infos :: infos'[id].addr == infos[id].addr && infos'[id].inTried == infos[id].inTried
    ensures TriedOk(infos', triedAt, h)
  {
    hide TriedSlot;
    assert forall id <- infos' :: id in infos;
  }

  lemma NewFrame(infos: Infos, infos': Infos, newAt: Table, h: Hashing)
    requires NewOk(infos, newAt, h) && infos'.Keys == infos.Keys
    requires forall id <- infos :: infos'[id].addr == infos[id].addr && infos'[id].refCount == infos[id].refCount
    ensures NewOk(infos', newAt, h)
  {
    hide Homes, NewSlot;
    assert forall id <- infos' :: id in infos;
  }

  lemma CountFrame(infos: Infos, infos': Infos, nTried: int, nNew: int, loose: set<nat>, spare: set<nat>)
    requires CountOk(infos, nTried, nNew, loose, spare) && infos'.Keys == infos.Keys
    requires forall id <- infos :: infos'[id].inTried == infos[id].inTried && infos'[id].refCount == infos[id].refCount
    ensures CountOk(infos', nTried, nNew, loose, spare)
  {
    assert forall id <- infos' :: id in infos;
    assert TriedIds(infos') == TriedIds(infos);
    assert FreshIds(infos') == FreshIds(infos);
  }

  /** Only the place in vRandom may differ. */
  ghost predicate SameButPlace(a: Info, b: Info) {
    a == b.(randomPos := a.randomPos)
  }

  ghost predicate Keeps(infos: Infos, infos': Infos, except: set<nat>) {
    forall id <- infos :: id !in except ==> id in infos' && SameButPlace(infos'[id], infos[id])
  }

  /** Nothing but vRandom depends on the entries' places in it. */
  lemma PlacesOnly(k: Book, infos': Infos, ports: bool, h: Hashing, loose: set<nat>, spare: set<nat>)
    requires Consistent(k, ports, h, loose, spare)
    requires infos'.Keys == k.infos.Keys && Keeps(k.infos, infos', {})
    ensures AddrOk(infos', k.addrs, ports) && TriedOk(infos', k.triedAt, h) && NewOk(infos', k.newAt, h)
    ensures CountOk(infos', k.nTried, k.nNew, loose, spare) && TimesOk(infos', k.odd)
  {
    hide IndexOk, AddrOk, TriedOk, NewOk, CountOk;
    assert forall id <- k.infos :: SameButPlace(infos'[id], k.infos[id]);
    AddrFrame(k.infos, infos', k.addrs, ports);
    TriedFrame(k.infos, infos', k.triedAt, h);
    NewFrame(k.infos, infos', k.newAt, h);
    CountFrame(k.infos, infos', k.nTried, k.nNew, loose, spare);
  }

  // ---------------------------------------------------------------- creating an entry

  function Created(k: Book, ports: bool, id: nat, info: Info): Book {
    k.(infos := k.infos[id := info], addrs := k.addrs[Norm(ports, info.addr) := id],
       random := k.random + [id], nNew := k.nNew + 1)
  }

  lemma TriedCreate(infos: Infos, triedAt: Table, h: Hashing, id: nat, info: Info)
    requires TriedOk(infos, triedAt, h) && id !in infos && !info.inTried
    ensures TriedOk(infos[id := info], triedAt, h)
  {
    hide TriedSlot;
  }

  lemma CountCreate(infos: Infos, nTried: int, nNew: int, id: nat, info: Info)
    requires CountOk(infos, nTried, nNew, {}, {}) && id !in infos && !info.inTried && info.refCount == 0
    ensures CountOk(infos[id := info], nTried, nNew + 1, {}, {id})
  {
    CreateIds(infos, id, info);
    hide TriedIds, FreshIds;
    var before, after := FreshIds(infos), FreshIds(infos[id := info]);
    assert after - {} == after && before - {} == before;
  }

  lemma CreateIds(infos: Infos, id: nat, info: Info)
    requires id !in infos && !info.inTried
    ensures TriedIds(infos[id := info]) == TriedIds(infos)
    ensures FreshIds(infos[id := info]) == FreshIds(infos) + {id} && id !in FreshIds(infos)
  {
  }

  lemma CreatedOk(k: Book, ports: bool, h: Hashing, id: nat, info: Info)
    requires Consistent(k, ports, h, {}, {}) && id !in k.infos && Norm(ports, info.addr) !in k.addrs
    requires info.refCount == 0 && !info.inTried && info.randomPos == |k.random| && info.lastTry >= 0 && info.lastSuccess >= 0
    ensures Consistent(Created(k, ports, id, info), ports, h, {}, {id})
  {
    hide IndexOk, AddrOk, TriedOk, NewOk, CountOk;
    IndexCreate(k.infos, k.random, id, info);
    AddrCreate(k.infos, k.addrs, ports, id, info);
    TriedCreate(k.infos, k.triedAt, h, id, info);
    NewCreate(k.infos, k.newAt, h, id, info);
    CountCreate(k.infos, k.nTried, k.nNew, id, info);
  }

  // ---------------------------------------------------------------- SwapRandom and Delete

  lemma RandomKnown(infos: Infos, random: seq<nat>, p: nat)
    requires IndexOk(infos, random) && p < |random|
    ensures random[p] in infos && infos[random[p]].randomPos == p
  {
  }

  lemma PlaceKnown(infos: Infos, random: seq<nat>, id: nat)
    requires IndexOk(infos, random) && id in infos
    ensures 0 <= infos[id].randomPos < |random| && random[infos[id].randomPos] == id
  {
  }

  ghost function Swapped(k: Book, p: nat, q: nat): Book
    requires p < |k.random| && q < |k.random| && IndexOk(k.infos, k.random)
  {
    if p == q then k
    else k.(infos := SwappedInfos(k.infos, k.random, p, q), random := SwappedRandom(k.random, p, q))
  }

  lemma SwappedOk(k: Book, ports: bool, h: Hashing, p: nat, q: nat, loose: set<nat>, spare: set<nat>)
    requires Consistent(k, ports, h, loose, spare) && p < |k.random| && q < |k.random|
    ensures Consistent(Swapped(k, p, q), ports, h, loose, spare)
    ensures Keeps(k.infos, Swapped(k, p, q).infos, {}) && Swapped(k, p, q).infos.Keys == k.infos.Keys
  {
    hide IndexOk, AddrOk, TriedOk, NewOk, CountOk, TimesOk;
    RandomKnown(k.infos, k.random, p);
    RandomKnown(k.infos, k.random, q);
    if p != q {
      IndexSwap(k.infos, k.random, p, q);
      SwapKeeps(k.infos, k.random, p, q);
      hide SwappedInfos, Keeps;
      PlacesOnly(k, SwappedInfos(k.infos, k.random, p, q), ports, h, loose, spare);
    }
  }

  lemma SwapKeeps(infos: Infos, random: seq<nat>, p: nat, q: nat)
    requires p < |random| && q < |random| && random[p] in infos && random[q] in infos
    ensures Keeps(infos, SwappedInfos(infos, random, p, q), {})
  {
  }

  lemma TriedDelete(infos: Infos, triedAt: Table, h: Hashing, id: nat)
    requires TriedOk(infos, triedAt, h) && id in infos && !infos[id].inTried
    ensures TriedOk(infos - {id}, triedAt, h)
  {
    hide TriedSlot;
  }

  lemma CountDelete(infos: Infos, nTried: int, nNew: int, loose: set<nat>, spare: set<nat>, id: nat)
    requires CountOk(infos, nTried, nNew, loose, spare) && id in infos && !infos[id].inTried && id !in loose
    ensures CountOk(infos - {id}, nTried, nNew - 1, loose, spare - {id})
  {
    var infos' := infos - {id};
    assert TriedIds(infos') == TriedIds(infos);
    assert FreshIds(infos') == FreshIds(infos) - {id};
    assert FreshIds(infos') - loose == (FreshIds(infos) - loose) - {id};
  }

  ghost function Deleted(k: Book, ports: bool, id: nat): Book
    requires id in k.infos && IndexOk(k.infos, k.random)
  {
    PlaceKnown(k.infos, k.random, id);
    var last := |k.random| - 1;
    var s := Swapped(k, k.infos[id].randomPos, last);
    s.(infos := s.infos - {id}, addrs := s.addrs - {Norm(ports, k.infos[id].addr)},
       random := s.random[..last], nNew := s.nNew - 1)
  }

  lemma DeletedOk(k: Book, ports: bool, h: Hashing, id: nat, loose: set<nat>, spare: set<nat>)
    requires Consistent(k, ports, h, loose, spare) && id in k.infos
    requires !k.infos[id].inTried && k.infos[id].refCount == 0 && id !in loose
    ensures Consistent(Deleted(k, ports, id), ports, h, loose, spare - {id})
    ensures Keeps(k.infos, Deleted(k, ports, id).infos, {id}) && Deleted(k, ports, id).infos.Keys == k.infos.Keys - {id}
  {
    hide IndexOk, AddrOk, TriedOk, NewOk, CountOk;
    PlaceKnown(k.infos, k.random, id);
    var last := |k.random| - 1;
    var place := k.infos[id].randomPos;
    SwappedOk(k, ports, h, place, last, loose, spare);
    var s := Swapped(k, place, last);
    SwapBrings(k, place, last);
    KeepsDelete(k.infos, s.infos, id, s.odd);
    hide Swapped, Keeps, TimesOk;
    IndexPop(s.infos, s.random);
    AddrDelete(s.infos, s.addrs, ports, id);
    TriedDelete(s.infos, s.triedAt, h, id);
    NewDelete(s.infos, s.newAt, h, id);
    CountDelete(s.infos, s.nTried, s.nNew, loose, spare, id);
  }

  lemma KeepsDelete(infos: Infos, infos': Infos, id: nat, odd: set<nat>)
    requires Keeps(infos, infos', {}) && id in infos && infos'.Keys == infos.Keys
    ensures SameButPlace(infos'[id], infos[id])
    ensures Keeps(infos, infos' - {id}, {id}) && (infos' - {id}).Keys == infos.Keys - {id}
    ensures TimesOk(infos', odd) ==> TimesOk(infos' - {id}, odd)
  {
  }

  lemma SwapBrings(k: Book, p: nat, q: nat)
    requires p < |k.random| && q < |k.random| && IndexOk(k.infos, k.random)
    ensures Swapped(k, p, q).random[q] == k.random[p] && |Swapped(k, p, q).random| == |k.random|
  {
  }

  // ---------------------------------------------------------------- changing one entry

  /** A change to one entry that leaves its address and its place in vRandom alone. */
  ghost predicate Rewrites(infos: Infos, id: nat, info: Info) {
    && id in infos && info.addr == infos[id].addr && info.source == infos[id].source
    && info.randomPos == infos[id].randomPos
  }

  lemma RewriteOk(infos: Infos, random: seq<nat>, addrs: map<Service, nat>, ports: bool, id: nat, info: Info)
    requires IndexOk(infos, random) && AddrOk(infos, addrs, ports) && Rewrites(infos, id, info)
    ensures IndexOk(infos[id := info], random) && AddrOk(infos[id := info], addrs, ports)
    ensures infos[id := info].Keys == infos.Keys && Keeps(infos, infos[id := info], {id})
  {
    hide IndexOk, AddrOk;
    assert infos[id := info].Keys == infos.Keys;
    IndexFrame(infos, infos[id := info], random);
    AddrFrame(infos, infos[id := info], addrs, ports);
  }

  /** New statistics for an entry, which counts as odd unless its times are in range. */
  lemma TouchedOk(k: Book, ports: bool, h: Hashing, id: nat, info: Info, odd: set<nat>, loose: set<nat>, spare: set<nat>)
    requires Consistent(k, ports, h, loose, spare) && Rewrites(k.infos, id, info)
    requires info.inTried == k.infos[id].inTried && info.refCount == k.infos[id].refCount
    requires k.odd <= odd + {id} && (id in odd || Timely(info))
    ensures Consistent(k.(infos := k.infos[id := info], odd := odd), ports, h, loose, spare)
  {
    hide IndexOk, AddrOk, TriedOk, NewOk, CountOk;
    RewriteOk(k.infos, k.random, k.addrs, ports, id, info);
    TriedFrame(k.infos, k.infos[id := info], k.triedAt, h);
    NewFrame(k.infos, k.infos[id := info], k.newAt, h);
    CountFrame(k.infos, k.infos[id := info], k.nTried, k.nNew, loose, spare);
  }

  lemma SameIds(infos: Infos, id: nat, info: Info)
    requires id in infos && info.inTried == infos[id].inTried
    ensures TriedIds(infos[id := info]) == TriedIds(infos) && FreshIds(infos[id := info]) == FreshIds(infos)
  {
  }

  // ---------------------------------------------------------------- references from the new table

  lemma SlotKnown(infos: Infos, newAt: Table, h: Hashing, s: Slot)
    requires NewOk(infos, newAt, h) && s in newAt
    ensures newAt[s] in infos && s.bucket < NEW_BUCKETS && s == NewSlot(h, infos[newAt[s]].addr, s.bucket)
  {
  }

  lemma RefsCounted(infos: Infos, newAt: Table, h: Hashing, id: nat)
    requires NewOk(infos, newAt, h) && id in infos
    ensures infos[id].refCount >= 0
  {
  }

  function Unref(k: Book, s: Slot): Book
    requires s in k.newAt && k.newAt[s] in k.infos
  {
    var id := k.newAt[s];
    k.(infos := k.infos[id := k.infos[id].(refCount := k.infos[id].refCount - 1)], newAt := k.newAt - {s})
  }

  lemma CountUnref(infos: Infos, nTried: int, nNew: int, loose: set<nat>, spare: set<nat>, id: nat)
    requires CountOk(infos, nTried, nNew, loose, spare) && id in infos && infos[id].refCount > 0
    ensures CountOk(infos[id := infos[id].(refCount := infos[id].refCount - 1)], nTried, nNew, loose, spare + {id})
    ensures !infos[id].inTried && id !in loose
  {
    SameIds(infos, id, infos[id].(refCount := infos[id].refCount - 1));
    hide TriedIds, FreshIds;
  }

  lemma UnrefOk(k: Book, ports: bool, h: Hashing, s: Slot, loose: set<nat>, spare: set<nat>)
    requires Consistent(k, ports, h, loose, spare) && s in k.newAt
    ensures var id := k.newAt[s];
            && id in k.infos && !k.infos[id].inTried && id !in loose && k.infos[id].refCount > 0
            && Consistent(Unref(k, s), ports, h, loose, spare + {id})
  {
    hide IndexOk, AddrOk, TriedOk, NewOk, CountOk;
    var id := k.newAt[s];
    SlotKnown(k.infos, k.newAt, h, s);
    var info := k.infos[id].(refCount := k.infos[id].refCount - 1);
    RewriteOk(k.infos, k.random, k.addrs, ports, id, info);
    TriedFrame(k.infos, k.infos[id := info], k.triedAt, h);
    NewTake(k.infos, k.newAt, h, s);
    CountUnref(k.infos, k.nTried, k.nNew, loose, spare, id);
  }

  function Ref(k: Book, h: Hashing, id: nat, b: nat): Book
    requires id in k.infos
  {
    k.(infos := k.infos[id := k.infos[id].(refCount := k.infos[id].refCount + 1)],
       newAt := k.newAt[NewSlot(h, k.infos[id].addr, b) := id])
  }

  lemma CountRef(infos: Infos, nTried: int, nNew: int, loose: set<nat>, spare: set<nat>, id: nat)
    requires CountOk(infos, nTried, nNew, loose, spare) && id in infos
    requires 0 <= infos[id].refCount < MAX_REFERENCES && !infos[id].inTried && id !in loose
    ensures CountOk(infos[id := infos[id].(refCount := infos[id].refCount + 1)], nTried, nNew, loose, spare - {id})
  {
    SameIds(infos, id, infos[id].(refCount := infos[id].refCount + 1));
    hide TriedIds, FreshIds;
  }

  lemma RefOk(k: Book, ports: bool, h: Hashing, id: nat, b: nat, loose: set<nat>, spare: set<nat>)
    requires Consistent(k, ports, h, loose, spare) && id in k.infos && b < NEW_BUCKETS
    requires NewSlot(h, k.infos[id].addr, b) !in k.newAt
    requires k.infos[id].refCount < MAX_REFERENCES && !k.infos[id].inTried && id !in loose
    ensures Consistent(Ref(k, h, id, b), ports, h, loose, spare - {id})
  {
    hide IndexOk, AddrOk, TriedOk, NewOk, CountOk;
    RefsCounted(k.infos, k.newAt, h, id);
    var info := k.infos[id].(refCount := k.infos[id].refCount + 1);
    RewriteOk(k.infos, k.random, k.addrs, ports, id, info);
    TriedFrame(k.infos, k.infos[id := info], k.triedAt, h);
    NewPut(k.infos, k.newAt, h, id, b);
    CountRef(k.infos, k.nTried, k.nNew, loose, spare, id);
  }

  /** ClearNew: empties a slot and deletes the entry when that was its last reference. */
  ghost function Cleared(k: Book, ports: bool, s: Slot): Book
    requires s in k.newAt ==> k.newAt[s] in k.infos && IndexOk(k.infos, k.random)
  {
    if s !in k.newAt then k
    else
      var id := k.newAt[s];
      var u := Unref(k, s);
      if u.infos[id].refCount != 0 then u
      else
        UnrefIndex(k, s);
        Deleted(u, ports, id)
  }

  lemma UnrefIndex(k: Book, s: Slot)
    requires s in k.newAt && k.newAt[s] in k.infos && IndexOk(k.infos, k.random)
    ensures IndexOk(Unref(k, s).infos, k.random)
  {
    IndexFrame(k.infos, Unref(k, s).infos, k.random);
  }

  /** Clearing a slot costs at most the entry that was in it. */
  lemma ClearedOk(k: Book, ports: bool, h: Hashing, s: Slot, loose: set<nat>, spare: set<nat>)
    requires Consistent(k, ports, h, loose, spare) && (s in k.newAt ==> k.newAt[s] !in spare)
    ensures s in k.newAt ==> k.newAt[s] in k.infos && !k.infos[k.newAt[s]].inTried && k.newAt[s] !in loose
    ensures var c := Cleared(k, ports, s);
            && Consistent(c, ports, h, loose, spare)
            && c.newAt == k.newAt - {s} && c.triedAt == k.triedAt && c.nTried == k.nTried && c.odd == k.odd
            && Keeps(k.infos, c.infos, if s in k.newAt then {k.newAt[s]} else {}) && c.infos.Keys <= k.infos.Keys
  {
    hide IndexOk, AddrOk, TriedOk, NewOk, CountOk, TimesOk, Keeps, Deleted;
    if s in k.newAt {
      var id := k.newAt[s];
      UnrefOk(k, ports, h, s, loose, spare);
      var u := Unref(k, s);
      KeepsEntry(k.infos, id, u.infos[id]);
      if u.infos[id].refCount == 0 {
        DeletedOk(u, ports, h, id, loose, spare + {id});
        assert spare + {id} - {id} == spare;
        DeletedRest(u, ports, id);
        KeepsTwice(k.infos, u.infos, Deleted(u, ports, id).infos, id);
      } else {
        SpareNoMore(u.infos, u.nTried, u.nNew, loose, spare, id);
      }
    } else {
      assert k.newAt - {s} == k.newAt;
      KeepsAll(k.infos);
    }
  }

  lemma KeepsEntry(infos: Infos, id: nat, info: Info)
    requires id in infos
    ensures Keeps(infos, infos[id := info], {id}) && infos[id := info].Keys == infos.Keys
  {
  }

  lemma KeepsAll(infos: Infos)
    ensures Keeps(infos, infos, {})
  {
  }

  lemma KeepsTwice(a: Infos, b: Infos, c: Infos, id: nat)
    requires Keeps(a, b, {id}) && Keeps(b, c, {id})
    ensures Keeps(a, c, {id})
  {
  }

  lemma DeletedRest(k: Book, ports: bool, id: nat)
    requires id in k.infos && IndexOk(k.infos, k.random)
    ensures var d := Deleted(k, ports, id); d.newAt == k.newAt && d.triedAt == k.triedAt && d.nTried == k.nTried && d.odd == k.odd
  {
    hide IndexOk;
  }

  /** An entry that has references need not be excused. */
  lemma SpareNoMore(infos: Infos, nTried: int, nNew: int, loose: set<nat>, spare: set<nat>, id: nat)
    requires CountOk(infos, nTried, nNew, loose, spare + {id}) && id in infos && infos[id].refCount > 0
    ensures CountOk(infos, nTried, nNew, loose, spare)
  {
  }

  // ---------------------------------------------------------------- between new and tried

  lemma DemotedOk(k: Book, ports: bool, h: Hashing, id: nat)
    requires Consistent(k, ports, h, {}, {id}) && id in k.infos && !k.infos[id].inTried && k.infos[id].refCount == 0
    ensures Consistent(k.(nNew := k.nNew - 1), ports, h, {id}, {})
  {
    hide IndexOk, AddrOk, TriedOk, NewOk, TimesOk, TriedIds;
    assert id in FreshIds(k.infos) - {};
    assert FreshIds(k.infos) - {id} == FreshIds(k.infos) - {} - {id};
  }

  lemma PromotedOk(k: Book, ports: bool, h: Hashing, loose: set<nat>, id: nat)
    requires Consistent(k, ports, h, loose, {}) && id in loose
    ensures Consistent(k.(nNew := k.nNew + 1), ports, h, loose - {id}, {id})
  {
    hide IndexOk, AddrOk, TriedOk, NewOk, TimesOk, TriedIds;
    assert id in FreshIds(k.infos) && FreshIds(k.infos) - (loose - {id}) == (FreshIds(k.infos) - loose) + {id};
  }

  function Tried(k: Book, h: Hashing, id: nat): Book
    requires id in k.infos
  {
    k.(infos := k.infos[id := k.infos[id].(inTried := true)],
       triedAt := k.triedAt[TriedSlot(h, k.infos[id].addr) := id], nTried := k.nTried + 1)
  }

  function Untried(k: Book, h: Hashing, id: nat): Book
    requires id in k.infos
  {
    k.(infos := k.infos[id := k.infos[id].(inTried := false)],
       triedAt := k.triedAt - {TriedSlot(h, k.infos[id].addr)}, nTried := k.nTried - 1)
  }

  lemma FlipIds(infos: Infos, id: nat, inTried: bool)
    requires id in infos
    ensures var infos' := infos[id := infos[id].(inTried := inTried)];
            && TriedIds(infos') == (if inTried then TriedIds(infos) + {id} else TriedIds(infos) - {id})
            && FreshIds(infos') == (if inTried then FreshIds(infos) - {id} else FreshIds(infos) + {id})
    ensures id in TriedIds(infos) <==> infos[id].inTried
    ensures id in FreshIds(infos) <==> !infos[id].inTried
  {
  }

  lemma CountTried(infos: Infos, nTried: int, nNew: int, loose: set<nat>, spare: set<nat>, id: nat)
    requires CountOk(infos, nTried, nNew, loose, spare) && id in infos && id in loose
    ensures CountOk(infos[id := infos[id].(inTried := true)], nTried + 1, nNew, loose - {id}, spare)
  {
    FlipIds(infos, id, true);
    assert (FreshIds(infos) - {id}) - (loose - {id}) == FreshIds(infos) - loose;
    hide TriedIds, FreshIds;
  }

  lemma CountUntried(infos: Infos, nTried: int, nNew: int, loose: set<nat>, spare: set<nat>, id: nat)
    requires CountOk(infos, nTried, nNew, loose, spare) && id in infos && infos[id].inTried
    ensures CountOk(infos[id := infos[id].(inTried := false)], nTried - 1, nNew, loose + {id}, spare)
  {
    FlipIds(infos, id, false);
    assert (FreshIds(infos) + {id}) - (loose + {id}) == FreshIds(infos) - loose;
    hide TriedIds, FreshIds;
  }

  lemma EnterTriedOk(k: Book, ports: bool, h: Hashing, id: nat, loose: set<nat>, spare: set<nat>)
    requires Consistent(k, ports, h, loose, spare) && id in k.infos && id in loose && !k.infos[id].inTried
    requires TriedSlot(h, k.infos[id].addr) !in k.triedAt && (id in k.odd || k.infos[id].lastSuccess > 0)
    ensures Consistent(Tried(k, h, id), ports, h, loose - {id}, spare)
  {
    hide IndexOk, AddrOk, TriedOk, NewOk, CountOk;
    var info := k.infos[id].(inTried := true);
    RewriteOk(k.infos, k.random, k.addrs, ports, id, info);
    TriedPut(k.infos, k.triedAt, h, id);
    NewFrame(k.infos, k.infos[id := info], k.newAt, h);
    CountTried(k.infos, k.nTried, k.nNew, loose, spare, id);
  }

  lemma LeaveTriedOk(k: Book, ports: bool, h: Hashing, id: nat, loose: set<nat>, spare: set<nat>)
    requires Consistent(k, ports, h, loose, spare) && id in k.infos && k.infos[id].inTried
    ensures Consistent(Untried(k, h, id), ports, h, loose + {id}, spare)
  {
    hide IndexOk, AddrOk, TriedOk, NewOk, CountOk;
    var info := k.infos[id].(inTried := false);
    RewriteOk(k.infos, k.random, k.addrs, ports, id, info);
    TriedTake(k.infos, k.triedAt, h, id);
    NewFrame(k.infos, k.infos[id := info], k.newAt, h);
    CountUntried(k.infos, k.nTried, k.nNew, loose, spare, id);
  }

  // ---------------------------------------------------------------- MakeTried

  /** Removing an entry from the first n new buckets. */
  function Emptied(k: Book, h: Hashing, id: nat, n: nat): (r: Book)
    requires id in k.infos
    ensures id in r.infos && r.infos.Keys == k.infos.Keys
    ensures r == k.(infos := r.infos, newAt := r.newAt)
    ensures r.infos == k.infos[id := k.infos[id].(refCount := r.infos[id].refCount)]
  {
    if n == 0 then k
    else
      var e := Emptied(k, h, id, n - 1);
      var s := NewSlot(h, k.infos[id].addr, n - 1);
      if s in e.newAt && e.newAt[s] == id then Unref(e, s) else e
  }

  lemma {:induction false} EmptiedOk(k: Book, ports: bool, h: Hashing, id: nat, n: nat)
    requires Consistent(k, ports, h, {}, {}) && id in k.infos && n <= NEW_BUCKETS
    ensures Consistent(Emptied(k, h, id, n), ports, h, {}, {id})
  {
    hide IndexOk, AddrOk, TriedOk, NewOk, CountOk, TimesOk, NewSlot;
    if n == 0 {
      Excuse(k.infos, k.nTried, k.nNew, {}, id);
    } else {
      EmptiedOk(k, ports, h, id, n - 1);
      EmptiedNext(k, h, id, n - 1);
      hide Emptied;
      var e := Emptied(k, h, id, n - 1);
      var s := NewSlot(h, k.infos[id].addr, n - 1);
      if s in e.newAt && e.newAt[s] == id {
        UnrefOk(e, ports, h, s, {}, {id});
        assert {id} + {id} == {id};
      }
    }
  }

  lemma EmptiedNext(k: Book, h: Hashing, id: nat, n: nat)
    requires id in k.infos
    ensures var e := Emptied(k, h, id, n);
            var s := NewSlot(h, k.infos[id].addr, n);
            Emptied(k, h, id, n + 1) == if s in e.newAt && e.newAt[s] == id then Unref(e, s) else e
  {
  }

  lemma Excuse(infos: Infos, nTried: int, nNew: int, loose: set<nat>, id: nat)
    requires CountOk(infos, nTried, nNew, loose, {})
    ensures CountOk(infos, nTried, nNew, loose, {id})
  {
    hide TriedIds, FreshIds;
  }

  lemma {:induction false} EmptiedSlots(k: Book, h: Hashing, id: nat, n: nat)
    requires id in k.infos
    ensures var newAt := Emptied(k, h, id, n).newAt;
            forall b: nat :: b < n && NewSlot(h, k.infos[id].addr, b) in newAt ==> newAt[NewSlot(h, k.infos[id].addr, b)] != id
  {
    hide Emptied, NewSlot;
    if n > 0 {
      EmptiedSlots(k, h, id, n - 1);
      EmptiedNext(k, h, id, n - 1);
      var e := Emptied(k, h, id, n - 1);
      var s := NewSlot(h, k.infos[id].addr, n - 1);
      assert Emptied(k, h, id, n).newAt == if s in e.newAt && e.newAt[s] == id then e.newAt - {s} else e.newAt;
    }
  }

  /** Removed from every new bucket, an entry has no references left. */
  lemma EmptiedAll(k: Book, ports: bool, h: Hashing, id: nat)
    requires Consistent(k, ports, h, {}, {}) && id in k.infos
    ensures Emptied(k, h, id, NEW_BUCKETS).infos[id].refCount == 0
  {
    hide IndexOk, AddrOk, TriedOk, CountOk, TimesOk, Emptied;
    EmptiedOk(k, ports, h, id, NEW_BUCKETS);
    EmptiedSlots(k, h, id, NEW_BUCKETS);
    var e := Emptied(k, h, id, NEW_BUCKETS);
    assert Homes(e.newAt, h, id, e.infos[id].addr) == {};
  }

  /** The entry in a tried slot goes back to the new table, displacing what is there. */
  ghost function MakeRoom(k: Book, ports: bool, h: Hashing, s: Slot): Book
    requires IndexOk(k.infos, k.random)
    requires s in k.triedAt ==> k.triedAt[s] in k.infos
    requires forall t <- k.newAt :: k.newAt[t] in k.infos
  {
    if s !in k.triedAt then k
    else
      var id := k.triedAt[s];
      var b := NewBucket(h, k.infos[id].addr, k.infos[id].source);
      UntriedIndex(k, h, id);
      var c := Cleared(Untried(k, h, id), ports, NewSlot(h, k.infos[id].addr, b));
      if id in c.infos then Ref(c.(nNew := c.nNew + 1), h, id, b) else c
  }

  lemma UntriedIndex(k: Book, h: Hashing, id: nat)
    requires id in k.infos && IndexOk(k.infos, k.random)
    ensures IndexOk(Untried(k, h, id).infos, k.random)
  {
    IndexFrame(k.infos, Untried(k, h, id).infos, k.random);
  }

  lemma TriedKnown(infos: Infos, triedAt: Table, h: Hashing, s: Slot)
    requires TriedOk(infos, triedAt, h) && s in triedAt
    ensures triedAt[s] in infos && infos[triedAt[s]].inTried && s == TriedSlot(h, infos[triedAt[s]].addr)
  {
  }

  lemma SlotsKnown(infos: Infos, newAt: Table, h: Hashing)
    requires NewOk(infos, newAt, h)
    ensures forall t <- newAt :: newAt[t] in infos
  {
  }

  /** At most one entry is gone, and it was not a tried one. */
  ghost predicate LosesOneNew(infos: Infos, infos': Infos) {
    && (forall i <- infos, j <- infos :: i !in infos' && j !in infos' ==> i == j)
    && (forall i <- infos :: i !in infos' ==> !infos[i].inTried)
  }

  lemma KeepsButOne(infos: Infos, infos': Infos, who: set<nat>, id: nat)
    requires Keeps(infos, infos', who) && (who == {} || (who == {id} && id in infos && !infos[id].inTried))
    ensures LosesOneNew(infos, infos')
  {
  }

  /** Making room keeps every tried entry known, and costs at most one new entry. */
  lemma MakeRoomOk(k: Book, ports: bool, h: Hashing, s: Slot, id: nat)
    requires Consistent(k, ports, h, {id}, {}) && id in k.infos && !k.infos[id].inTried
    ensures s in k.triedAt ==> k.triedAt[s] in k.infos
    ensures forall t <- k.newAt :: k.newAt[t] in k.infos
    ensures var r := MakeRoom(k, ports, h, s);
            && Consistent(r, ports, h, {id}, {}) && s !in r.triedAt && r.triedAt == k.triedAt - {s}
            && id in r.infos && SameButPlace(r.infos[id], k.infos[id])
            && (s in k.triedAt ==> k.triedAt[s] in r.infos && !r.infos[k.triedAt[s]].inTried)
            && LosesOneNew(k.infos, r.infos) && r.infos.Keys <= k.infos.Keys && r.odd == k.odd
  {
    hide IndexOk, AddrOk, TriedOk, NewOk, CountOk, TimesOk, Keeps, Cleared, LosesOneNew;
    SlotsKnown(k.infos, k.newAt, h);
    if s !in k.triedAt {
      assert k.triedAt - {s} == k.triedAt;
      KeepsAll(k.infos);
      KeepsButOne(k.infos, k.infos, {}, 0);
    } else {
      var e := k.triedAt[s];
      TriedKnown(k.infos, k.triedAt, h, s);
      LeaveTriedOk(k, ports, h, e, {id}, {});
      var u := Untried(k, h, e);
      var b := NewBucket(h, k.infos[e].addr, k.infos[e].source);
      var slot := NewSlot(h, k.infos[e].addr, b);
      ClearedOk(u, ports, h, slot, {id} + {e}, {});
      var c := Cleared(u, ports, slot);
      StillThere(u, c, slot, e);
      StillThere(u, c, slot, id);
      PromotedOk(c, ports, h, {id} + {e}, e);
      assert {id} + {e} - {e} == {id};
      LooseRefs(c.infos, c.nTried, c.nNew, {id} + {e}, e);
      RefOk(c.(nNew := c.nNew + 1), ports, h, e, b, {id}, {e});
      assert {e} - {e} == {};
      RoomLoses(k, u, c, MakeRoom(k, ports, h, s), slot, e);
    }
  }

  lemma RoomLoses(k: Book, u: Book, c: Book, r: Book, slot: Slot, e: nat)
    requires e in k.infos && u.infos == k.infos[e := k.infos[e].(inTried := false)] && u.newAt == k.newAt
    requires Keeps(u.infos, c.infos, if slot in u.newAt then {u.newAt[slot]} else {})
    requires slot in u.newAt ==> u.newAt[slot] != e && u.newAt[slot] in u.infos && !u.infos[u.newAt[slot]].inTried
    requires r.infos.Keys == c.infos.Keys
    ensures LosesOneNew(k.infos, r.infos)
  {
    forall i <- k.infos | i !in r.infos
      ensures slot in u.newAt && i == u.newAt[slot]
    {
      assert i in u.infos;
    }
  }

  lemma StillThere(u: Book, c: Book, slot: Slot, id: nat)
    requires Keeps(u.infos, c.infos, if slot in u.newAt then {u.newAt[slot]} else {})
    requires id in u.infos && (slot in u.newAt ==> u.newAt[slot] != id)
    ensures id in c.infos && SameButPlace(c.infos[id], u.infos[id])
  {
  }

  lemma LooseRefs(infos: Infos, nTried: int, nNew: int, loose: set<nat>, id: nat)
    requires CountOk(infos, nTried, nNew, loose, {}) && id in infos && id in loose
    ensures infos[id].refCount == 0 && !infos[id].inTried
  {
  }

  /** MakeTried: out of every new bucket, into the one tried slot. */
  ghost function MadeTried(k: Book, ports: bool, h: Hashing, id: nat): Book
    requires Consistent(k, ports, h, {}, {}) && id in k.infos && !k.infos[id].inTried
  {
    MadeTriedParts(k, ports, h, id);
    var loose := Demotion(k, h, id);
    Tried(MakeRoom(loose, ports, h, TriedSlot(h, k.infos[id].addr)), h, id)
  }

  ghost function Demotion(k: Book, h: Hashing, id: nat): Book
    requires id in k.infos
  {
    var e := Emptied(k, h, id, NEW_BUCKETS);
    e.(nNew := e.nNew - 1)
  }

  lemma MadeTriedParts(k: Book, ports: bool, h: Hashing, id: nat)
    requires Consistent(k, ports, h, {}, {}) && id in k.infos && !k.infos[id].inTried
    ensures var d := Demotion(k, h, id);
            var s := TriedSlot(h, k.infos[id].addr);
            && Consistent(d, ports, h, {id}, {}) && d.triedAt == k.triedAt && d.odd == k.odd
            && d.infos == k.infos[id := k.infos[id].(refCount := 0)]
            && (s in d.triedAt ==> d.triedAt[s] in d.infos)
            && (forall t <- d.newAt :: d.newAt[t] in d.infos)
            && id in MakeRoom(d, ports, h, s).infos
  {
    hide IndexOk, AddrOk, TriedOk, NewOk, CountOk, TimesOk, MakeRoom, Emptied;
    EmptiedOk(k, ports, h, id, NEW_BUCKETS);
    EmptiedAll(k, ports, h, id);
    DemotedOk(Emptied(k, h, id, NEW_BUCKETS), ports, h, id);
    MakeRoomOk(Demotion(k, h, id), ports, h, TriedSlot(h, k.infos[id].addr), id);
  }

  /** The entry ends up tried, and the one it displaces there is new again. */
  lemma MadeTriedOk(k: Book, ports: bool, h: Hashing, id: nat)
    requires Consistent(k, ports, h, {}, {}) && id in k.infos && !k.infos[id].inTried
    requires id in k.odd || k.infos[id].lastSuccess > 0
    ensures var r := MadeTried(k, ports, h, id);
            var s := TriedSlot(h, k.infos[id].addr);
            && Consistent(r, ports, h, {}, {})
            && id in r.infos && r.infos[id].inTried && r.triedAt == k.triedAt[s := id]
            && (s in k.triedAt ==> k.triedAt[s] in r.infos && !r.infos[k.triedAt[s]].inTried)
            && LosesOneNew(k.infos, r.infos) && r.infos.Keys <= k.infos.Keys && r.odd == k.odd
            && r.infos[id].lastSuccess == k.infos[id].lastSuccess && r.infos[id].lastTry == k.infos[id].lastTry
  {
    hide IndexOk, AddrOk, TriedOk, NewOk, CountOk, TimesOk, MakeRoom, Demotion;
    MadeTriedParts(k, ports, h, id);
    var d := Demotion(k, h, id);
    var s := TriedSlot(h, k.infos[id].addr);
    MakeRoomOk(d, ports, h, s, id);
    var m := MakeRoom(d, ports, h, s);
    EnterTriedOk(m, ports, h, id, {id}, {});
    assert {id} - {id} == {};
    assert (k.triedAt - {s})[s := id] == k.triedAt[s := id];
    if s in k.triedAt {
      TriedKnown(d.infos, d.triedAt, h, s);
    }
  }
}
