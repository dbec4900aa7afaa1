/** The address manager of src/addrman.cpp. */
module AddrMan {
  import opened Options
  import opened AddrBook
  import Powers

  const HORIZON: int := 30 * 24 * 60 * 60
  const RETRIES: nat := 3
  const MAX_FAILURES: nat := 10
  const MIN_FAIL_TIME: int := 7 * 24 * 60 * 60

  /** The statistics are so bad that the entry can just be deleted. */
  predicate IsTerrible(info: Info, now: int) {
    if info.lastTry != 0 && info.lastTry >= now - 60 then false
    else
      || info.time > now + 10 * 60
      || info.time == 0 || now - info.time > HORIZON
      || (info.lastSuccess == 0 && info.attempts >= RETRIES)
      || (now - info.lastSuccess > MIN_FAIL_TIME && info.attempts >= MAX_FAILURES)
  }

  /** An entry is worth keeping if it was tried in the last minute, or if it was seen in the last 30 days and not more
      than ten minutes ahead, has succeeded or failed less than three times, and has succeeded in the last 7 days or
      failed less than ten times. */
  lemma TerribleExactly(info: Info, now: int)
    ensures !IsTerrible(info, now) <==>
              || (info.lastTry != 0 && now - info.lastTry <= 60)
              || (&& info.time != 0 && -600 <= now - info.time <= 2592000
                  && (info.lastSuccess != 0 || info.attempts <= 2)
                  && (now - info.lastSuccess <= 604800 || info.attempts <= 9))
  {
  }

  /** The two-dimensional table holds -1 in the slots that the map leaves out. */
  ghost predicate Shows(t: array2<int>, m: Table, buckets: nat)
    reads t
  {
    && t.Length0 == buckets && t.Length1 == BUCKET_SIZE
    && (forall s <- m :: s.bucket < buckets && s.pos < BUCKET_SIZE)
    && (forall b: nat, i: nat :: b < buckets && i < BUCKET_SIZE ==>
          t[b, i] == if Slot(b, i) in m then m[Slot(b, i)] else -1)
  }

  method EmptyTable(buckets: nat) returns (t: array2<int>)
    ensures fresh(t) && Shows(t, map[], buckets)
  {
    t := new int[buckets, BUCKET_SIZE]((_, _) => -1);
  }

  /** Each reference makes another one twice as unlikely. */
  method Handicap(refCount: nat) returns (factor: nat)
    ensures factor == Powers.Pow2(refCount) && (refCount > 0 ==> factor > 1)
  {
    factor := 1;
    for n := 0 to refCount
      invariant factor == Powers.Pow2(n) && (n > 0 ==> factor > 1)
    {
      Powers.Pow2Next(n);
      factor := factor * 2;
    }
  }

  ghost predicate Issued(infos: Infos, count: nat) {
    forall id <- infos :: id < count
  }

  lemma IssuedFewer(infos: Infos, infos': Infos, count: nat)
    requires Issued(infos, count) && infos'.Keys <= infos.Keys
    ensures Issued(infos', count)
  {
    assert forall id <- infos' :: id in infos.Keys;
  }

  lemma DeletedFrom(k: Book, ports: bool, id: nat)
    requires id in k.infos && IndexOk(k.infos, k.random)
    ensures 0 <= k.infos[id].randomPos < |k.random|
    ensures var s := Swapped(k, k.infos[id].randomPos, |k.random| - 1);
            && |s.random| == |k.random|
            && Deleted(k, ports, id) == s.(infos := s.infos - {id}, addrs := s.addrs - {Norm(ports, k.infos[id].addr)},
                                           random := s.random[..|s.random| - 1], nNew := s.nNew - 1)
  {
    hide IndexOk;
    PlaceKnown(k.infos, k.random, id);
    SwapBrings(k, k.infos[id].randomPos, |k.random| - 1);
  }

  lemma EmptyConsistent(ports: bool, h: Hashing)
    ensures Consistent(Book(map[], map[], [], map[], map[], 0, 0, {}), ports, h, {}, {})
  {
    assert TriedIds(map[]) == {} && FreshIds(map[]) - {} == {};
  }

  class AddressManager {
    const ports: bool
    const h: Hashing
    const routable: Ip -> bool

    var idCount: nat
    var mapInfo: Infos
    var mapAddr: map<Service, nat>
    var random: seq<nat>
    var nTried: int
    const vvTried: array2<int>
    var nNew: int
    const vvNew: array2<int>
    var lastGood: int

    ghost var triedAt: Table
    ghost var newAt: Table
    /** The entries that have been given a time out of range: not positive by Good, or negative by Attempt. */
    ghost var odd: set<nat>

    ghost function State(): Book
      reads this
    {
      Book(mapInfo, mapAddr, random, triedAt, newAt, nTried, nNew, odd)
    }

    /** The tables are what the two maps say, and ids are handed out in order. */
    ghost predicate Backed()
      reads this, vvTried, vvNew
    {
      && vvTried != vvNew
      && Shows(vvTried, triedAt, TRIED_BUCKETS)
      && Shows(vvNew, newAt, NEW_BUCKETS)
      && Issued(mapInfo, idCount)
    }

    ghost predicate Valid()
      reads this, vvTried, vvNew
    {
      Backed() && Consistent(State(), ports, h, {}, {})
    }

    constructor (ports: bool, h: Hashing, routable: Ip -> bool)
      ensures Valid() && idCount == 0 && mapInfo == map[] && lastGood == 1 && odd == {}
      ensures this.ports == ports && this.h == h && this.routable == routable
      ensures fresh(vvTried) && fresh(vvNew)
    {
      this.ports, this.h, this.routable := ports, h, routable;
      idCount, mapInfo, mapAddr, random := 0, map[], map[], [];
      nTried, nNew, lastGood := 0, 0, 1;
      hide Consistent, Shows;
      var fresh1 := EmptyTable(TRIED_BUCKETS);
      var fresh2 := EmptyTable(NEW_BUCKETS);
      vvTried, vvNew := fresh1, fresh2;
      triedAt, newAt, odd := map[], map[], {};
      EmptyConsistent(ports, h);
    }

    // -------------------------------------------------------------- the tables

    method SetNew(s: Slot, id: nat)
      requires Backed() && s.bucket < NEW_BUCKETS && s.pos < BUCKET_SIZE
      modifies this`newAt, vvNew
      ensures Backed() && newAt == old(newAt)[s := id]
    {
      vvNew[s.bucket, s.pos] := id;
      newAt := newAt[s := id];
    }

    method UnsetNew(s: Slot)
      requires Backed() && s.bucket < NEW_BUCKETS && s.pos < BUCKET_SIZE
      modifies this`newAt, vvNew
      ensures Backed() && newAt == old(newAt) - {s}
    {
      vvNew[s.bucket, s.pos] := -1;
      newAt := newAt - {s};
    }

    method SetTried(s: Slot, id: nat)
      requires Backed() && s.bucket < TRIED_BUCKETS && s.pos < BUCKET_SIZE
      modifies this`triedAt, vvTried
      ensures Backed() && triedAt == old(triedAt)[s := id]
    {
      vvTried[s.bucket, s.pos] := id;
      triedAt := triedAt[s := id];
    }

    method UnsetTried(s: Slot)
      requires Backed() && s.bucket < TRIED_BUCKETS && s.pos < BUCKET_SIZE
      modifies this`triedAt, vvTried
      ensures Backed() && triedAt == old(triedAt) - {s}
    {
      vvTried[s.bucket, s.pos] := -1;
      triedAt := triedAt - {s};
    }

    method NewAt(s: Slot) returns (v: int)
      requires Backed() && s.bucket < NEW_BUCKETS && s.pos < BUCKET_SIZE
      ensures v == if s in newAt then newAt[s] else -1
    {
      v := vvNew[s.bucket, s.pos];
    }

    method TriedAt(s: Slot) returns (v: int)
      requires Backed() && s.bucket < TRIED_BUCKETS && s.pos < BUCKET_SIZE
      ensures v == if s in triedAt then triedAt[s] else -1
    {
      v := vvTried[s.bucket, s.pos];
    }

    // -------------------------------------------------------------- entries

    /** The entry of an address, whatever its port unless ports are told apart. */
    method Find(addr: Service) returns (r: Option<nat>)
      requires Valid()
      ensures r == if Norm(ports, addr) in mapAddr then Some(mapAddr[Norm(ports, addr)]) else None
      ensures r.Some? ==> r.value in mapInfo && Norm(ports, mapInfo[r.value].addr) == Norm(ports, addr)
    {
      hide IndexOk, TriedOk, NewOk, CountOk, TimesOk;
      var key := Norm(ports, addr);
      if key !in mapAddr {
        return None;
      }
      if mapAddr[key] in mapInfo {
        return Some(mapAddr[key]);
      }
      return None;
    }

    /** Makes an entry and counts it as new; it is not in any bucket yet. */
    method Create(info: Info) returns (id: nat)
      requires Backed()
      modifies this
      ensures Backed() && id == old(idCount) && idCount == id + 1 && lastGood == old(lastGood)
      ensures State() == Created(old(State()), ports, id, info.(randomPos := |old(random)|))
    {
      hide Shows;
      id := idCount;
      idCount := idCount + 1;
      mapInfo := mapInfo[id := info];
      mapAddr := mapAddr[Norm(ports, info.addr) := id];
      mapInfo := mapInfo[id := mapInfo[id].(randomPos := |random|)];
      assert mapInfo == old(mapInfo)[id := info.(randomPos := |random|)];
      random := random + [id];
      nNew := nNew + 1;
    }

    method SwapRandom(p: nat, q: nat)
      requires Backed() && IndexOk(mapInfo, random) && p < |random| && q < |random|
      modifies this`mapInfo, this`random
      ensures Backed() && State() == Swapped(old(State()), p, q)
    {
      RandomKnown(mapInfo, random, p);
      RandomKnown(mapInfo, random, q);
      hide IndexOk, Shows, Issued;
      if p == q {
        return;
      }
      ghost var before := mapInfo;
      var id1, id2 := random[p], random[q];
      mapInfo := mapInfo[id1 := mapInfo[id1].(randomPos := q)];
      mapInfo := mapInfo[id2 := mapInfo[id2].(randomPos := p)];
      IssuedFewer(before, mapInfo, idCount);
      random := random[p := id2];
      random := random[q := id1];
    }

    method Delete(id: nat)
      requires Backed() && IndexOk(mapInfo, random) && id in mapInfo && !mapInfo[id].inTried && mapInfo[id].refCount == 0
      modifies this`mapInfo, this`mapAddr, this`random, this`nNew
      ensures Backed() && State() == Deleted(old(State()), ports, id)
    {
      hide IndexOk, Shows, Swapped, Issued, Deleted;
      PlaceKnown(mapInfo, random, id);
      DeletedFrom(State(), ports, id);
      var key := Norm(ports, mapInfo[id].addr);
      SwapRandom(mapInfo[id].randomPos, |random| - 1);
      IssuedFewer(mapInfo, mapInfo - {id}, idCount);
      random := random[..|random| - 1];
      mapAddr := mapAddr - {key};
      mapInfo := mapInfo - {id};
      nNew := nNew - 1;
    }

    /** Takes an entry out of a new slot. */
    method LeaveSlot(s: Slot, id: nat)
      requires Backed() && s in newAt && newAt[s] == id && id in mapInfo && s.bucket < NEW_BUCKETS && s.pos < BUCKET_SIZE
      modifies this`mapInfo, this`newAt, vvNew
      ensures Backed() && State() == Unref(old(State()), s)
    {
      hide Shows, Issued;
      UnsetNew(s);
      IssuedFewer(mapInfo, mapInfo[id := mapInfo[id].(refCount := mapInfo[id].refCount - 1)], idCount);
      mapInfo := mapInfo[id := mapInfo[id].(refCount := mapInfo[id].refCount - 1)];
    }

    /** Empties a new slot, deleting its entry when no other slot refers to it. */
    method ClearNew(s: Slot, ghost loose: set<nat>, ghost spare: set<nat>)
      requires Backed() && Consistent(State(), ports, h, loose, spare) && s.bucket < NEW_BUCKETS && s.pos < BUCKET_SIZE
      modifies this`mapInfo, this`mapAddr, this`random, this`nNew, this`newAt, vvNew
      ensures Backed() && State() == Cleared(old(State()), ports, s)
    {
      hide IndexOk, AddrOk, TriedOk, NewOk, CountOk, TimesOk, Deleted, Shows, Issued;
      var id := NewAt(s);
      if id != -1 {
        UnrefOk(State(), ports, h, s, loose, spare);
        LeaveSlot(s, id);
        if mapInfo[id].refCount == 0 {
          Delete(id);
        }
      }
    }

    // -------------------------------------------------------------- from new to tried

    /** Moves a new entry to its tried slot; whatever was there goes back to the new table. */
    method MakeTried(id: nat)
      requires Valid() && id in mapInfo && !mapInfo[id].inTried
      modifies this, vvTried, vvNew
      ensures Backed() && State() == MadeTried(old(State()), ports, h, id)
      ensures lastGood == old(lastGood) && idCount == old(idCount)
    {
      hide Consistent, MakeRoom, Demotion, Backed, Tried, TriedSlot;
      MadeTriedParts(State(), ports, h, id);
      LeaveNew(id);
      var s := TriedSlot(h, mapInfo[id].addr);
      MakeRoomOk(State(), ports, h, s, id);
      EvictTried(s, id);
      EnterTried(id);
    }

    method EnterTried(id: nat)
      requires Backed() && id in mapInfo
      modifies this`mapInfo, this`nTried, this`triedAt, vvTried
      ensures Backed() && State() == Tried(old(State()), h, id)
    {
      hide Shows, Issued;
      SetTried(TriedSlot(h, mapInfo[id].addr), id);
      nTried := nTried + 1;
      IssuedFewer(mapInfo, mapInfo[id := mapInfo[id].(inTried := true)], idCount);
      mapInfo := mapInfo[id := mapInfo[id].(inTried := true)];
    }

    method LeaveTried(id: nat)
      requires Backed() && id in mapInfo
      modifies this`mapInfo, this`nTried, this`triedAt, vvTried
      ensures Backed() && State() == Untried(old(State()), h, id)
    {
      hide Shows, Issued;
      UnsetTried(TriedSlot(h, mapInfo[id].addr));
      nTried := nTried - 1;
      IssuedFewer(mapInfo, mapInfo[id := mapInfo[id].(inTried := false)], idCount);
      mapInfo := mapInfo[id := mapInfo[id].(inTried := false)];
    }

    /** Refers to an entry from one of its new slots. */
    method EnterNew(id: nat, b: nat)
      requires Backed() && id in mapInfo && b < NEW_BUCKETS
      modifies this`mapInfo, this`newAt, vvNew
      ensures Backed() && State() == Ref(old(State()), h, id, b)
    {
      hide Shows, Issued;
      SetNew(NewSlot(h, mapInfo[id].addr, b), id);
      IssuedFewer(mapInfo, mapInfo[id := mapInfo[id].(refCount := mapInfo[id].refCount + 1)], idCount);
      mapInfo := mapInfo[id := mapInfo[id].(refCount := mapInfo[id].refCount + 1)];
    }

    /** Removes an entry from all the new buckets. */
    method LeaveNew(id: nat)
      requires Valid() && id in mapInfo && !mapInfo[id].inTried
      modifies this, vvNew
      ensures Backed() && State() == Demotion(old(State()), h, id)
      ensures lastGood == old(lastGood) && idCount == old(idCount)
    {
      ghost var k := State();
      hide Consistent, Emptied;
      assert Emptied(k, h, id, 0) == k by { EmptiedNone(k, h, id); }
      for b := 0 to NEW_BUCKETS
        invariant Backed() && id in mapInfo && State() == Emptied(k, h, id, b)
        invariant lastGood == old(lastGood) && idCount == old(idCount)
      {
        LeaveBucket(k, id, b);
      }
      nNew := nNew - 1;
    }

    method LeaveBucket(ghost k: Book, id: nat, b: nat)
      requires Backed() && id in mapInfo && id in k.infos && b < NEW_BUCKETS && State() == Emptied(k, h, id, b)
      modifies this`mapInfo, this`newAt, vvNew
      ensures Backed() && id in mapInfo && State() == Emptied(k, h, id, b + 1)
    {
      hide Emptied, Issued, Shows, Unref;
      EmptiedNext(k, h, id, b);
      assert mapInfo[id].addr == k.infos[id].addr;
      var s := NewSlot(h, mapInfo[id].addr, b);
      var holder := NewAt(s);
      if holder == id {
        LeaveSlot(s, id);
      }
    }

    /** Frees a tried slot, giving its entry a new slot again. */
    method EvictTried(s: Slot, ghost id: nat)
      requires Backed() && Consistent(State(), ports, h, {id}, {}) && s.bucket < TRIED_BUCKETS && s.pos < BUCKET_SIZE
      requires id in mapInfo && !mapInfo[id].inTried
      requires s in triedAt ==> triedAt[s] in mapInfo
      requires forall t <- newAt :: newAt[t] in mapInfo
      modifies this, vvTried, vvNew
      ensures Backed() && State() == MakeRoom(old(State()), ports, h, s)
      ensures lastGood == old(lastGood) && idCount == old(idCount)
    {
      hide IndexOk, AddrOk, TriedOk, NewOk, CountOk, TimesOk, Cleared, Shows, Issued, Untried, Ref, NewSlot, NewBucket;
      ghost var k := State();
      var e := TriedAt(s);
      if e != -1 {
        EvictParts(k, ports, h, s, id);
        var b := NewBucket(h, mapInfo[e].addr, mapInfo[e].source);
        var slot := NewSlot(h, mapInfo[e].addr, b);
        LeaveTried(e);
        ClearNew(slot, {id} + {e}, {});
        nNew := nNew + 1;
        EnterNew(e, b);
      }
    }

    /** Replaces the statistics of an entry. */
    method Touch(id: nat, info: Info, ghost oddNow: set<nat>)
      requires Backed() && id in mapInfo
      modifies this`mapInfo, this`odd
      ensures Backed() && State() == old(State()).(infos := old(mapInfo)[id := info], odd := oddNow)
    {
      hide Shows, Issued;
      IssuedFewer(mapInfo, mapInfo[id := info], idCount);
      mapInfo := mapInfo[id := info];
      odd := oddNow;
    }

    /** Looks for a new bucket that holds the entry, from a random one on; there always is one. */
    method SomeBucket(id: nat, rnd: nat) returns (bucket: int)
      requires Valid() && id in mapInfo && !mapInfo[id].inTried
      ensures 0 <= bucket < NEW_BUCKETS
      ensures var s := NewSlot(h, mapInfo[id].addr, bucket); s in newAt && newAt[s] == id
    {
      hide IndexOk, AddrOk, TriedOk, TimesOk, TriedIds, FreshIds, Shows, Issued, NewSlot, Homes, Rotated;
      ghost var home := SomewhereNew(mapInfo, newAt, h, id);
      hide NewOk, CountOk;
      for n := 0 to NEW_BUCKETS
        invariant forall m: nat :: m < n ==> Rotated(m, rnd) != home
      {
        bucket := Rotated(n, rnd);
        var holder := NewAt(NewSlot(h, mapInfo[id].addr, bucket));
        if holder == id {
          return;
        }
      }
      RotationCovers(home, rnd);
      assert false;
    }

    /** An address turned out to be reachable. */
    method Good(addr: Service, time: int, rnd: nat)
      requires Valid()
      modifies this, vvTried, vvNew
      ensures Valid() && lastGood == time && idCount == old(idCount)
      ensures match KnownAs(old(State()), ports, addr)
              case None => State() == old(State())
              case Some(id) =>
                && State() == MarkedGood(old(State()), ports, h, id, time)
                && id in mapInfo && mapInfo[id].inTried
                && (Timely(mapInfo[id]) <==> time > 0) && odd == Marked(old(odd), id, time > 0)
                && LosesOneNew(old(mapInfo), mapInfo)
    {
      hide Consistent, Shows, Issued, MadeTried, LosesOneNew;
      lastGood := time;
      var found := Find(addr);
      if found == None || mapInfo[found.value].addr != addr {
        return;
      }
      var id := found.value;
      ghost var k := State();
      MarkedGoodOk(k, ports, h, id, time);
      Touch(id, mapInfo[id].(lastSuccess := time, lastTry := time, attempts := 0), Marked(odd, id, time > 0));
      if mapInfo[id].inTried {
        return;
      }
      var bucket := SomeBucket(id, rnd);
      MakeTried(id);
    }

    method Attempt(addr: Service, countFailure: bool, time: int)
      requires Valid()
      modifies this`mapInfo, this`odd
      ensures Valid()
      ensures match KnownAs(old(State()), ports, addr)
              case None => State() == old(State())
              case Some(id) =>
                var info := old(mapInfo)[id];
                var counted := countFailure && info.lastCountAttempt < lastGood;
                && State() == old(State()).(infos := old(mapInfo)[id := info.(
                     lastTry := time, lastCountAttempt := if counted then time else info.lastCountAttempt,
                     attempts := if counted then info.attempts + 1 else info.attempts)],
                     odd := if time >= 0 then old(odd) else old(odd) + {id})
                && (Timely(info) ==> (Timely(mapInfo[id]) <==> time >= 0))
    {
      hide Shows, Issued;
      hide Consistent;
      var found := Find(addr);
      if found == None || mapInfo[found.value].addr != addr {
        return;
      }
      var id := found.value;
      var info := mapInfo[id].(lastTry := time);
      if countFailure && info.lastCountAttempt < lastGood {
        info := info.(lastCountAttempt := time, attempts := info.attempts + 1);
      }
      ghost var oddNow := if time >= 0 then odd else odd + {id};
      StatisticsOk(State(), ports, h, id, info, oddNow);
      Touch(id, info, oddNow);
    }

    method Connected(addr: Service, time: int)
      requires Valid()
      modifies this`mapInfo, this`odd
      ensures Valid()
      ensures match KnownAs(old(State()), ports, addr)
              case None => State() == old(State())
              case Some(id) =>
                var info := old(mapInfo)[id];
                State() == old(State()).(infos := old(mapInfo)[id := info.(time := if time - info.time > 20 * 60 then time else info.time)])
    {
      hide Shows, Issued;
      hide Consistent;
      var found := Find(addr);
      if found == None || mapInfo[found.value].addr != addr {
        return;
      }
      var id := found.value;
      var info := mapInfo[id];
      if time - info.time > 20 * 60 {
        info := info.(time := time);
      }
      StatisticsOk(State(), ports, h, id, info, odd);
      Touch(id, info, odd);
    }

    /** Gives an entry its slot for this source, if the slot is open to it. */
    method Place(id: nat, source: Ip, now: int, ghost spare: set<nat>)
      requires Backed() && Consistent(State(), ports, h, {}, spare) && MayEnter(State(), id, spare)
      modifies this`mapInfo, this`mapAddr, this`random, this`nNew, this`newAt, vvNew
      ensures Backed() && State() == Placement(old(State()), ports, h, id, source, now)
    {
      hide IndexOk, AddrOk, TriedOk, NewOk, CountOk, TimesOk, Shows, Issued, Cleared, Deleted, Ref, NewSlot, NewBucket, IsTerrible;
      ghost var k := State();
      PlacementParts(k, ports, h, id, source, spare);
      var b := NewBucket(h, mapInfo[id].addr, source);
      var s := NewSlot(h, mapInfo[id].addr, b);
      var holder := NewAt(s);
      if holder != id {
        var insert := holder == -1;
        if !insert {
          var existing := mapInfo[holder];
          if IsTerrible(existing, now) || (existing.refCount > 1 && mapInfo[id].refCount == 0) {
            insert := true;
          }
        }
        if insert {
          ClearNew(s, {}, spare);
          EnterNew(id, b);
        } else if mapInfo[id].refCount == 0 {
          Delete(id);
        }
      }
    }

    /** Takes over newer information about a known entry; says whether to look for another slot. */
    method Refresh(id: nat, time: nat, penalty: int, now: int, rand: nat -> nat) returns (proceed: bool)
      requires Valid() && id in mapInfo
      modifies this`mapInfo, this`odd
      ensures Valid() && State() == Refreshed(old(State()), id, time, penalty, now)
      ensures proceed <==> SeeksSlot(mapInfo[id], time, rand)
    {
      hide Consistent, Shows, Issued;
      RefreshedOk(State(), ports, h, id, time, penalty, now);
      var interval := if now - time < 24 * 60 * 60 then 60 * 60 else 24 * 60 * 60;
      var info := mapInfo[id];
      if time != 0 && (info.time == 0 || info.time < time - interval - penalty) {
        info := info.(time := if time - penalty > 0 then time - penalty else 0);
      }
      Touch(id, info, odd);
      if time == 0 || (info.time != 0 && time <= info.time) {
        return false;
      }
      if info.inTried || info.refCount == MAX_REFERENCES {
        return false;
      }
      FreshRefsOf(old(State()), ports, h, id);
      var factor := Handicap(info.refCount);
      return !(factor > 1 && rand(factor) != 0);
    }

    /** Adds an address that some source has told us about. */
    method Add(addr: Service, time: nat, source: Ip, timePenalty: int, now: int, rand: nat -> nat) returns (r: bool)
      requires Valid()
      modifies this, vvTried, vvNew
      ensures Valid() && lastGood == old(lastGood)
      ensures var penalty := if addr.ip == source then 0 else timePenalty;
              State() == if routable(addr.ip) then Told(old(State()), ports, h, old(idCount), addr, time, source, penalty, now, rand)
                         else old(State())
      ensures r <==> routable(addr.ip) && Norm(ports, addr) !in old(mapAddr)
      ensures idCount == old(idCount) + if r then 1 else 0
      ensures var penalty := if addr.ip == source then 0 else timePenalty;
              r && Norm(ports, addr) in mapAddr ==>
                && mapAddr[Norm(ports, addr)] in mapInfo
                && FirstHeard(mapInfo[mapAddr[Norm(ports, addr)]], addr, source, time, penalty)
      ensures var penalty := if addr.ip == source then 0 else timePenalty;
              routable(addr.ip) && Norm(ports, addr) in old(mapAddr) ==>
                var id := old(mapAddr)[Norm(ports, addr)];
                id in old(mapInfo) && id in mapInfo && HeardAgain(old(mapInfo)[id], mapInfo[id], time, penalty, now)
      ensures triedAt == old(triedAt) && nTried == old(nTried) && odd == old(odd) && LosesOneNew(old(mapInfo), mapInfo)
      ensures r ==> (if Norm(ports, addr) in mapAddr then Welcome(old(State()), h, addr, source, now) else State() == old(State()))
      ensures r && Welcome(old(State()), h, addr, source, now) ==> Norm(ports, addr) in mapAddr
      ensures Norm(ports, addr) in old(mapAddr) ==>
                Norm(ports, addr) in mapAddr && mapAddr[Norm(ports, addr)] == old(mapAddr)[Norm(ports, addr)]
    {
      hide Consistent, Shows, Issued, Told, LosesOneNew, Welcome, FirstHeard, HeardAgain;
      KeepsAll(mapInfo);
      KeepsButOne(mapInfo, mapInfo, {}, 0);
      IssuedBelow(mapInfo, idCount);
      if !routable(addr.ip) {
        return false;
      }
      var found := Find(addr);
      var penalty := if addr.ip == source then 0 else timePenalty;
      if found.Some? {
        AddKnown(found.value, addr, time, source, penalty, now, rand);
        return false;
      }
      AddUnknown(addr, time, source, penalty, now, rand);
      return true;
    }

    /** News of an address that has an entry. */
    method AddKnown(id: nat, addr: Service, time: nat, source: Ip, penalty: int, now: int, rand: nat -> nat)
      requires Valid() && id in mapInfo && idCount !in mapInfo
      requires Norm(ports, addr) in mapAddr && mapAddr[Norm(ports, addr)] == id && Norm(ports, mapInfo[id].addr) == Norm(ports, addr)
      modifies this, vvNew
      ensures Valid() && lastGood == old(lastGood) && idCount == old(idCount)
      ensures State() == Told(old(State()), ports, h, old(idCount), addr, time, source, penalty, now, rand)
      ensures triedAt == old(triedAt) && nTried == old(nTried) && odd == old(odd) && LosesOneNew(old(mapInfo), mapInfo)
      ensures Norm(ports, addr) in mapAddr && mapAddr[Norm(ports, addr)] == id
      ensures id in mapInfo && HeardAgain(old(mapInfo)[id], mapInfo[id], time, penalty, now)
    {
      hide Consistent, Shows, Issued, Placement, LosesOneNew, Created, Welcome, Refreshed, SeeksSlot, Newcomer, HeardAgain, SameRecord;
      ghost var k := State();
      ToldIs(k, ports, h, idCount, addr, time, source, penalty, now, rand);
      var proceed := Refresh(id, time, penalty, now, rand);
      RefreshedLoses(k, id, time, penalty, now);
      RefreshedHeard(k, id, time, penalty, now);
      if proceed {
        SeekerFits(mapInfo[id], time, rand);
        ReplacementOk(k, State(), ports, h, addr, id, source, now);
        ghost var refreshed := mapInfo[id];
        Place(id, source, now, {});
        HeardStill(k.infos[id], refreshed, mapInfo[id], time, penalty, now);
      }
    }

    /** An address heard of for the first time. */
    method AddUnknown(addr: Service, time: nat, source: Ip, penalty: int, now: int, rand: nat -> nat)
      requires Valid() && Norm(ports, addr) !in mapAddr && idCount !in mapInfo
      modifies this, vvNew
      ensures Valid() && lastGood == old(lastGood) && idCount == old(idCount) + 1
      ensures State() == Told(old(State()), ports, h, old(idCount), addr, time, source, penalty, now, rand)
      ensures triedAt == old(triedAt) && nTried == old(nTried) && odd == old(odd) && LosesOneNew(old(mapInfo), mapInfo)
      ensures if Norm(ports, addr) in mapAddr then Welcome(old(State()), h, addr, source, now) else State() == old(State())
      ensures Welcome(old(State()), h, addr, source, now) ==> Norm(ports, addr) in mapAddr
      ensures Norm(ports, addr) in mapAddr ==>
                && mapAddr[Norm(ports, addr)] in mapInfo
                && FirstHeard(mapInfo[mapAddr[Norm(ports, addr)]], addr, source, time, penalty)
    {
      hide Consistent, Shows, Issued, Placement, LosesOneNew, Created, Welcome, Refreshed, SeeksSlot, Newcomer, FirstHeard, SameRecord;
      ghost var k := State();
      ToldIs(k, ports, h, idCount, addr, time, source, penalty, now, rand);
      var info := Newcomer(addr, source, time, penalty);
      NewcomerIs(addr, source, time, penalty);
      NewcomerOk(k, ports, h, idCount, info, now);
      var id := Create(info);
      Place(id, source, now, {id});
      if Norm(ports, addr) in mapAddr {
        FirstStill(info, mapInfo[mapAddr[Norm(ports, addr)]], addr, source, time, penalty);
      }
    }

    /** A random selection of addresses worth passing on: none twice, none of a terrible entry. */
    method GetAddr(now: int, rand: nat -> nat) returns (r: seq<Service>)
      requires Valid()
      modifies this`mapInfo, this`random
      ensures Valid() && Keeps(old(mapInfo), mapInfo, {}) && mapInfo.Keys == old(mapInfo).Keys
      ensures 100 * |r| <= 23 * |random| && |r| <= 2500
      ensures |r| == 2500 || 100 * (|r| + 1) > 23 * |random|
              || forall id <- mapInfo :: !IsTerrible(mapInfo[id], now) ==> mapInfo[id].addr in r
      ensures forall i: nat :: i < |r| ==> WorthTelling(State(), ports, r[i], now)
      ensures forall i: nat, j: nat :: i < j < |r| ==> Norm(ports, r[i]) != Norm(ports, r[j])
    {
      hide Consistent, Shows, Issued, Swapped, Keeps, IsTerrible;
      KeepsAll(mapInfo);
      var nodes := 23 * |random| / 100;
      if nodes > 2500 {
        nodes := 2500;
      }
      r := [];
      ghost var ids: seq<nat> := [];
      var n := 0;
      while n < |random| && |r| < nodes
        invariant Valid() && n <= |random| == |old(random)| && |r| <= nodes
        invariant mapInfo.Keys == old(mapInfo).Keys && Keeps(old(mapInfo), mapInfo, {})
        invariant Gathered(mapInfo, ids, r, n, now) && NoneMissed(mapInfo, random, ids, n, now)
      {
        hide Gathered, NoneMissed;
        var pos := n + rand(n) % (|random| - n);
        GatherNext(State(), ports, h, ids, r, n, pos, now, old(mapInfo));
        SwapRandom(n, pos);
        var id := random[n];
        if !IsTerrible(mapInfo[id], now) {
          r := r + [mapInfo[id].addr];
          ids := ids + [id];
        }
        n := n + 1;
      }
      GatheredAddresses(State(), ports, h, ids, r, n, now);
      if n == |random| {
        GatheredAll(State(), ports, h, ids, r, n, now);
      }
    }
  }

  /** The address of a known entry that is not terrible. */
  ghost predicate WorthTelling(k: Book, ports: bool, a: Service, now: int) {
    match KnownAs(k, ports, a)
    case None => false
    case Some(id) => !IsTerrible(k.infos[id], now)
  }

  /** Addresses gathered from the first n places of vRandom, with the ids they belong to. */
  ghost predicate Gathered(infos: Infos, ids: seq<nat>, r: seq<Service>, n: nat, now: int) {
    && |ids| == |r|
    && (forall i: nat :: i < |ids| ==>
          ids[i] in infos && infos[ids[i]].addr == r[i] && !IsTerrible(infos[ids[i]], now) && infos[ids[i]].randomPos < n)
    && (forall i: nat, j: nat :: i < j < |ids| ==> ids[i] != ids[j])
  }

  /** Of the first n places of vRandom nothing worth passing on has been left out. */
  ghost predicate NoneMissed(infos: Infos, random: seq<nat>, ids: seq<nat>, n: nat, now: int) {
    && n <= |random|
    && forall p: nat :: p < n ==> random[p] in infos && (!IsTerrible(infos[random[p]], now) ==> random[p] in ids)
  }

  lemma MissedNext(k: Book, ids: seq<nat>, n: nat, q: nat, now: int)
    requires IndexOk(k.infos, k.random) && n <= q < |k.random| && NoneMissed(k.infos, k.random, ids, n, now)
    ensures var s := Swapped(k, n, q);
            && |s.random| == |k.random| && s.random[n] in s.infos
            && (IsTerrible(s.infos[s.random[n]], now) ==> NoneMissed(s.infos, s.random, ids, n + 1, now))
            && NoneMissed(s.infos, s.random, ids + [s.random[n]], n + 1, now)
  {
    RandomKnown(k.infos, k.random, n);
    RandomKnown(k.infos, k.random, q);
    var s := Swapped(k, n, q);
    forall p: nat | p < n
      ensures s.random[p] == k.random[p] && s.infos[s.random[p]] == k.infos[k.random[p]]
    {
      RandomKnown(k.infos, k.random, p);
    }
    hide IndexOk, IsTerrible, Swapped;
  }

  lemma GatherNext(k: Book, ports: bool, h: Hashing, ids: seq<nat>, r: seq<Service>, n: nat, q: nat, now: int, before: Infos)
    requires Consistent(k, ports, h, {}, {}) && n <= q < |k.random| && Gathered(k.infos, ids, r, n, now)
    requires Keeps(before, k.infos, {}) && before.Keys == k.infos.Keys && NoneMissed(k.infos, k.random, ids, n, now)
    ensures IndexOk(k.infos, k.random)
    ensures var s := Swapped(k, n, q);
            && Consistent(s, ports, h, {}, {}) && |s.random| == |k.random| && s.random[n] in s.infos
            && Keeps(before, s.infos, {}) && s.infos.Keys == before.Keys
            && var id := s.random[n];
               if IsTerrible(s.infos[id], now)
               then Gathered(s.infos, ids, r, n + 1, now) && NoneMissed(s.infos, s.random, ids, n + 1, now)
               else Gathered(s.infos, ids + [id], r + [s.infos[id].addr], n + 1, now)
                    && NoneMissed(s.infos, s.random, ids + [id], n + 1, now)
  {
    hide IndexOk, AddrOk, TriedOk, NewOk, CountOk, TimesOk, Swapped, IsTerrible, Keeps, Gathered, NoneMissed;
    MissedNext(k, ids, n, q, now);
    SwappedOk(k, ports, h, n, q, {}, {});
    SwapBrings(k, n, q);
    var s := Swapped(k, n, q);
    RandomKnown(s.infos, s.random, n);
    KeepsBoth(before, k.infos, s.infos);
    PassedUnmoved(k, ids, r, n, q, now);
    GatherOne(s.infos, ids, r, n, s.random[n], now);
  }

  lemma KeepsBoth(a: Infos, b: Infos, c: Infos)
    requires Keeps(a, b, {}) && Keeps(b, c, {})
    ensures Keeps(a, c, {})
  {
  }

  lemma PassedUnmoved(k: Book, ids: seq<nat>, r: seq<Service>, n: nat, q: nat, now: int)
    requires IndexOk(k.infos, k.random) && n <= q < |k.random| && Gathered(k.infos, ids, r, n, now)
    ensures Gathered(Swapped(k, n, q).infos, ids, r, n, now)
  {
    RandomKnown(k.infos, k.random, n);
    RandomKnown(k.infos, k.random, q);
    hide IndexOk, IsTerrible;
    assert forall i: nat :: i < |ids| ==> ids[i] != k.random[n] && ids[i] != k.random[q];
  }

  lemma GatherOne(infos: Infos, ids: seq<nat>, r: seq<Service>, n: nat, id: nat, now: int)
    requires Gathered(infos, ids, r, n, now) && id in infos && infos[id].randomPos == n
    ensures if IsTerrible(infos[id], now) then Gathered(infos, ids, r, n + 1, now)
            else Gathered(infos, ids + [id], r + [infos[id].addr], n + 1, now)
  {
    hide IsTerrible;
  }

  /** When all of vRandom has been gone through, nothing worth passing on is left out. */
  lemma GatheredAll(k: Book, ports: bool, h: Hashing, ids: seq<nat>, r: seq<Service>, n: nat, now: int)
    requires Consistent(k, ports, h, {}, {}) && Gathered(k.infos, ids, r, n, now)
    requires n == |k.random| && NoneMissed(k.infos, k.random, ids, n, now)
    ensures forall id <- k.infos :: !IsTerrible(k.infos[id], now) ==> k.infos[id].addr in r
  {
    hide IndexOk, AddrOk, TriedOk, NewOk, CountOk, TimesOk, IsTerrible;
    forall id <- k.infos | !IsTerrible(k.infos[id], now)
      ensures k.infos[id].addr in r
    {
      PlaceKnown(k.infos, k.random, id);
      assert k.random[k.infos[id].randomPos] in ids;
      var i: nat :| i < |ids| && ids[i] == id;
      assert r[i] == k.infos[id].addr;
    }
  }

  lemma GatheredAddresses(k: Book, ports: bool, h: Hashing, ids: seq<nat>, r: seq<Service>, n: nat, now: int)
    requires Consistent(k, ports, h, {}, {}) && Gathered(k.infos, ids, r, n, now)
    ensures forall i: nat :: i < |r| ==> WorthTelling(k, ports, r[i], now)
    ensures forall i: nat, j: nat :: i < j < |r| ==> Norm(ports, r[i]) != Norm(ports, r[j])
  {
    hide IndexOk, AddrOk, TriedOk, NewOk, CountOk, TimesOk, IsTerrible, Norm;
    forall i: nat | i < |r|
      ensures Norm(ports, r[i]) in k.addrs && k.addrs[Norm(ports, r[i])] == ids[i]
    {
      AddrKnown(k.infos, k.addrs, ports, ids[i]);
    }
  }

  /** An entry that may be given one more new slot. */
  ghost predicate MayEnter(k: Book, id: nat, spare: set<nat>) {
    && id in k.infos && !k.infos[id].inTried && k.infos[id].refCount < MAX_REFERENCES
    && (spare == {} || (spare == {id} && k.infos[id].refCount == 0))
  }

  /** Only references and the place in vRandom may differ. */
  ghost predicate SameRecord(a: Info, b: Info) {
    a == b.(refCount := a.refCount, randomPos := a.randomPos)
  }

  /** The entry of an address heard of for the first time: no statistics, one reference, and the time it was seen less
      the penalty, but not below zero. */
  ghost predicate FirstHeard(info: Info, addr: Service, source: Ip, time: nat, penalty: int) {
    && info == Info(addr, source, info.time, 0, 0, 0, 0, 1, false, info.randomPos)
    && info.time == if time > penalty then time - penalty else 0
  }

  /** The entry of an address heard of again: its time moves exactly if the news has a time and the entry has none, or
      one that is more than an hour and the penalty older (a day for an address not seen within the last day). */
  ghost predicate HeardAgain(was: Info, info: Info, time: nat, penalty: int, now: int) {
    var interval := if now - time < 86400 then 3600 else 86400;
    && info == was.(time := info.time, refCount := info.refCount, randomPos := info.randomPos)
    && info.time ==
       if time != 0 && (was.time == 0 || was.time + interval + penalty < time)
       then if time > penalty then time - penalty else 0
       else was.time
  }

  /** A new slot that an entry with this many references may take. */
  ghost predicate OpenTo(k: Book, s: Slot, refs: int, now: int) {
    s in k.newAt ==>
      && k.newAt[s] in k.infos
      && (IsTerrible(k.infos[k.newAt[s]], now) || (k.infos[k.newAt[s]].refCount > 1 && refs == 0))
  }

  /** The new slot of an unknown address is open to it. */
  ghost predicate Welcome(k: Book, h: Hashing, addr: Service, source: Ip, now: int) {
    OpenTo(k, NewSlot(h, addr, NewBucket(h, addr, source)), 0, now)
  }

  ghost function Placement(k: Book, ports: bool, h: Hashing, id: nat, source: Ip, now: int): Book
    requires id in k.infos && IndexOk(k.infos, k.random)
    requires forall t <- k.newAt :: k.newAt[t] in k.infos
  {
    var b := NewBucket(h, k.infos[id].addr, source);
    var s := NewSlot(h, k.infos[id].addr, b);
    if s in k.newAt && k.newAt[s] == id then k
    else if OpenTo(k, s, k.infos[id].refCount, now) then
      var c := Cleared(k, ports, s);
      if id in c.infos then Ref(c, h, id, b) else c
    else if k.infos[id].refCount == 0 then Deleted(k, ports, id)
    else k
  }

  lemma PlacementParts(k: Book, ports: bool, h: Hashing, id: nat, source: Ip, spare: set<nat>)
    requires Consistent(k, ports, h, {}, spare) && MayEnter(k, id, spare)
    ensures IndexOk(k.infos, k.random) && forall t <- k.newAt :: k.newAt[t] in k.infos
    ensures var s := NewSlot(h, k.infos[id].addr, NewBucket(h, k.infos[id].addr, source));
            !(s in k.newAt && k.newAt[s] == id) ==> (
              var c := Cleared(k, ports, s);
              && Consistent(c, ports, h, {}, spare) && s !in c.newAt && c.triedAt == k.triedAt && c.nTried == k.nTried && c.odd == k.odd
              && id in c.infos && SameButPlace(c.infos[id], k.infos[id]) && LosesOneNew(k.infos, c.infos))
  {
    hide IndexOk, AddrOk, TriedOk, NewOk, CountOk, TimesOk, Cleared, Keeps, LosesOneNew;
    SlotsKnown(k.infos, k.newAt, h);
    var s := NewSlot(h, k.infos[id].addr, NewBucket(h, k.infos[id].addr, source));
    if !(s in k.newAt && k.newAt[s] == id) {
      ClearedOk(k, ports, h, s, {}, spare);
      StillThere(k, Cleared(k, ports, s), s, id);
      KeepsButOne(k.infos, Cleared(k, ports, s).infos, if s in k.newAt then {k.newAt[s]} else {}, if s in k.newAt then k.newAt[s] else 0);
    }
  }

  lemma PlacementOk(k: Book, ports: bool, h: Hashing, id: nat, source: Ip, now: int, spare: set<nat>)
    requires Consistent(k, ports, h, {}, spare) && MayEnter(k, id, spare)
    ensures IndexOk(k.infos, k.random) && forall t <- k.newAt :: k.newAt[t] in k.infos
    ensures var p := Placement(k, ports, h, id, source, now);
            && Consistent(p, ports, h, {}, {}) && p.triedAt == k.triedAt && p.nTried == k.nTried && p.odd == k.odd
            && LosesOneNew(k.infos, p.infos)
            && (k.infos[id].refCount > 0 ==> id in p.infos && SameRecord(p.infos[id], k.infos[id]))
            && (k.infos[id].refCount == 0 && OpenTo(k, NewSlot(h, k.infos[id].addr, NewBucket(h, k.infos[id].addr, source)), 0, now) ==>
                  id in p.infos && SameRecord(p.infos[id], k.infos[id]) && p.infos[id].refCount == 1)
            && (k.infos[id].refCount == 0 && !OpenTo(k, NewSlot(h, k.infos[id].addr, NewBucket(h, k.infos[id].addr, source)), 0, now) ==>
                  p == Deleted(k, ports, id))
  {
    hide IndexOk, AddrOk, TriedOk, NewOk, CountOk, TimesOk, Cleared, Keeps, LosesOneNew, Deleted, OpenTo;
    PlacementParts(k, ports, h, id, source, spare);
    var b := NewBucket(h, k.infos[id].addr, source);
    var s := NewSlot(h, k.infos[id].addr, b);
    KeepsAll(k.infos);
    KeepsButOne(k.infos, k.infos, {}, 0);
    if k.infos[id].refCount == 0 {
      NowhereNew(k.infos, k.newAt, h, id);
    } else {
      assert spare == {};
    }
    if s in k.newAt && k.newAt[s] == id {
    } else if OpenTo(k, s, k.infos[id].refCount, now) {
      RefOk(Cleared(k, ports, s), ports, h, id, b, {}, spare);
      assert spare - {id} == {};
      LosesSame(k.infos, Cleared(k, ports, s).infos, Ref(Cleared(k, ports, s), h, id, b).infos);
    } else if k.infos[id].refCount == 0 {
      DeletedOk(k, ports, h, id, {}, spare);
      assert spare - {id} == {};
      DeletedRest(k, ports, id);
      KeepsButOne(k.infos, Deleted(k, ports, id).infos, {id}, id);
    }
  }

  lemma IssuedBelow(infos: Infos, count: nat)
    requires Issued(infos, count)
    ensures count !in infos
  {
  }

  /** The time an entry has after hearing of its address again. */
  function RefreshedTime(known: int, time: nat, penalty: int, now: int): int {
    var interval := if now - time < 24 * 60 * 60 then 60 * 60 else 24 * 60 * 60;
    if time != 0 && (known == 0 || known < time - interval - penalty)
    then if time - penalty > 0 then time - penalty else 0
    else known
  }

  ghost function Refreshed(k: Book, id: nat, time: nat, penalty: int, now: int): Book
    requires id in k.infos
  {
    k.(infos := k.infos[id := k.infos[id].(time := RefreshedTime(k.infos[id].time, time, penalty, now))])
  }

  /**
    A new entry below eight references that has been heard of later than it remembers looks
    for another slot, with a chance of one in 2^references.
   */
  predicate SeeksSlot(info: Info, time: nat, rand: nat -> nat) {
    && time != 0 && (info.time == 0 || time > info.time)
    && !info.inTried && info.refCount != MAX_REFERENCES
    && (info.refCount <= 0 || rand(Powers.Pow2(info.refCount)) == 0)
  }

  function Newcomer(addr: Service, source: Ip, time: nat, penalty: int): Info {
    Info(addr, source, if time - penalty > 0 then time - penalty else 0, 0, 0, 0, 0, 0, false, -1)
  }

  lemma NewcomerIs(addr: Service, source: Ip, time: nat, penalty: int)
    ensures var info := Newcomer(addr, source, time, penalty);
            && info.addr == addr && info.source == source && info.refCount == 0 && !info.inTried
            && info.lastTry == 0 && info.lastSuccess == 0
            && FirstHeard(info.(refCount := 1), addr, source, time, penalty)
  {
  }

  lemma RefreshedHeard(k: Book, id: nat, time: nat, penalty: int, now: int)
    requires id in k.infos
    ensures HeardAgain(k.infos[id], Refreshed(k, id, time, penalty, now).infos[id], time, penalty, now)
  {
  }

  lemma HeardStill(was: Info, refreshed: Info, info: Info, time: nat, penalty: int, now: int)
    requires HeardAgain(was, refreshed, time, penalty, now) && SameRecord(info, refreshed)
    ensures HeardAgain(was, info, time, penalty, now)
  {
  }

  lemma FirstStill(newcomer: Info, info: Info, addr: Service, source: Ip, time: nat, penalty: int)
    requires FirstHeard(newcomer.(refCount := 1), addr, source, time, penalty)
    requires SameRecord(info, newcomer) && info.refCount == 1
    ensures FirstHeard(info, addr, source, time, penalty)
  {
  }

  lemma SeekerFits(info: Info, time: nat, rand: nat -> nat)
    requires SeeksSlot(info, time, rand)
    ensures !info.inTried && info.refCount != MAX_REFERENCES
  {
  }

  lemma RefreshedOk(k: Book, ports: bool, h: Hashing, id: nat, time: nat, penalty: int, now: int)
    requires Consistent(k, ports, h, {}, {}) && id in k.infos
    ensures Consistent(Refreshed(k, id, time, penalty, now), ports, h, {}, {})
  {
    hide Consistent;
    StatisticsOk(k, ports, h, id, k.infos[id].(time := RefreshedTime(k.infos[id].time, time, penalty, now)), k.odd);
  }

  lemma BookParts(k: Book, ports: bool, h: Hashing, loose: set<nat>, spare: set<nat>)
    requires Consistent(k, ports, h, loose, spare)
    ensures IndexOk(k.infos, k.random)
    ensures forall t <- k.newAt :: k.newAt[t] in k.infos
    ensures forall a <- k.addrs :: k.addrs[a] in k.infos
  {
    hide IndexOk, TriedOk, CountOk, TimesOk, Homes;
  }

  /** What the manager makes of a routable address it is told about; `next` is the next id. */
  ghost function Told(k: Book, ports: bool, h: Hashing, next: nat, addr: Service, time: nat, source: Ip,
                      penalty: int, now: int, rand: nat -> nat): Book
    requires Consistent(k, ports, h, {}, {}) && next !in k.infos
  {
    ToldIs(k, ports, h, next, addr, time, source, penalty, now, rand);
    if Norm(ports, addr) in k.addrs then
      var id := k.addrs[Norm(ports, addr)];
      var t := Refreshed(k, id, time, penalty, now);
      if SeeksSlot(t.infos[id], time, rand) then Placement(t, ports, h, id, source, now) else t
    else
      var info := Newcomer(addr, source, time, penalty).(randomPos := |k.random|);
      Placement(Created(k, ports, next, info), ports, h, next, source, now)
  }

  lemma ToldIs(k: Book, ports: bool, h: Hashing, next: nat, addr: Service, time: nat, source: Ip,
               penalty: int, now: int, rand: nat -> nat)
    requires Consistent(k, ports, h, {}, {}) && next !in k.infos
    ensures Norm(ports, addr) in k.addrs ==>
              var id := k.addrs[Norm(ports, addr)];
              && id in k.infos
              && var t := Refreshed(k, id, time, penalty, now);
                 id in t.infos && IndexOk(t.infos, t.random) && forall s <- t.newAt :: t.newAt[s] in t.infos
    ensures Norm(ports, addr) !in k.addrs ==>
              var c := Created(k, ports, next, Newcomer(addr, source, time, penalty).(randomPos := |k.random|));
              next in c.infos && IndexOk(c.infos, c.random) && forall s <- c.newAt :: c.newAt[s] in c.infos
  {
    hide Consistent, IndexOk;
    BookParts(k, ports, h, {}, {});
    if Norm(ports, addr) in k.addrs {
      var id := k.addrs[Norm(ports, addr)];
      RefreshedOk(k, ports, h, id, time, penalty, now);
      BookParts(Refreshed(k, id, time, penalty, now), ports, h, {}, {});
    } else {
      var info := Newcomer(addr, source, time, penalty).(randomPos := |k.random|);
      CreatedOk(k, ports, h, next, info);
      BookParts(Created(k, ports, next, info), ports, h, {}, {next});
    }
  }

  lemma RefreshedLoses(k: Book, id: nat, time: nat, penalty: int, now: int)
    requires id in k.infos
    ensures var t := Refreshed(k, id, time, penalty, now);
            && LosesOneNew(k.infos, t.infos) && t.infos.Keys == k.infos.Keys
            && t.addrs == k.addrs && t.triedAt == k.triedAt && t.nTried == k.nTried && t.odd == k.odd
            && forall i <- k.infos :: t.infos[i].addr == k.infos[i].addr && t.infos[i].inTried == k.infos[i].inTried
  {
  }

  /** Another slot for a known entry. */
  lemma ReplacementOk(k: Book, k': Book, ports: bool, h: Hashing, addr: Service, id: nat, source: Ip, now: int)
    requires Consistent(k', ports, h, {}, {}) && id in k.infos && k'.infos.Keys == k.infos.Keys
    requires forall i <- k.infos :: k'.infos[i].addr == k.infos[i].addr && k'.infos[i].inTried == k.infos[i].inTried
    requires !k'.infos[id].inTried && k'.infos[id].refCount != MAX_REFERENCES
    requires Norm(ports, k.infos[id].addr) == Norm(ports, addr)
    ensures MayEnter(k', id, {})
    ensures IndexOk(k'.infos, k'.random) && forall t <- k'.newAt :: k'.newAt[t] in k'.infos
    ensures var p := Placement(k', ports, h, id, source, now);
            && Consistent(p, ports, h, {}, {}) && p.triedAt == k'.triedAt && p.nTried == k'.nTried && p.odd == k'.odd
            && LosesOneNew(k.infos, p.infos) && Norm(ports, addr) in p.addrs && p.addrs[Norm(ports, addr)] == id
            && id in p.infos && SameRecord(p.infos[id], k'.infos[id])
  {
    hide IndexOk, AddrOk, TriedOk, NewOk, CountOk, TimesOk, Placement, LosesOneNew, OpenTo;
    FreshRefs(k'.infos, k'.nTried, k'.nNew, id);
    PlacementOk(k', ports, h, id, source, now, {});
    var p := Placement(k', ports, h, id, source, now);
    AddrKnown(p.infos, p.addrs, ports, id);
    LosesOver(k.infos, k'.infos, p.infos);
  }

  lemma FreshRefs(infos: Infos, nTried: int, nNew: int, id: nat)
    requires CountOk(infos, nTried, nNew, {}, {}) && id in infos && !infos[id].inTried
    ensures 0 < infos[id].refCount <= MAX_REFERENCES
  {
    hide TriedIds, FreshIds;
  }

  lemma FreshRefsOf(k: Book, ports: bool, h: Hashing, id: nat)
    requires Consistent(k, ports, h, {}, {}) && id in k.infos && !k.infos[id].inTried
    ensures 0 < k.infos[id].refCount <= MAX_REFERENCES
  {
    hide IndexOk, AddrOk, TriedOk, NewOk, CountOk, TimesOk;
    FreshRefs(k.infos, k.nTried, k.nNew, id);
  }

  lemma AddrKnown(infos: Infos, addrs: map<Service, nat>, ports: bool, id: nat)
    requires AddrOk(infos, addrs, ports) && id in infos
    ensures Norm(ports, infos[id].addr) in addrs && addrs[Norm(ports, infos[id].addr)] == id
  {
  }

  lemma LosesOver(a: Infos, b: Infos, c: Infos)
    requires LosesOneNew(b, c) && a.Keys <= b.Keys && forall i <- a :: b[i].inTried == a[i].inTried
    ensures LosesOneNew(a, c)
  {
    assert forall i <- a :: i in b;
  }

  /** The newcomer is stored, with one reference, if its slot is open to it; otherwise nothing has changed. */
  ghost predicate NewcomerPlaced(k: Book, p: Book, ports: bool, h: Hashing, id: nat, info: Info, now: int) {
    && p.triedAt == k.triedAt && p.nTried == k.nTried && p.odd == k.odd && LosesOneNew(k.infos, p.infos)
    && (Welcome(k, h, info.addr, info.source, now) ==>
          && Norm(ports, info.addr) in p.addrs && p.addrs[Norm(ports, info.addr)] == id
          && id in p.infos && SameRecord(p.infos[id], info) && p.infos[id].refCount == 1)
    && (!Welcome(k, h, info.addr, info.source, now) ==> p == k)
  }

  /** An unknown address is stored if its slot is open, and otherwise leaves no trace. */
  lemma NewcomerOk(k: Book, ports: bool, h: Hashing, id: nat, info: Info, now: int)
    requires Consistent(k, ports, h, {}, {}) && id !in k.infos && Norm(ports, info.addr) !in k.addrs
    requires info.refCount == 0 && !info.inTried && info.lastTry == 0 && info.lastSuccess == 0
    ensures var c := Created(k, ports, id, info.(randomPos := |k.random|));
            && Consistent(c, ports, h, {}, {id}) && MayEnter(c, id, {id})
            && IndexOk(c.infos, c.random) && (forall t <- c.newAt :: c.newAt[t] in c.infos)
            && var p := Placement(c, ports, h, id, info.source, now);
               Consistent(p, ports, h, {}, {}) && NewcomerPlaced(k, p, ports, h, id, info, now)
  {
    hide IndexOk, AddrOk, TriedOk, NewOk, CountOk, TimesOk, Placement, LosesOneNew, OpenTo, Deleted;
    var placed := info.(randomPos := |k.random|);
    var c := Created(k, ports, id, placed);
    CreatedOk(k, ports, h, id, placed);
    PlacementOk(c, ports, h, id, info.source, now, {id});
    var p := Placement(c, ports, h, id, info.source, now);
    SlotsKnown(k.infos, k.newAt, h);
    OpenSame(k, c, NewSlot(h, info.addr, NewBucket(h, info.addr, info.source)), id, placed, now);
    LosesOver(k.infos, c.infos, p.infos);
    if Welcome(k, h, info.addr, info.source, now) {
      AddrKnown(p.infos, p.addrs, ports, id);
    } else {
      CreateDelete(k, ports, h, id, placed);
    }
  }

  lemma OpenSame(k: Book, c: Book, s: Slot, id: nat, info: Info, now: int)
    requires c.newAt == k.newAt && id !in k.infos && (forall t <- k.newAt :: k.newAt[t] in k.infos)
    requires c.infos == k.infos[id := info]
    ensures OpenTo(c, s, 0, now) == OpenTo(k, s, 0, now)
  {
    hide IsTerrible;
  }

  /** Deleting the entry just created gives the manager back as it was. */
  lemma CreateDelete(k: Book, ports: bool, h: Hashing, id: nat, info: Info)
    requires id !in k.infos && Norm(ports, info.addr) !in k.addrs && info.randomPos == |k.random|
    requires IndexOk(Created(k, ports, id, info).infos, Created(k, ports, id, info).random)
    ensures Deleted(Created(k, ports, id, info), ports, id) == k
  {
    hide IndexOk;
    var c := Created(k, ports, id, info);
    DeletedFrom(c, ports, id);
    assert c.infos - {id} == k.infos;
    assert c.addrs - {Norm(ports, info.addr)} == k.addrs;
    assert c.random[..|c.random| - 1] == k.random;
  }

  lemma LosesSame(infos: Infos, a: Infos, b: Infos)
    requires LosesOneNew(infos, a) && a.Keys == b.Keys
    ensures LosesOneNew(infos, b)
  {
    assert forall i <- infos :: i in a <==> i in b;
  }

  /** The id of an entry with exactly this address, port included. */
  ghost function KnownAs(k: Book, ports: bool, addr: Service): Option<nat> {
    var key := Norm(ports, addr);
    if key in k.addrs && k.addrs[key] in k.infos && k.infos[k.addrs[key]].addr == addr then Some(k.addrs[key]) else None
  }

  function Rotated(n: nat, rnd: nat): (b: nat)
    ensures b < NEW_BUCKETS
  {
    (n + rnd) % NEW_BUCKETS
  }

  lemma RotationCovers(home: nat, rnd: nat)
    requires home < NEW_BUCKETS
    ensures exists m: nat :: m < NEW_BUCKETS && Rotated(m, rnd) == home
  {
    var m := (home + NEW_BUCKETS - rnd % NEW_BUCKETS) % NEW_BUCKETS;
    assert Rotated(m, rnd) == home;
  }

  function WithSuccess(info: Info, time: int): Info {
    info.(lastSuccess := time, lastTry := time, attempts := 0)
  }

  /** An entry leaves or joins the odd ones. */
  function Marked(odd: set<nat>, id: nat, fine: bool): set<nat> {
    if fine then odd - {id} else odd + {id}
  }

  ghost function Succeeded(k: Book, id: nat, time: int): Book
    requires id in k.infos
  {
    k.(infos := k.infos[id := WithSuccess(k.infos[id], time)], odd := Marked(k.odd, id, time > 0))
  }

  /** What Good makes of an entry: new statistics, and a place in the tried table. */
  ghost function MarkedGood(k: Book, ports: bool, h: Hashing, id: nat, time: int): Book
    requires Consistent(k, ports, h, {}, {}) && id in k.infos
  {
    var t := Succeeded(k, id, time);
    StatisticsOk(k, ports, h, id, WithSuccess(k.infos[id], time), t.odd);
    if k.infos[id].inTried then t else MadeTried(t, ports, h, id)
  }

  lemma MarkedGoodOk(k: Book, ports: bool, h: Hashing, id: nat, time: int)
    requires Consistent(k, ports, h, {}, {}) && id in k.infos
    ensures Consistent(Succeeded(k, id, time), ports, h, {}, {})
    ensures var r := MarkedGood(k, ports, h, id, time);
            && Consistent(r, ports, h, {}, {}) && id in r.infos && r.infos[id].inTried
            && (Timely(r.infos[id]) <==> time > 0) && r.odd == Marked(k.odd, id, time > 0)
            && LosesOneNew(k.infos, r.infos)
  {
    hide Consistent, MadeTried;
    var t := Succeeded(k, id, time);
    StatisticsOk(k, ports, h, id, WithSuccess(k.infos[id], time), t.odd);
    if !k.infos[id].inTried {
      MadeTriedOk(t, ports, h, id);
      assert forall i <- k.infos :: i in t.infos && t.infos[i].inTried == k.infos[i].inTried;
    }
  }

  /** Statistics may change freely; an entry counts as odd unless its times stay in range. */
  lemma StatisticsOk(k: Book, ports: bool, h: Hashing, id: nat, info: Info, odd: set<nat>)
    requires Consistent(k, ports, h, {}, {}) && Rewrites(k.infos, id, info)
    requires info.inTried == k.infos[id].inTried && info.refCount == k.infos[id].refCount
    requires k.odd <= odd + {id}
    requires id in odd || (info.lastTry >= 0 && info.lastSuccess > 0)
             || (id !in k.odd && (info.lastTry == k.infos[id].lastTry || info.lastTry >= 0) && info.lastSuccess == k.infos[id].lastSuccess)
    ensures Consistent(k.(infos := k.infos[id := info], odd := odd), ports, h, {}, {})
  {
    hide IndexOk, AddrOk, TriedOk, NewOk, CountOk;
    TouchedOk(k, ports, h, id, info, odd, {}, {});
  }

  /** What MakeRoom relies on when it puts the evicted entry back in the new table. */
  lemma EvictParts(k: Book, ports: bool, h: Hashing, s: Slot, id: nat)
    requires Consistent(k, ports, h, {id}, {}) && s in k.triedAt && id in k.infos && !k.infos[id].inTried
    ensures k.triedAt[s] in k.infos
    ensures var e := k.triedAt[s];
            var u := Untried(k, h, e);
            var slot := NewSlot(h, k.infos[e].addr, NewBucket(h, k.infos[e].addr, k.infos[e].source));
            && Consistent(u, ports, h, {id} + {e}, {})
            && s == TriedSlot(h, k.infos[e].addr)
            && (slot in u.newAt ==> u.newAt[slot] in u.infos)
            && var c := Cleared(u, ports, slot);
               e in c.infos && c.infos[e].addr == k.infos[e].addr && c.infos[e].refCount == 0
  {
    hide IndexOk, AddrOk, TriedOk, NewOk, CountOk, TimesOk, Cleared;
    TriedKnown(k.infos, k.triedAt, h, s);
    var e := k.triedAt[s];
    LeaveTriedOk(k, ports, h, e, {id}, {});
    ClearedKeeps(Untried(k, h, e), ports, h, {id} + {e}, e);
  }

  lemma EmptiedNone(k: Book, h: Hashing, id: nat)
    requires id in k.infos
    ensures Emptied(k, h, id, 0) == k
  {
  }

  /** Clearing any new slot leaves a loose entry as it was. */
  lemma ClearedKeeps(k: Book, ports: bool, h: Hashing, loose: set<nat>, e: nat)
    requires Consistent(k, ports, h, loose, {}) && e in k.infos && e in loose
    ensures IndexOk(k.infos, k.random)
    ensures forall slot <- k.newAt :: k.newAt[slot] in k.infos
    ensures forall slot: Slot :: e in Cleared(k, ports, slot).infos && SameButPlace(Cleared(k, ports, slot).infos[e], k.infos[e])
    ensures k.infos[e].refCount == 0
  {
    hide IndexOk, AddrOk, TriedOk, NewOk, CountOk, TimesOk, Cleared, Keeps;
    SlotsKnown(k.infos, k.newAt, h);
    LooseRefs(k.infos, k.nTried, k.nNew, loose, e);
    forall slot: Slot
      ensures e in Cleared(k, ports, slot).infos && SameButPlace(Cleared(k, ports, slot).infos[e], k.infos[e])
    {
      ClearedOk(k, ports, h, slot, loose, {});
      StillThere(k, Cleared(k, ports, slot), slot, e);
    }
  }
}
