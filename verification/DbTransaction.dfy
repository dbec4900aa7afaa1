/** The database transaction of src/dbwrapper.h: writes and deletes kept in memory over a parent store,
    with exact memory accounting, and an iterator that merges both in key order. */
module KeyOrder {
  /** A serialized key: a byte string. */
  type Key = seq<nat>

  /** DataStreamCmp::less */
  predicate Less(a: Key, b: Key) {
    b != [] && (a == [] || a[0] < b[0] || (a[0] == b[0] && Less(a[1..], b[1..])))
  }

  /** a comes before b where they first differ, or where a ends first. */
  ghost predicate FirstDiffers(a: Key, b: Key, i: nat) {
    i <= |a| && i < |b| && a[..i] == b[..i] && (i == |a| || a[i] < b[i])
  }

  /** The order is the lexicographic one on bytes. */
  lemma {:induction false} LessIsLexicographic(a: Key, b: Key)
    ensures Less(a, b) <==> exists i: nat :: FirstDiffers(a, b, i)
  {
    if b == [] {
    } else if a == [] || a[0] < b[0] {
      assert FirstDiffers(a, b, 0);
    } else if a[0] == b[0] {
      LessIsLexicographic(a[1..], b[1..]);
      if Less(a[1..], b[1..]) {
        var i: nat :| FirstDiffers(a[1..], b[1..], i);
        DifferLater(a, b, i);
        assert FirstDiffers(a, b, i + 1);
      }
      if i: nat :| FirstDiffers(a, b, i) {
        assert i > 0;
        DifferLater(a, b, i - 1);
        assert FirstDiffers(a[1..], b[1..], i - 1);
      }
    } else {
      forall i: nat
        ensures !FirstDiffers(a, b, i)
      {
        if 0 < i <= |a| && i < |b| {
          assert a[..i][0] != b[..i][0];
        }
      }
    }
  }

  lemma DifferLater(a: Key, b: Key, i: nat)
    requires a != [] && b != [] && a[0] == b[0]
    ensures FirstDiffers(a[1..], b[1..], i) <==> FirstDiffers(a, b, i + 1)
  {
    if i + 1 <= |a| && i + 1 < |b| {
      assert a[..i + 1] == [a[0]] + a[1..][..i] && b[..i + 1] == [b[0]] + b[1..][..i];
    }
  }

  lemma {:induction false} LessIrreflexive(a: Key)
    ensures !Less(a, a)
  {
    if a != [] {
      LessIrreflexive(a[1..]);
    }
  }

  lemma {:induction false} LessTransitive(a: Key, b: Key, c: Key)
    requires Less(a, b) && Less(b, c)
    ensures Less(a, c)
    decreases |b|
  {
    if a != [] && a[0] == b[0] == c[0] {
      LessTransitive(a[1..], b[1..], c[1..]);
    }
  }

  lemma {:induction false} LessTotal(a: Key, b: Key)
    ensures a == b || Less(a, b) || Less(b, a)
  {
    if a != [] && b != [] && a[0] == b[0] {
      LessTotal(a[1..], b[1..]);
      assert a == [a[0]] + a[1..] && b == [b[0]] + b[1..];
    }
  }

  /** Keys in the order an ordered map or the database walks them. */
  ghost predicate Ascending(keys: seq<Key>) {
    forall i, j | 0 <= i < j < |keys| :: Less(keys[i], keys[j])
  }

  ghost predicate Enumerates(keys: seq<Key>, s: set<Key>) {
    Ascending(keys) && forall k :: k in keys <==> k in s
  }

  /** Every finite set of keys has a least one. */
  lemma {:induction false} LeastKey(s: set<Key>) returns (least: Key)
    requires s != {}
    ensures least in s && forall k | k in s && k != least :: Less(least, k)
    decreases |s|
  {
    var k :| k in s;
    var rest := s - {k};
    if rest == {} {
      least := k;
      assert s == {k};
    } else {
      var m := LeastKey(rest);
      LessTotal(k, m);
      if Less(k, m) {
        least := k;
        forall x | x in s && x != k
          ensures Less(k, x)
        {
          if x != m {
            LessTransitive(k, m, x);
          }
        }
      } else {
        least := m;
      }
    }
  }

  /** The order in which a std::map or the database walks its keys. */
  method InOrder(s: set<Key>) returns (keys: seq<Key>)
    ensures Enumerates(keys, s)
  {
    keys := [];
    var rest := s;
    assert s - rest == {};
    while rest != {}
      invariant rest <= s && Enumerates(keys, s - rest)
      invariant forall k, r | k in keys && r in rest :: Less(k, r)
      decreases |rest|
    {
      hide Less;
      ghost var least := LeastKey(rest);
      var k :| k in rest && forall r | r in rest && r != k :: Less(k, r);
      AppendLeast(keys, s, rest, k);
      keys := keys + [k];
      rest := rest - {k};
    }
    assert s - {} == s;
  }

  lemma AppendLeast(keys: seq<Key>, s: set<Key>, rest: set<Key>, k: Key)
    requires rest <= s && Enumerates(keys, s - rest) && k in rest
    requires forall x, r | x in keys && r in rest :: Less(x, r)
    requires forall r | r in rest && r != k :: Less(k, r)
    ensures Enumerates(keys + [k], s - (rest - {k}))
    ensures forall x, r | x in keys + [k] && r in rest - {k} :: Less(x, r)
  {
    hide Less;
    var more := keys + [k];
    forall x
      ensures x in more <==> x in s - (rest - {k})
    {
    }
    forall i, j | 0 <= i < j < |more|
      ensures Less(more[i], more[j])
    {
      assert i < |keys| && keys[i] in keys;
    }
  }

  /** A set of keys has only one enumeration. */
  lemma {:induction false} EnumerationUnique(x: seq<Key>, y: seq<Key>, s: set<Key>)
    requires Enumerates(x, s) && Enumerates(y, s)
    ensures x == y
    decreases |x|
  {
    assert (x == [] || x[0] in x) && (y == [] || y[0] in y);
    if x != [] {
      var i :| 0 <= i < |y| && y[i] == x[0];
      var j :| 0 <= j < |x| && x[j] == y[0];
      if i > 0 && j > 0 {
        LessTransitive(x[0], y[0], x[0]);
        LessIrreflexive(x[0]);
      }
      assert x[0] == y[0];
      TailEnumerates(x, s);
      TailEnumerates(y, s);
      EnumerationUnique(x[1..], y[1..], s - {x[0]});
      assert x == [x[0]] + x[1..] && y == [y[0]] + y[1..];
    }
  }

  lemma TailEnumerates(x: seq<Key>, s: set<Key>)
    requires Enumerates(x, s) && x != []
    ensures Enumerates(x[1..], s - {x[0]})
  {
    forall k
      ensures k in x[1..] <==> k in s - {x[0]}
    {
      if k in x[1..] {
        var i :| 0 <= i < |x[1..]| && x[1..][i] == k;
        assert x[i + 1] == k && Less(x[0], x[i + 1]);
        LessIrreflexive(x[0]);
      }
      if k in s && k != x[0] {
        var i :| 0 <= i < |x| && x[i] == k;
        assert x[1..][i - 1] == k;
      }
    }
  }
}

module DbTransactions {
  import opened Options
  import opened KeyOrder

  /** A store the transaction reads from or commits to. */
  class Store<V(==)> {
    var contents: map<Key, V>

    method Write(k: Key, v: V)
      modifies this
      ensures contents == old(contents)[k := v]
    {
      contents := contents[k := v];
    }

    method Erase(k: Key)
      modifies this
      ensures contents == old(contents) - {k}
    {
      contents := contents - {k};
    }
  }

  /** What a reader sees: the parent without the deleted keys, with the written values on top. */
  ghost function Overlay<V>(parent: map<Key, V>, writes: map<Key, V>, deletes: set<Key>): map<Key, V> {
    (parent - deletes) + writes
  }

  lemma OverlayWrite<V>(parent: map<Key, V>, writes: map<Key, V>, deletes: set<Key>, k: Key, v: V)
    ensures Overlay(parent, writes[k := v], deletes - {k}) == Overlay(parent, writes, deletes)[k := v]
  {
  }

  lemma OverlayErase<V>(parent: map<Key, V>, writes: map<Key, V>, deletes: set<Key>, k: Key)
    ensures Overlay(parent, writes - {k}, deletes + {k}) == Overlay(parent, writes, deletes) - {k}
  {
  }

  lemma OverlayNothing<V>(parent: map<Key, V>)
    ensures Overlay(parent, map[], {}) == parent
  {
  }

  // ----- Memory accounting -----

  ghost function KeyUsage(keys: set<Key>): nat {
    if keys == {} then 0
    else
      var k :| k in keys;
      |k| + KeyUsage(keys - {k})
  }

  lemma {:induction false} KeyUsageSplit(keys: set<Key>, k: Key)
    requires k in keys
    ensures KeyUsage(keys) == |k| + KeyUsage(keys - {k})
    decreases |keys|
  {
    var p :| p in keys && KeyUsage(keys) == |p| + KeyUsage(keys - {p});
    if p != k {
      KeyUsageSplit(keys - {p}, k);
      assert keys - {p} - {k} == keys - {k} - {p};
      KeyUsageSplit(keys - {k}, p);
    }
  }

  ghost function ValueUsage<V>(writes: map<Key, V>, size: V -> nat): nat
    decreases |writes|
  {
    if writes == map[] then 0
    else
      var k :| k in writes;
      |k| + size(writes[k]) + ValueUsage(writes - {k}, size)
  }

  lemma {:induction false} ValueUsageSplit<V>(writes: map<Key, V>, size: V -> nat, k: Key)
    requires k in writes
    ensures ValueUsage(writes, size) == |k| + size(writes[k]) + ValueUsage(writes - {k}, size)
    decreases |writes|
  {
    var p :| p in writes && ValueUsage(writes, size) == |p| + size(writes[p]) + ValueUsage(writes - {p}, size);
    if p != k {
      ValueUsageSplit(writes - {p}, size, k);
      assert writes - {p} - {k} == writes - {k} - {p};
      ValueUsageSplit(writes - {k}, size, p);
    }
  }

  lemma ValueUsagePut<V>(writes: map<Key, V>, size: V -> nat, k: Key, v: V)
    ensures ValueUsage(writes[k := v], size) ==
            |k| + size(v) + ValueUsage(writes, size) - (if k in writes then |k| + size(writes[k]) else 0)
  {
    ValueUsageSplit(writes[k := v], size, k);
    assert writes[k := v] - {k} == writes - {k};
    if k in writes {
      ValueUsageSplit(writes, size, k);
    } else {
      assert writes - {k} == writes;
    }
  }

  // ----- What a transaction holds -----

  /** The writes, deletes and memory count of one transaction. */
  datatype Layer<V> = Layer(writes: map<Key, V>, deletes: set<Key>, usage: int)

  ghost predicate LayerOk<V>(l: Layer<V>, size: V -> nat) {
    && l.writes.Keys !! l.deletes
    && l.usage == ValueUsage(l.writes, size) + KeyUsage(l.deletes)
  }

  ghost function Seen<V>(parent: map<Key, V>, l: Layer<V>): map<Key, V> {
    Overlay(parent, l.writes, l.deletes)
  }

  method WriteLayer<V>(l: Layer<V>, size: V -> nat, k: Key, v: V, ghost parent: map<Key, V>) returns (r: Layer<V>)
    requires LayerOk(l, size)
    ensures LayerOk(r, size) && Seen(parent, r) == Seen(parent, l)[k := v]
  {
    hide ValueUsage, KeyUsage, Overlay;
    OverlayWrite(parent, l.writes, l.deletes, k, v);
    var deletes, usage := l.deletes, l.usage;
    if k in deletes {
      KeyUsageSplit(deletes, k);
      deletes := deletes - {k};
      usage := usage - |k|;
    } else {
      assert deletes - {k} == deletes;
    }
    ValueUsagePut(l.writes, size, k, v);
    if k in l.writes {
      usage := usage - (|k| + size(l.writes[k]));
    }
    r := Layer(l.writes[k := v], deletes, usage + (|k| + size(v)));
  }

  method EraseLayer<V>(l: Layer<V>, size: V -> nat, k: Key, ghost parent: map<Key, V>) returns (r: Layer<V>)
    requires LayerOk(l, size)
    ensures LayerOk(r, size) && Seen(parent, r) == Seen(parent, l) - {k}
  {
    hide ValueUsage, KeyUsage, Overlay;
    OverlayErase(parent, l.writes, l.deletes, k);
    var writes, deletes, usage := l.writes, l.deletes, l.usage;
    if k in writes {
      ValueUsageSplit(writes, size, k);
      usage := usage - (|k| + size(writes[k]));
      writes := writes - {k};
    } else {
      assert writes - {k} == writes;
    }
    if k !in deletes {
      KeyUsageSplit(deletes + {k}, k);
      assert deletes + {k} - {k} == deletes;
      deletes := deletes + {k};
      usage := usage + |k|;
    } else {
      assert deletes + {k} == deletes;
    }
    r := Layer(writes, deletes, usage);
  }

  // ----- Replaying on a store -----

  method EraseAll<V>(store: Store<V>, keys: set<Key>)
    modifies store
    ensures store.contents == old(store.contents) - keys
  {
    var d := keys;
    while d != {}
      invariant d <= keys && store.contents - d == old(store.contents) - keys
      decreases |d|
    {
      var k :| k in d;
      ghost var before := store.contents;
      store.Erase(k);
      assert before - d == before - {k} - (d - {k});
      d := d - {k};
    }
  }

  lemma WriteOne<V>(before: map<Key, V>, w: map<Key, V>, k: Key)
    requires k in w
    ensures before + w == before[k := w[k]] + (w - {k})
  {
  }

  method WriteAll<V>(store: Store<V>, writes: map<Key, V>)
    modifies store
    ensures store.contents == old(store.contents) + writes
  {
    var w := writes;
    while w != map[]
      invariant store.contents + w == old(store.contents) + writes
      decreases |w|
    {
      var k :| k in w;
      ghost var before := store.contents;
      store.Write(k, w[k]);
      WriteOne(before, w, k);
      w := w - {k};
    }
    assert store.contents + map[] == store.contents;
  }

  // ----- The transaction -----

  class Transaction<V(==)> {
    /** GetSerializeSize of a value, left open. */
    const size: V -> nat
    const parent: Store<V>
    const commitTarget: Store<V>

    var writes: map<Key, V>
    var deletes: set<Key>
    var memoryUsage: int

    ghost predicate Valid()
      reads this
    {
      LayerOk(Layer(writes, deletes, memoryUsage), size)
    }

    ghost function View(): map<Key, V>
      reads this, parent
    {
      Overlay(parent.contents, writes, deletes)
    }

    constructor (size: V -> nat, parent: Store<V>, commitTarget: Store<V>)
      ensures Valid() && this.size == size && this.parent == parent && this.commitTarget == commitTarget
      ensures writes == map[] && deletes == {} && View() == parent.contents
    {
      this.size, this.parent, this.commitTarget := size, parent, commitTarget;
      writes, deletes, memoryUsage := map[], {}, 0;
    }

    method Write(k: Key, v: V)
      requires Valid()
      modifies this
      ensures Valid() && View() == old(View())[k := v]
    {
      var l := WriteLayer(Layer(writes, deletes, memoryUsage), size, k, v, parent.contents);
      writes, deletes, memoryUsage := l.writes, l.deletes, l.usage;
    }

    method Read(k: Key) returns (value: Option<V>)
      requires Valid()
      ensures value == if k in View() then Some(View()[k]) else None
    {
      if k in deletes {
        return None;
      }
      if k in writes {
        return Some(writes[k]);
      }
      return if k in parent.contents then Some(parent.contents[k]) else None;
    }

    method Exists(k: Key) returns (found: bool)
      requires Valid()
      ensures found <==> k in View()
    {
      if k in deletes {
        return false;
      }
      if k in writes {
        return true;
      }
      return k in parent.contents;
    }

    method Erase(k: Key)
      requires Valid()
      modifies this
      ensures Valid() && View() == old(View()) - {k}
    {
      var l := EraseLayer(Layer(writes, deletes, memoryUsage), size, k, parent.contents);
      writes, deletes, memoryUsage := l.writes, l.deletes, l.usage;
    }

    method Clear()
      modifies this
      ensures Valid() && View() == parent.contents && writes == map[] && deletes == {}
    {
      writes, deletes, memoryUsage := map[], {}, 0;
      OverlayNothing(parent.contents);
    }

    /** Replays deletes, then writes, on the target, in any order, and starts over. */
    method Commit()
      requires Valid()
      modifies this, commitTarget
      ensures Valid() && writes == map[] && deletes == {}
      ensures commitTarget.contents == Overlay(old(commitTarget.contents), old(writes), old(deletes))
      ensures commitTarget == parent ==> parent.contents == old(View()) && View() == old(View())
    {
      EraseAll(commitTarget, deletes);
      WriteAll(commitTarget, writes);
      Clear();
    }

    /** The branch for a negative counter is never the one that decides. */
    method GetMemoryUsage() returns (r: int)
      requires Valid()
      ensures 0 <= r == ValueUsage(writes, size) + KeyUsage(deletes)
    {
      r := if memoryUsage < 0 then 0 else memoryUsage;
    }
  }
}

module DbIterators {
  import opened KeyOrder
  import opened DbTransactions

  /** What is still to come: written keys from position ti, and parent keys from position pi that are neither
      overwritten nor deleted. */
  ghost function ToCome(wk: seq<Key>, pk: seq<Key>, hidden: set<Key>, ti: nat, pi: nat): set<Key>
    requires ti <= |wk| && pi <= |pk|
  {
    (set k | k in wk[ti..]) + (set k | k in pk[pi..] && k !in hidden)
  }

  lemma TailAbove(keys: seq<Key>, i: nat, k: Key)
    requires Ascending(keys) && i < |keys| && k in keys[i + 1..]
    ensures Less(keys[i], k) && k != keys[i]
  {
    var j :| 0 <= j < |keys[i + 1..]| && keys[i + 1..][j] == k;
    assert keys[i + 1 + j] == k;
    LessIrreflexive(k);
  }

  /** A hidden parent key is not missed when it is skipped. */
  lemma SkipHidden(wk: seq<Key>, pk: seq<Key>, hidden: set<Key>, ti: nat, pi: nat)
    requires ti <= |wk| && pi < |pk| && pk[pi] in hidden
    ensures ToCome(wk, pk, hidden, ti, pi + 1) == ToCome(wk, pk, hidden, ti, pi)
  {
    assert pk[pi..] == [pk[pi]] + pk[pi + 1..];
  }

  /** The position DecideCur picks holds the least key still to come. */
  lemma CurrentIsLeast(wk: seq<Key>, pk: seq<Key>, hidden: set<Key>, ti: nat, pi: nat, useParent: bool, k: Key)
    requires Ascending(wk) && Ascending(pk) && ti <= |wk| && pi <= |pk|
    requires pi < |pk| ==> pk[pi] !in hidden
    requires if useParent then pi < |pk| && (ti < |wk| ==> !Less(wk[ti], pk[pi]))
             else ti < |wk| && (pi < |pk| ==> Less(wk[ti], pk[pi]))
    requires forall w | w in wk :: w in hidden
    requires k in ToCome(wk, pk, hidden, ti, pi)
    ensures var cur := if useParent then pk[pi] else wk[ti]; k == cur || Less(cur, k)
  {
    if pi < |pk| {
      assert pk[pi..] == [pk[pi]] + pk[pi + 1..];
      if k in pk[pi + 1..] {
        TailAbove(pk, pi, k);
      }
    }
    if ti < |wk| {
      assert wk[ti..] == [wk[ti]] + wk[ti + 1..];
      if k in wk[ti + 1..] {
        TailAbove(wk, ti, k);
      }
      if pi < |pk| {
        LessTotal(wk[ti], pk[pi]);
        assert wk[ti] in wk;
        if useParent && k in wk[ti + 1..] {
          LessTransitive(pk[pi], wk[ti], k);
        }
        if !useParent && k in pk[pi + 1..] {
          LessTransitive(wk[ti], pk[pi], k);
        }
      }
    }
  }

  /** Moving past a written key, or past a parent key that shows, takes out that key and no other. */
  lemma PassWrite(wk: seq<Key>, pk: seq<Key>, hidden: set<Key>, ti: nat, pi: nat)
    requires Ascending(wk) && ti < |wk| && pi <= |pk| && wk[ti] in hidden
    ensures wk[ti] in ToCome(wk, pk, hidden, ti, pi)
    ensures ToCome(wk, pk, hidden, ti + 1, pi) == ToCome(wk, pk, hidden, ti, pi) - {wk[ti]}
  {
    assert wk[ti..] == [wk[ti]] + wk[ti + 1..];
    if wk[ti] in wk[ti + 1..] {
      TailAbove(wk, ti, wk[ti]);
    }
  }

  lemma PassParent(wk: seq<Key>, pk: seq<Key>, hidden: set<Key>, ti: nat, pi: nat)
    requires Ascending(pk) && ti <= |wk| && pi < |pk| && pk[pi] !in hidden
    requires forall w | w in wk :: w in hidden
    ensures pk[pi] in ToCome(wk, pk, hidden, ti, pi)
    ensures ToCome(wk, pk, hidden, ti, pi + 1) == ToCome(wk, pk, hidden, ti, pi) - {pk[pi]}
  {
    assert pk[pi..] == [pk[pi]] + pk[pi + 1..];
    if pk[pi] in pk[pi + 1..] {
      TailAbove(pk, pi, pk[pi]);
    }
  }

  /** Starting both sides at the first key not below a bound leaves the overlay's keys from that bound on. */
  lemma SeekMeaning<V>(wk: seq<Key>, pk: seq<Key>, parent: map<Key, V>, writes: map<Key, V>, deletes: set<Key>,
                       ti: nat, pi: nat, from: set<Key>)
    requires Enumerates(wk, writes.Keys) && Enumerates(pk, parent.Keys) && ti <= |wk| && pi <= |pk|
    requires (set k | k in wk[ti..]) == writes.Keys * from && (set k | k in pk[pi..]) == parent.Keys * from
    requires writes.Keys !! deletes
    ensures ToCome(wk, pk, writes.Keys + deletes, ti, pi) == Overlay(parent, writes, deletes).Keys * from
  {
    var shown := Overlay(parent, writes, deletes);
    assert shown.Keys == (parent.Keys - deletes) + writes.Keys;
    var right := set k | k in pk[pi..] && k !in writes.Keys + deletes;
    assert right == (parent.Keys * from) - (writes.Keys + deletes);
  }

  class Iterator<V(==)> {
    const transaction: Transaction<V>
    /** The keys of `writes` and of the parent, in iteration order. */
    const writeKeys: seq<Key>
    const parentKeys: seq<Key>

    var transactionIt: nat
    var parentIt: nat
    var parentKey: Key
    var curIsParent: bool

    /** Neither map has changed since the iterator was made, and the positions are inside. */
    ghost predicate Synced()
      reads this, transaction, transaction.parent
    {
      && transaction.Valid()
      && Enumerates(writeKeys, transaction.writes.Keys)
      && Enumerates(parentKeys, transaction.parent.contents.Keys)
      && transactionIt <= |writeKeys| && parentIt <= |parentKeys|
    }

    ghost function Hidden(): set<Key>
      reads transaction
    {
      transaction.writes.Keys + transaction.deletes
    }

    ghost function Remaining(): set<Key>
      requires transactionIt <= |writeKeys| && parentIt <= |parentKeys|
      reads this, transaction
    {
      ToCome(writeKeys, parentKeys, Hidden(), transactionIt, parentIt)
    }

    /** SkipDeletedAndOverwritten has been done. */
    ghost predicate Skipped()
      reads this, transaction
    {
      parentIt < |parentKeys| ==> parentKey == parentKeys[parentIt] && parentKey !in Hidden()
    }

    /** DecideCur has been done. */
    ghost predicate Decided()
      reads this
    {
      && (transactionIt < |writeKeys| && parentIt >= |parentKeys| ==> !curIsParent)
      && (transactionIt >= |writeKeys| && parentIt < |parentKeys| ==> curIsParent)
      && (transactionIt < |writeKeys| && parentIt < |parentKeys| ==>
            curIsParent == !Less(writeKeys[transactionIt], parentKey))
    }

    ghost predicate Ready()
      reads this, transaction, transaction.parent
    {
      Synced() && Skipped() && Decided()
    }

    constructor (transaction: Transaction<V>, writeKeys: seq<Key>, parentKeys: seq<Key>)
      requires transaction.Valid()
      requires Enumerates(writeKeys, transaction.writes.Keys)
      requires Enumerates(parentKeys, transaction.parent.contents.Keys)
      ensures Ready() && !Valid() && this.transaction == transaction
    {
      this.transaction, this.writeKeys, this.parentKeys := transaction, writeKeys, parentKeys;
      transactionIt, parentIt := |writeKeys|, |parentKeys|;
      parentKey, curIsParent := [], false;
    }

    predicate Valid()
      reads this
    {
      transactionIt < |writeKeys| || parentIt < |parentKeys|
    }

    function GetKey(): Key
      requires Ready() && Valid()
      reads this, transaction, transaction.parent
    {
      if curIsParent then parentKey else writeKeys[transactionIt]
    }

    /** The current key is the least one to come. */
    lemma KeyIsLeast()
      requires Ready() && Valid()
      ensures GetKey() in Remaining()
      ensures forall k | k in Remaining() && k != GetKey() :: Less(GetKey(), k)
    {
      hide Less, Ascending;
      HiddenWrites();
      forall k | k in Remaining() && k != GetKey()
        ensures Less(GetKey(), k)
      {
        CurrentIsLeast(writeKeys, parentKeys, Hidden(), transactionIt, parentIt, curIsParent, k);
      }
      if curIsParent {
        PassParent(writeKeys, parentKeys, Hidden(), transactionIt, parentIt);
      } else {
        PassWrite(writeKeys, parentKeys, Hidden(), transactionIt, parentIt);
      }
    }

    lemma HiddenWrites()
      requires Synced()
      ensures forall w | w in writeKeys :: w in Hidden()
      ensures Ascending(writeKeys) && Ascending(parentKeys)
      ensures transactionIt < |writeKeys| ==> writeKeys[transactionIt] in Hidden()
    {
      assert transactionIt < |writeKeys| ==> writeKeys[transactionIt] in writeKeys;
    }

    method SkipDeletedAndOverwritten()
      requires Synced()
      modifies this`parentIt, this`parentKey
      ensures Synced() && Skipped()
      ensures Remaining() == old(Remaining())
    {
      hide ToCome, Enumerates;
      while parentIt < |parentKeys|
        invariant Synced() && Remaining() == old(Remaining())
        decreases |parentKeys| - parentIt
      {
        parentKey := parentKeys[parentIt];
        if parentKey !in transaction.deletes && parentKey !in transaction.writes {
          break;
        }
        SkipHidden(writeKeys, parentKeys, Hidden(), transactionIt, parentIt);
        parentIt := parentIt + 1;
      }
    }

    method DecideCur()
      modifies this`curIsParent
      ensures Decided()
    {
      if transactionIt < |writeKeys| && !(parentIt < |parentKeys|) {
        curIsParent := false;
      } else if !(transactionIt < |writeKeys|) && parentIt < |parentKeys| {
        curIsParent := true;
      } else if transactionIt < |writeKeys| && parentIt < |parentKeys| {
        curIsParent := !Less(writeKeys[transactionIt], parentKey);
      }
    }

    /** Starts at the first key of the overlay. */
    method SeekToFirst()
      requires Synced()
      modifies this
      ensures Ready() && Remaining() == transaction.View().Keys
    {
      hide ToCome, Overlay;
      transactionIt, parentIt := 0, 0;
      assert writeKeys[0..] == writeKeys && parentKeys[0..] == parentKeys;
      ghost var shown := transaction.View().Keys;
      ghost var all := transaction.writes.Keys + transaction.parent.contents.Keys + shown;
      SeekMeaning(writeKeys, parentKeys, transaction.parent.contents, transaction.writes, transaction.deletes, 0, 0, all);
      assert shown * all == shown;
      SkipDeletedAndOverwritten();
      DecideCur();
    }

    /** Starts at the first key of the overlay that is not below the given one. */
    method Seek(key: Key)
      requires Synced()
      modifies this
      ensures Ready() && Remaining() == set k | k in transaction.View().Keys && !Less(k, key)
    {
      hide ToCome, Overlay, Less;
      transactionIt := LowerBound(writeKeys, key);
      parentIt := LowerBound(parentKeys, key);
      ghost var shown := transaction.View().Keys;
      ghost var all := transaction.writes.Keys + transaction.parent.contents.Keys + shown;
      ghost var from := set k | k in all && !Less(k, key);
      SeekMeaning(writeKeys, parentKeys, transaction.parent.contents, transaction.writes, transaction.deletes,
                  transactionIt, parentIt, from);
      assert shown * from == set k | k in shown && !Less(k, key);
      SkipDeletedAndOverwritten();
      DecideCur();
    }

    /** Moves past the current key and past nothing else; at the end it stays. */
    method Next()
      requires Ready()
      modifies this
      ensures Ready()
      ensures old(Valid()) ==> Remaining() == old(Remaining()) - {old(GetKey())}
      ensures !old(Valid()) ==> Remaining() == old(Remaining())
    {
      hide ToCome, Less, Enumerates;
      if transactionIt == |writeKeys| && parentIt == |parentKeys| {
        return;
      }
      HiddenWrites();
      if curIsParent {
        assert parentIt < |parentKeys|;  // the assert of the source
        PassParent(writeKeys, parentKeys, Hidden(), transactionIt, parentIt);
        parentIt := parentIt + 1;
        SkipDeletedAndOverwritten();
      } else {
        assert transactionIt < |writeKeys|;  // the assert of the source
        PassWrite(writeKeys, parentKeys, Hidden(), transactionIt, parentIt);
        transactionIt := transactionIt + 1;
      }
      DecideCur();
    }

    method GetValue() returns (value: V)
      requires Ready() && Valid() && GetKey() in transaction.View()
      ensures value == transaction.View()[GetKey()]
    {
      var r := transaction.Read(GetKey());
      value := r.value;
    }

    /** Walking from where the iterator stands to the end lists every key to come once, in order, with its value. */
    method Walk() returns (keys: seq<Key>, values: seq<V>)
      requires Ready() && Remaining() <= transaction.View().Keys
      modifies this
      ensures Ready() && !Valid()
      ensures Enumerates(keys, old(Remaining()))
      ensures |values| == |keys|
      ensures forall i | 0 <= i < |keys| :: keys[i] in transaction.View() && values[i] == transaction.View()[keys[i]]
    {
      hide ToCome, Less, Overlay, Collected, Enumerates, Skipped, Decided;
      keys, values := [], [];
      ghost var target := Remaining();
      ghost var view := transaction.View();
      CollectedNone(target);
      while Valid()
        invariant Ready() && transaction.View() == view
        invariant Collected(keys, target, Remaining())
        invariant |values| == |keys| && forall i | 0 <= i < |keys| :: keys[i] in view && values[i] == view[keys[i]]
        decreases |Remaining()|
      {
        KeyIsLeast();
        var key := GetKey();
        CollectNext(keys, target, Remaining(), key);
        var value := GetValue();
        keys, values := keys + [key], values + [value];
        Next();
      }
      EndIsEmpty();
      CollectedAll(keys, target);
    }

    /** SeekToFirst and Next list exactly the overlay, once each, in lexicographic order. */
    method EnumerateAll() returns (keys: seq<Key>, values: seq<V>)
      requires Synced()
      modifies this
      ensures Enumerates(keys, transaction.View().Keys)
      ensures |values| == |keys|
      ensures forall i | 0 <= i < |keys| :: keys[i] in transaction.View() && values[i] == transaction.View()[keys[i]]
    {
      SeekToFirst();
      keys, values := Walk();
    }

    /** Seek and Next list exactly the overlay's keys from the sought key on. */
    method EnumerateFrom(key: Key) returns (keys: seq<Key>, values: seq<V>)
      requires Synced()
      modifies this
      ensures Enumerates(keys, set k | k in transaction.View().Keys && !Less(k, key))
      ensures |values| == |keys|
      ensures forall i | 0 <= i < |keys| :: keys[i] in transaction.View() && values[i] == transaction.View()[keys[i]]
    {
      Seek(key);
      keys, values := Walk();
    }

    lemma EndIsEmpty()
      requires Synced() && !Valid()
      ensures Remaining() == {}
    {
    }
  }

  /** `keys` lists, in order, what of `target` is no longer in `rest`, all of it below `rest`. */
  ghost predicate Collected(keys: seq<Key>, target: set<Key>, rest: set<Key>) {
    && rest <= target && Enumerates(keys, target - rest)
    && forall k, r | k in keys && r in rest :: Less(k, r)
  }

  lemma CollectedNone(target: set<Key>)
    ensures Collected([], target, target)
  {
  }

  lemma CollectNext(keys: seq<Key>, target: set<Key>, rest: set<Key>, key: Key)
    requires Collected(keys, target, rest) && key in rest && forall k | k in rest && k != key :: Less(key, k)
    ensures key in target && Collected(keys + [key], target, rest - {key})
  {
    hide Less;
    var more := keys + [key];
    forall k
      ensures k in more <==> k in target - (rest - {key})
    {
    }
  }

  lemma CollectedAll(keys: seq<Key>, target: set<Key>)
    requires Collected(keys, target, {})
    ensures Enumerates(keys, target)
  {
    assert target - {} == target;
  }

  /** NewIterator, for any transaction. */
  method NewIterator<V(==)>(transaction: Transaction<V>) returns (it: Iterator<V>)
    requires transaction.Valid()
    ensures fresh(it) && it.Ready() && !it.Valid() && it.transaction == transaction
  {
    var writeKeys := InOrder(transaction.writes.Keys);
    var parentKeys := InOrder(transaction.parent.contents.Keys);
    it := new Iterator(transaction, writeKeys, parentKeys);
  }

  /** std::map::lower_bound, and the database's Seek. */
  method LowerBound(keys: seq<Key>, key: Key) returns (i: nat)
    requires Ascending(keys)
    ensures i <= |keys|
    ensures forall k :: k in keys[i..] <==> k in keys && !Less(k, key)
  {
    i := 0;
    while i < |keys| && Less(keys[i], key)
      invariant i <= |keys| && forall j | 0 <= j < i :: Less(keys[j], key)
    {
      i := i + 1;
    }
    forall k
      ensures k in keys[i..] <==> k in keys && !Less(k, key)
    {
      assert keys == keys[..i] + keys[i..];
      if k in keys[i..] {
        var j :| 0 <= j < |keys[i..]| && keys[i..][j] == k;
        assert keys[i + j] == k;
        if Less(k, key) && j > 0 {
          LessTransitive(keys[i], k, key);
        }
      }
    }
  }
}
