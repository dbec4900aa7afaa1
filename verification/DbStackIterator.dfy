/**
  The merging iterator over transactions of any depth: the iterator of a transaction on a
  transaction owns an iterator of the one below, down to the database's own.
 */
module DbCursors {
  import opened Options
  import opened KeyOrder
  import opened DbTransactions
  import opened DbIterators
  import opened DbStacks

  /** An iterator with the ones it owns: at the bottom the store's keys, above it one transaction each. */
  datatype Cursor =
    | Base(keys: seq<Key>, at: nat)
    | Over(below: Cursor, hidden: set<Key>, keys: seq<Key>, at: nat, belowKey: Key, fromBelow: bool)

  ghost function Depth(c: Cursor): nat {
    match c
    case Base(_, _) => 0
    case Over(below, _, _, _, _, _) => Depth(below) + 1
  }

  /** Key lists ascend, positions are inside, and written keys hide those below. */
  ghost predicate Made(c: Cursor) {
    && Ascending(c.keys) && c.at <= |c.keys|
    && (c.Over? ==> Made(c.below) && forall k | k in c.keys :: k in c.hidden)
  }

  ghost function Listed(keys: seq<Key>): set<Key> {
    set k | k in keys
  }

  /** All the keys the iterator can visit. */
  ghost function Visits(c: Cursor): set<Key> {
    match c
    case Base(keys, _) => Listed(keys)
    case Over(below, hidden, keys, _, _, _) => Listed(keys) + (Visits(below) - hidden)
  }

  /** The keys still to come. */
  ghost function Ahead(c: Cursor): set<Key>
    requires Made(c)
  {
    match c
    case Base(keys, at) => Listed(keys[at..])
    case Over(below, hidden, keys, at, _, _) => Listed(keys[at..]) + (Ahead(below) - hidden)
  }

  predicate HasKey(c: Cursor) {
    c.at < |c.keys| || (c.Over? && HasKey(c.below))
  }

  /** Skipped past hidden keys and decided which side is current, at every depth. */
  ghost predicate Ready(c: Cursor) {
    && Made(c)
    && (c.Over? ==>
          && Ready(c.below)
          && (HasKey(c.below) ==> c.belowKey == KeyOf(c.below) && c.belowKey !in c.hidden)
          && (c.at < |c.keys| && !HasKey(c.below) ==> !c.fromBelow)
          && (c.at >= |c.keys| && HasKey(c.below) ==> c.fromBelow)
          && (c.at < |c.keys| && HasKey(c.below) ==> c.fromBelow == !Less(c.keys[c.at], c.belowKey)))
  }

  /** GetKey: the key of the side that is current, empty at the end. */
  function KeyOf(c: Cursor): Key {
    if c.Over? && c.fromBelow && HasKey(c) then c.belowKey
    else if c.at < |c.keys| then c.keys[c.at]
    else []
  }

  /** The current key is the least one to come, at every depth. */
  lemma {:induction false} KeyIsLeast(c: Cursor)
    requires Ready(c) && HasKey(c)
    ensures KeyOf(c) in Ahead(c)
    ensures forall k | k in Ahead(c) && k != KeyOf(c) :: Less(KeyOf(c), k)
  {
    hide Less, Ascending;
    var cur := KeyOf(c);
    if c.at < |c.keys| {
      assert c.keys[c.at..] == [c.keys[c.at]] + c.keys[c.at + 1..];
      assert c.keys[c.at] in c.keys;
    }
    if c.Over? && HasKey(c.below) {
      KeyIsLeast(c.below);
    } else if c.Over? {
      NothingAhead(c.below);
    }
    forall k | k in Ahead(c) && k != cur
      ensures Less(cur, k)
    {
      if k in c.keys[c.at..] {
        ListAfter(c, k);
      } else {
        BelowAfter(c, k);
      }
    }
  }

  lemma ListAfter(c: Cursor, k: Key)
    requires Ready(c) && HasKey(c) && k in c.keys[c.at..] && k != KeyOf(c)
    ensures Less(KeyOf(c), k)
  {
    assert c.keys[c.at..] == [c.keys[c.at]] + c.keys[c.at + 1..] && c.keys[c.at] in c.keys;
    if k != c.keys[c.at] {
      TailAbove(c.keys, c.at, k);
    }
    if c.Over? && c.fromBelow {
      LessTotal(c.keys[c.at], c.belowKey);
      if k != c.keys[c.at] {
        LessTransitive(c.belowKey, c.keys[c.at], k);
      }
    }
  }

  lemma BelowAfter(c: Cursor, k: Key)
    requires Ready(c) && HasKey(c) && c.Over? && HasKey(c.below) && k in Ahead(c.below) && k != KeyOf(c)
    requires forall j | j in Ahead(c.below) && j != KeyOf(c.below) :: Less(KeyOf(c.below), j)
    ensures Less(KeyOf(c), k)
  {
    if !c.fromBelow && k != c.belowKey {
      LessTransitive(c.keys[c.at], c.belowKey, k);
    }
  }

  lemma {:induction false} NothingAhead(c: Cursor)
    requires Made(c) && !HasKey(c)
    ensures Ahead(c) == {}
  {
    if c.Over? {
      NothingAhead(c.below);
    }
  }

  /** DecideCur. */
  function Decided(c: Cursor): (r: Cursor)
    requires c.Over?
    ensures r.Over? && r == c.(fromBelow := r.fromBelow)
  {
    if c.at < |c.keys| && !HasKey(c.below) then c.(fromBelow := false)
    else if c.at >= |c.keys| && HasKey(c.below) then c.(fromBelow := true)
    else if c.at < |c.keys| && HasKey(c.below) then c.(fromBelow := !Less(c.keys[c.at], c.belowKey))
    else c
  }

  /** SkipDeletedAndOverwritten: moves the iterator below past the keys that are hidden from it. */
  method Skip(below: Cursor, hidden: set<Key>, key: Key) returns (r: Cursor, belowKey: Key)
    requires Ready(below)
    ensures Ready(r) && Depth(r) == Depth(below) && Visits(r) == Visits(below)
    ensures Ahead(r) - hidden == Ahead(below) - hidden
    ensures HasKey(r) ==> belowKey == KeyOf(r) && belowKey !in hidden
    decreases Depth(below), 1, 0
  {
    hide Ready, Ahead, Visits, KeyOf, Made, HasKey;
    r, belowKey := below, key;
    MadeOf(below);
    while HasKey(r)
      invariant Ready(r) && Made(r) && Depth(r) == Depth(below) && Visits(r) == Visits(below)
      invariant Ahead(r) - hidden == Ahead(below) - hidden
      decreases |Ahead(r)|
    {
      belowKey := KeyOf(r);
      if belowKey !in hidden {
        return;
      }
      KeyIsLeast(r);
      r := Advance(r);
      MadeOf(r);
    }
  }

  /** Next, on an iterator that has a key. */
  method Advance(c: Cursor) returns (r: Cursor)
    requires Ready(c) && HasKey(c)
    ensures Ready(r) && Depth(r) == Depth(c) && Visits(r) == Visits(c)
    ensures Ahead(r) == Ahead(c) - {KeyOf(c)}
    decreases Depth(c), 0, 0
  {
    match c
    case Base(keys, at) =>
      r := Base(keys, at + 1);
      PassListed(keys, at);
    case Over(below, hidden, keys, at, key, fromBelow) =>
      if fromBelow {
        KeyIsLeast(below);
        var below1 := Advance(below);
        var below2, key2 := Skip(below1, hidden, key);
        r := Decided(Over(below2, hidden, keys, at, key2, fromBelow));
        PassedBelow(c, r);
      } else {
        r := Decided(Over(below, hidden, keys, at + 1, key, fromBelow));
        PassListed(keys, at);
        PassedAbove(c, r);
      }
  }

  lemma PassListed(keys: seq<Key>, at: nat)
    requires Ascending(keys) && at < |keys|
    ensures Listed(keys[at + 1..]) == Listed(keys[at..]) - {keys[at]}
    ensures keys[at] in keys[at..]
  {
    assert keys[at..] == [keys[at]] + keys[at + 1..];
    if keys[at] in keys[at + 1..] {
      TailAbove(keys, at, keys[at]);
    }
  }

  lemma PassedBelow(c: Cursor, r: Cursor)
    requires Ready(c) && HasKey(c) && c.Over? && c.fromBelow && HasKey(c.below) && r.Over? && Made(r) && Made(r.below)
    requires r.keys == c.keys && r.at == c.at && r.hidden == c.hidden
    requires Ahead(r.below) - c.hidden == (Ahead(c.below) - {KeyOf(c.below)}) - c.hidden
    ensures Ahead(r) == Ahead(c) - {KeyOf(c)}
  {
    assert forall k | k in c.keys[c.at..] :: k in c.keys;
  }

  lemma PassedAbove(c: Cursor, r: Cursor)
    requires Ready(c) && HasKey(c) && c.Over? && !c.fromBelow && r.Over? && Made(r)
    requires c.at < |c.keys| && r.keys == c.keys && r.at == c.at + 1 && r.hidden == c.hidden && r.below == c.below
    requires Listed(c.keys[c.at + 1..]) == Listed(c.keys[c.at..]) - {c.keys[c.at]}
    ensures Ahead(r) == Ahead(c) - {KeyOf(c)}
  {
    assert c.keys[c.at] in c.keys;
  }

  ghost predicate NotBefore(from: Option<Key>, k: Key) {
    from.None? || !Less(k, from.value)
  }

  /** SeekToFirst (no bound) and Seek, through all depths. */
  method Start(c: Cursor, from: Option<Key>) returns (r: Cursor)
    requires Made(c)
    ensures Ready(r) && Depth(r) == Depth(c) && Visits(r) == Visits(c)
    ensures Ahead(r) == set k | k in Visits(c) && NotBefore(from, k)
    decreases Depth(c)
  {
    hide Less;
    var at := 0;
    if from.Some? {
      at := LowerBound(c.keys, from.value);
    } else {
      assert c.keys[0..] == c.keys;
    }
    match c
    case Base(keys, _) =>
      r := Base(keys, at);
    case Over(below, hidden, keys, _, key, fromBelow) =>
      var below1 := Start(below, from);
      var below2, key2 := Skip(below1, hidden, key);
      r := Decided(Over(below2, hidden, keys, at, key2, fromBelow));
      assert Ahead(r) == Listed(keys[at..]) + (Ahead(below2) - hidden);
  }

  /** From where the iterator stands to the end: every key to come once, in order. */
  method WalkKeys(c: Cursor) returns (keys: seq<Key>)
    requires Ready(c)
    ensures Enumerates(keys, Ahead(c))
  {
    hide Ready, Ahead, Visits, KeyOf, Made, HasKey, Collected, Enumerates, Less;
    keys := [];
    var it := c;
    MadeOf(c);
    CollectedNone(Ahead(c));
    while HasKey(it)
      invariant Ready(it) && Made(it) && Collected(keys, Ahead(c), Ahead(it))
      decreases |Ahead(it)|
    {
      KeyIsLeast(it);
      CollectNext(keys, Ahead(c), Ahead(it), KeyOf(it));
      keys := keys + [KeyOf(it)];
      it := Advance(it);
      MadeOf(it);
    }
    NothingAhead(it);
    CollectedAll(keys, Ahead(c));
  }

  lemma MadeOf(c: Cursor)
    requires Ready(c)
    ensures Made(c)
  {
  }

  /** The iterator of a level of the stack, with all it owns. */
  method NewCursor<V(==)>(stack: TransactionStack<V>, level: nat) returns (c: Cursor)
    requires stack.Valid() && level <= |stack.layers|
    ensures Made(c) && Depth(c) == level && Visits(c) == stack.views[level].Keys
    decreases level
  {
    if level == 0 {
      var keys := InOrder(stack.store.contents.Keys);
      c := Base(keys, |keys|);
      assert Visits(c) == stack.store.contents.Keys;
    } else {
      var below := NewCursor(stack, level - 1);
      var l := stack.layers[level - 1];
      assert Seen(stack.views[level - 1], l) == stack.views[level];
      var keys := InOrder(l.writes.Keys);
      c := Over(below, l.writes.Keys + l.deletes, keys, |keys|, [], false);
      assert LayerOk(l, stack.size);
      VisitsView(c, l, stack.views[level - 1]);
    }
  }

  lemma VisitsView<V>(c: Cursor, l: Layer<V>, parent: map<Key, V>)
    requires c.Over? && Visits(c.below) == parent.Keys && c.hidden == l.writes.Keys + l.deletes
    requires Enumerates(c.keys, l.writes.Keys) && l.writes.Keys !! l.deletes
    ensures Visits(c) == Seen(parent, l).Keys
  {
    assert Seen(parent, l).Keys == (parent.Keys - l.deletes) + l.writes.Keys;
  }

  /** Through all the nested iterators: exactly the keys of the level's map from a bound on, once each, in order,
      with their values. */
  method EnumerateLevel<V(==)>(stack: TransactionStack<V>, level: nat, from: Option<Key>)
    returns (keys: seq<Key>, values: seq<V>)
    requires stack.Valid() && level <= |stack.layers|
    ensures Enumerates(keys, set k | k in stack.views[level].Keys && NotBefore(from, k))
    ensures |values| == |keys|
    ensures forall i | 0 <= i < |keys| :: keys[i] in stack.views[level] && values[i] == stack.views[level][keys[i]]
  {
    var c := NewCursor(stack, level);
    c := Start(c, from);
    keys := WalkKeys(c);
    values := [];
    assert forall k | k in keys :: k in stack.views[level];
    hide Enumerates, Ahead, Visits, Ready, Seen, LayerOk;
    for i := 0 to |keys|
      invariant |values| == i && forall j | 0 <= j < i :: keys[j] in stack.views[level] && values[j] == stack.views[level][keys[j]]
    {
      assert keys[i] in keys;
      var v := stack.Read(level, keys[i]);
      values := values + [v.value];
    }
  }
}
