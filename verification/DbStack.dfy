/**
  Transactions over transactions (src/dbwrapper.h, src/evo/evodb.h): a store below any number
  of layers, each reading through the one below it and committing to it.  The specification is
  one plain map per level.
 */
module DbStacks {
  import opened Options
  import opened KeyOrder
  import opened DbTransactions

  lemma EraseOne<V>(before: map<Key, V>, d: set<Key>, k: Key)
    requires k in d
    ensures before - d == before - {k} - (d - {k})
  {
  }

  /** Replays a transaction on the one below it: deletes first, then writes, each in any order. */
  method CommitLayer<V>(lower: Layer<V>, upper: Layer<V>, size: V -> nat, ghost parent: map<Key, V>) returns (r: Layer<V>)
    requires LayerOk(lower, size)
    ensures LayerOk(r, size) && Seen(parent, r) == Seen(Seen(parent, lower), upper)
  {
    hide Seen, LayerOk;
    r := lower;
    var d := upper.deletes;
    while d != {}
      invariant LayerOk(r, size) && Seen(parent, r) - d == Seen(parent, lower) - upper.deletes
      decreases |d|
    {
      var k :| k in d;
      EraseOne(Seen(parent, r), d, k);
      r := EraseLayer(r, size, k, parent);
      d := d - {k};
    }
    assert Seen(parent, r) - {} == Seen(parent, r);
    var w := upper.writes;
    while w != map[]
      invariant LayerOk(r, size) && Seen(parent, r) + w == (Seen(parent, lower) - upper.deletes) + upper.writes
      decreases |w|
    {
      var k :| k in w;
      WriteOne(Seen(parent, r), w, k);
      r := WriteLayer(r, size, k, w[k], parent);
      w := w - {k};
    }
    assert Seen(parent, r) + map[] == Seen(parent, r);
    SeenIs(Seen(parent, lower), upper);
  }

  lemma SeenIs<V>(parent: map<Key, V>, l: Layer<V>)
    ensures Seen(parent, l) == (parent - l.deletes) + l.writes
  {
  }

  lemma EmptyLayer<V>(size: V -> nat, parent: map<Key, V>)
    ensures LayerOk(Layer(map[], {}, 0), size) && Seen(parent, Layer(map[], {}, 0)) == parent
  {
  }

  // ----- The specification: one plain map per level -----

  datatype Op<V> =
    | Put(k: Key, v: V)
    | Remove(k: Key)
    | Begin
    | CommitDown(level: nat)
    | Rollback

  ghost predicate Legal<V>(views: seq<map<Key, V>>, op: Op<V>) {
    |views| > 0 &&
    match op
    case Put(_, _) => |views| > 1
    case Remove(_) => |views| > 1
    case Begin => true
    case CommitDown(level) => 0 < level < |views|
    case Rollback => |views| > 1
  }

  ghost function SpecStep<V>(views: seq<map<Key, V>>, op: Op<V>): (r: seq<map<Key, V>>)
    requires Legal(views, op)
    ensures |r| > 0
  {
    var top := |views| - 1;
    match op
    case Put(k, v) => views[top := views[top][k := v]]
    case Remove(k) => views[top := views[top] - {k}]
    case Begin => views + [views[top]]
    case CommitDown(level) => views[level - 1 := views[level]]
    case Rollback => views[top := views[top - 1]]
  }

  ghost predicate LegalRun<V>(views: seq<map<Key, V>>, ops: seq<Op<V>>)
    decreases |ops|
  {
    ops == [] || (Legal(views, ops[0]) && LegalRun(SpecStep(views, ops[0]), ops[1..]))
  }

  ghost function SpecRun<V>(views: seq<map<Key, V>>, ops: seq<Op<V>>): seq<map<Key, V>>
    requires LegalRun(views, ops)
    decreases |ops|
  {
    if ops == [] then views else SpecRun(SpecStep(views, ops[0]), ops[1..])
  }

  // ----- The stack -----

  class TransactionStack<V(==)> {
    const size: V -> nat
    const store: Store<V>
    /** layers[0] is a transaction on the store, layers[i] one on layers[i - 1]. */
    var layers: seq<Layer<V>>
    /** What each level shows: view 0 is the store. */
    ghost var views: seq<map<Key, V>>

    ghost predicate Valid()
      reads this, store
    {
      && |views| == |layers| + 1
      && views[0] == store.contents
      && (forall i | 0 <= i < |layers| :: Seen(views[i], layers[i]) == views[i + 1])
      && (forall i | 0 <= i < |layers| :: LayerOk(layers[i], size))
    }

    constructor (size: V -> nat, store: Store<V>)
      ensures Valid() && this.size == size && this.store == store && layers == [] && views == [store.contents]
    {
      this.size, this.store := size, store;
      layers := [];
      views := [store.contents];
    }

    /** Reads through the layers from one level down to the store. */
    method Read(level: nat, k: Key) returns (value: Option<V>)
      requires Valid() && level <= |layers|
      ensures value == if k in views[level] then Some(views[level][k]) else None
      decreases level
    {
      if level == 0 {
        return if k in store.contents then Some(store.contents[k]) else None;
      }
      var l := layers[level - 1];
      assert Seen(views[level - 1], l) == views[level];
      if k in l.deletes {
        return None;
      }
      if k in l.writes {
        return Some(l.writes[k]);
      }
      value := Read(level - 1, k);
    }

    method Exists(level: nat, k: Key) returns (found: bool)
      requires Valid() && level <= |layers|
      ensures found <==> k in views[level]
      decreases level
    {
      if level == 0 {
        return k in store.contents;
      }
      var l := layers[level - 1];
      assert Seen(views[level - 1], l) == views[level];
      if k in l.deletes {
        return false;
      }
      if k in l.writes {
        return true;
      }
      found := Exists(level - 1, k);
    }

    method Write(k: Key, v: V)
      requires Valid() && |layers| > 0
      modifies this
      ensures Valid() && views == SpecStep(old(views), Put(k, v)) && |layers| == |old(layers)|
    {
      hide Seen, LayerOk;
      var top := |layers| - 1;
      assert Seen(views[top], layers[top]) == views[top + 1];
      var l := WriteLayer(layers[top], size, k, v, views[top]);
      layers := layers[top := l];
      views := views[top + 1 := views[top + 1][k := v]];
    }

    method Erase(k: Key)
      requires Valid() && |layers| > 0
      modifies this
      ensures Valid() && views == SpecStep(old(views), Remove(k)) && |layers| == |old(layers)|
    {
      hide Seen, LayerOk;
      var top := |layers| - 1;
      assert Seen(views[top], layers[top]) == views[top + 1];
      var l := EraseLayer(layers[top], size, k, views[top]);
      layers := layers[top := l];
      views := views[top + 1 := views[top + 1] - {k}];
    }

    method BeginTransaction()
      requires Valid()
      modifies this
      ensures Valid() && views == SpecStep(old(views), Begin) && layers == old(layers) + [Layer(map[], {}, 0)]
    {
      hide Seen, LayerOk;
      EmptyLayer(size, views[|views| - 1]);
      layers := layers + [Layer(map[], {}, 0)];
      views := views + [views[|views| - 1]];
    }

    method Clear()
      requires Valid() && |layers| > 0
      modifies this
      ensures Valid() && views == SpecStep(old(views), Rollback) && |layers| == |old(layers)|
    {
      hide Seen, LayerOk;
      var top := |layers| - 1;
      EmptyLayer(size, views[top]);
      layers := layers[top := Layer(map[], {}, 0)];
      views := views[top + 1 := views[top]];
    }

    /** After a commit the level below and the emptied level both show what the level showed. */
    method Commit(level: nat)
      requires Valid() && 0 < level <= |layers|
      modifies this, store
      ensures Valid() && views == SpecStep(old(views), CommitDown(level)) && |layers| == |old(layers)|
      ensures layers[level - 1] == Layer(map[], {}, 0)
    {
      hide Seen, LayerOk;
      var i := level - 1;
      var l := layers[i];
      ghost var shown := views[level];
      assert Seen(views[i], l) == shown;
      EmptyLayer(size, shown);
      if i == 0 {
        SeenIs(views[0], l);
        EraseAll(store, l.deletes);
        WriteAll(store, l.writes);
      } else {
        assert Seen(views[i - 1], layers[i - 1]) == views[i];
        var merged := CommitLayer(layers[i - 1], l, size, views[i - 1]);
        layers := layers[i - 1 := merged];
      }
      layers := layers[i := Layer(map[], {}, 0)];
      views := views[i := shown];
    }

    method Perform(op: Op<V>)
      requires Valid() && Legal(views, op)
      modifies this, store
      ensures Valid() && views == SpecStep(old(views), op)
    {
      match op
      case Put(k, v) => Write(k, v);
      case Remove(k) => Erase(k);
      case Begin => BeginTransaction();
      case CommitDown(level) => Commit(level);
      case Rollback => Clear();
    }

    /** Any legal run on any depth of transactions refines the plain maps, level by level. */
    method Run(ops: seq<Op<V>>)
      requires Valid() && LegalRun(views, ops)
      modifies this, store
      ensures Valid() && views == SpecRun(old(views), ops)
      decreases |ops|
    {
      if ops != [] {
        Perform(ops[0]);
        Run(ops[1..]);
      }
    }

    method GetMemoryUsage(level: nat) returns (r: int)
      requires Valid() && 0 < level <= |layers|
      ensures 0 <= r == ValueUsage(layers[level - 1].writes, size) + KeyUsage(layers[level - 1].deletes)
    {
      assert LayerOk(layers[level - 1], size);
      r := if layers[level - 1].usage < 0 then 0 else layers[level - 1].usage;
    }
  }
}
