/**
  The rolling Bloom filter of src/bloom.cpp: a set that remembers the most recent
  keys.  Every cell of the filter is two bits, one in each of two bit planes, holding
  0 (unset) or the generation 1, 2 or 3 that last set it.  Starting a generation wipes
  the cells that still carry its number.

  The specification is a plain Bloom filter over a window of the insertion history:
  a cell is set exactly when some hash of some key in the window falls on it.
 */
module RollingBloom {
  import Powers

  type Key = seq<bv8>

  /** A hash of the key, given the number of the hash function and the tweak. */
  type Hash = (nat, bv32, Key) -> bv32

  datatype Cell = Cell(word: nat, bit: bv6)

  // ---------------------------------------------------------------- bits and planes

  predicate Bit(x: bv64, b: bv6) {
    (x >> b) & 1 == 1
  }

  /** The word `0 - (uint64_t)bit`: all ones or all zeros. */
  function Spread(on: bool): bv64 {
    if on then 0xFFFF_FFFF_FFFF_FFFF else 0
  }

  predicate Low(generation: nat) { generation % 2 == 1 }
  predicate High(generation: nat) { generation / 2 == 1 }

  /** The bits of the two planes that survive the wiping of a generation. */
  function Mask(p1: bv64, p2: bv64, low: bool, high: bool): bv64 {
    Either(Differ(p1, low), Differ(p2, high))
  }

  function Differ(p: bv64, on: bool): bv64 {
    p ^ Spread(on)
  }

  function Either(x: bv64, y: bv64): bv64 {
    x | y
  }

  function Masked(p: bv64, mask: bv64): bv64 {
    p & mask
  }

  /** The wipe mask clears a cell exactly when its two bits spell the generation. */
  lemma MaskClears(p1: bv64, p2: bv64, low: bool, high: bool, b: bv6)
    ensures var mask := Mask(p1, p2, low, high);
            var keep := !(Bit(p1, b) == low && Bit(p2, b) == high);
            Bit(Masked(p1, mask), b) == (Bit(p1, b) && keep) && Bit(Masked(p2, mask), b) == (Bit(p2, b) && keep)
  {
    hide Bit, Spread, Either, Differ, Masked;
    BitOfAnd(p1, Mask(p1, p2, low, high), b);
    BitOfAnd(p2, Mask(p1, p2, low, high), b);
    BitOfOr(Differ(p1, low), Differ(p2, high), b);
    BitOfXor(p1, low, b);
    BitOfXor(p2, high, b);
  }

  lemma BitOfAnd(x: bv64, y: bv64, b: bv6)
    ensures Bit(Masked(x, y), b) == (Bit(x, b) && Bit(y, b))
  {}

  lemma BitOfOr(x: bv64, y: bv64, b: bv6)
    ensures Bit(Either(x, y), b) == (Bit(x, b) || Bit(y, b))
  {
    hide Bit, EitherBit;
    EitherPlane(x, y, b);
    EitherIsOr(x, y, b);
  }

  predicate EitherBit(x: bv64, y: bv64, b: bv6) {
    ((x | y) >> b) & 1 != 0
  }

  lemma EitherPlane(x: bv64, y: bv64, b: bv6)
    ensures EitherBit(x, y, b) <==> Bit(x, b) || Bit(y, b)
  {}

  lemma EitherIsOr(x: bv64, y: bv64, b: bv6)
    ensures EitherBit(x, y, b) <==> Bit(Either(x, y), b)
  {}

  lemma BitOfXor(x: bv64, on: bool, b: bv6)
    ensures Bit(Differ(x, on), b) == (Bit(x, b) != on)
  {}

  function WithBit(d: bv64, bit: bv6, on: bool): (r: bv64)
  {
    (d & !((1 as bv64) << bit)) | ((if on then 1 as bv64 else 0) << bit)
  }

  lemma WithBitWrites(d: bv64, bit: bv6, on: bool, b: bv6)
    ensures Bit(WithBit(d, bit, on), b) == if b == bit then on else Bit(d, b)
  {}

  /** The number a cell holds. */
  function Code(data: seq<bv64>, c: Cell): (r: nat)
    requires 2 * c.word + 1 < |data|
    ensures r <= 3
    ensures r == 0 <==> !Bit(data[2 * c.word], c.bit) && !Bit(data[2 * c.word + 1], c.bit)
  {
    (if Bit(data[2 * c.word], c.bit) then 1 else 0) + (if Bit(data[2 * c.word + 1], c.bit) then 2 else 0)
  }

  // ---------------------------------------------------------------- where a key falls


  /** Scales a 32-bit hash to an index below n: the whole part of x * n / 2^32. */
  function FastMod(x: bv32, n: nat): (r: nat)
    requires n > 0
    ensures r < n && r * Powers.TWO_TO_32 <= (x as int) * n < (r + 1) * Powers.TWO_TO_32
  {
    Scaled(x as int, n);
    (x as int) * n / Powers.TWO_TO_32
  }

  lemma Scaled(v: nat, n: nat)
    requires v < Powers.TWO_TO_32 && n > 0
    ensures var r := v * n / Powers.TWO_TO_32;
            0 <= r < n && r * Powers.TWO_TO_32 <= v * n < (r + 1) * Powers.TWO_TO_32
  {
    Powers.MulMono(v, Powers.TWO_TO_32 - 1, n, n);
  }

  /** The pair of words that the scaled hash falls in, and the bit that its lowest six bits name. */
  function CellOf(h: bv32, size: nat): (c: Cell)
    requires size > 0 && size % 2 == 0
    ensures 2 * c.word + 1 < size
    ensures 2 * c.word * Powers.TWO_TO_32 <= (h as int) * size < (2 * c.word + 2) * Powers.TWO_TO_32
    ensures c.bit as bv32 == h % 64
  {
    LowSix(h);
    Cell(FastMod(h, size) / 2, (h & 0x3F) as bv6)
  }

  lemma LowSix(h: bv32)
    ensures h & 0x3F == h % 64 && h & 0x3F < 64
    ensures ((h & 0x3F) as bv6) as bv32 == h % 64
  {
  }

  /** One of the first `upto` hashes of the key falls on the cell. */
  ghost predicate Hits(hash: Hash, tweak: bv32, upto: nat, size: nat, k: Key, c: Cell)
    requires size > 0 && size % 2 == 0
  {
    exists n: nat :: n < upto && CellOf(hash(n, tweak, k), size) == c
  }

  ghost predicate Touched(hash: Hash, tweak: bv32, funcs: nat, size: nat, keys: seq<Key>, c: Cell)
    requires size > 0 && size % 2 == 0
  {
    exists i: nat :: i < |keys| && Hits(hash, tweak, funcs, size, keys[i], c)
  }

  // ---------------------------------------------------------------- generations

  function Next(g: nat): (r: nat)
    requires 1 <= g <= 3
    ensures 1 <= r <= 3
  { if g == 3 then 1 else g + 1 }

  function Previous(g: nat): (r: nat)
    requires 1 <= g <= 3
    ensures 1 <= r <= 3 && Next(r) == g && Next(Next(g)) == r
  { if g == 1 then 3 else g - 1 }

  /** What a cell must hold, given which of the three generations of keys touch it. */
  function Expected(g: nat, young: bool, middle: bool, oldest: bool): (r: nat)
    requires 1 <= g <= 3
  {
    if young then g else if middle then Previous(g) else if oldest then Next(g) else 0
  }

  ghost predicate Represents(data: seq<bv64>, hash: Hash, tweak: bv32, funcs: nat, g: nat,
                             young: seq<Key>, middle: seq<Key>, oldest: seq<Key>)
    requires |data| > 0 && |data| % 2 == 0 && 1 <= g <= 3
  {
    forall c: Cell :: 2 * c.word + 1 < |data| ==>
      Code(data, c) == Expected(g, Touched(hash, tweak, funcs, |data|, young, c),
                                Touched(hash, tweak, funcs, |data|, middle, c),
                                Touched(hash, tweak, funcs, |data|, oldest, c))
  }

  /** The data after the cells of generation g have been wiped. */
  ghost predicate Wiped(before: seq<bv64>, after: seq<bv64>, g: nat)
    requires |after| == |before|
  {
    forall c: Cell :: 2 * c.word + 1 < |before| ==>
      Code(after, c) == if Code(before, c) == g then 0 else Code(before, c)
  }

  lemma WordWiped(before: seq<bv64>, after: seq<bv64>, g: nat, w: nat)
    requires |after| == |before| && 2 * w + 1 < |before| && 1 <= g <= 3
    requires var mask := Mask(before[2 * w], before[2 * w + 1], Low(g), High(g));
             after[2 * w] == Masked(before[2 * w], mask) && after[2 * w + 1] == Masked(before[2 * w + 1], mask)
    ensures forall b: bv6 :: Code(after, Cell(w, b)) ==
              if Code(before, Cell(w, b)) == g then 0 else Code(before, Cell(w, b))
  {
    hide Bit, Mask, Masked;
    forall b: bv6
      ensures Code(after, Cell(w, b)) == if Code(before, Cell(w, b)) == g then 0 else Code(before, Cell(w, b))
    {
      MaskClears(before[2 * w], before[2 * w + 1], Low(g), High(g), b);
    }
  }

  /** A cell written for generation g holds g, and no other cell changes. */
  lemma CellWritten(before: seq<bv64>, after: seq<bv64>, at: Cell, g: nat, c: Cell)
    requires 2 * at.word + 1 < |before| && 2 * c.word + 1 < |before| && 1 <= g <= 3
    requires after == before[2 * at.word := WithBit(before[2 * at.word], at.bit, Low(g))]
                            [2 * at.word + 1 := WithBit(before[2 * at.word + 1], at.bit, High(g))]
    ensures Code(after, c) == if c == at then g else Code(before, c)
  {
    hide Bit, WithBit;
    WithBitWrites(before[2 * at.word], at.bit, Low(g), c.bit);
    WithBitWrites(before[2 * at.word + 1], at.bit, High(g), c.bit);
  }

  /** Wiping turns the oldest generation's cells off and shifts the other two. */
  lemma WipeShifts(before: seq<bv64>, after: seq<bv64>, hash: Hash, tweak: bv32, funcs: nat, g: nat,
                   young: seq<Key>, middle: seq<Key>, oldest: seq<Key>)
    requires |before| > 0 && |before| % 2 == 0 && |after| == |before| && 1 <= g <= 3
    requires Represents(before, hash, tweak, funcs, g, young, middle, oldest)
    requires Wiped(before, after, Next(g))
    ensures Represents(after, hash, tweak, funcs, Next(g), [], young, middle)
  {
    hide Code, Hits;
    forall c: Cell | 2 * c.word + 1 < |after|
      ensures Code(after, c) == Expected(Next(g), Touched(hash, tweak, funcs, |after|, [], c),
                                         Touched(hash, tweak, funcs, |after|, young, c),
                                         Touched(hash, tweak, funcs, |after|, middle, c))
    {
      assert Code(before, c) == Expected(g, Touched(hash, tweak, funcs, |after|, young, c),
                                         Touched(hash, tweak, funcs, |after|, middle, c),
                                         Touched(hash, tweak, funcs, |after|, oldest, c));
    }
  }

  lemma TouchedByOneMore(hash: Hash, tweak: bv32, funcs: nat, size: nat, keys: seq<Key>, k: Key, c: Cell)
    requires size > 0 && size % 2 == 0
    ensures Touched(hash, tweak, funcs, size, keys + [k], c)
            <==> Touched(hash, tweak, funcs, size, keys, c) || Hits(hash, tweak, funcs, size, k, c)
  {
    hide Hits;
    if Touched(hash, tweak, funcs, size, keys, c) {
      var i: nat :| i < |keys| && Hits(hash, tweak, funcs, size, keys[i], c);
      assert (keys + [k])[i] == keys[i];
    }
    assert (keys + [k])[|keys|] == k;
  }

  lemma TouchedByEither(hash: Hash, tweak: bv32, funcs: nat, size: nat, a: seq<Key>, b: seq<Key>, c: Cell)
    requires size > 0 && size % 2 == 0
    ensures Touched(hash, tweak, funcs, size, a + b, c)
            <==> Touched(hash, tweak, funcs, size, a, c) || Touched(hash, tweak, funcs, size, b, c)
  {
    hide Hits;
    if Touched(hash, tweak, funcs, size, a, c) {
      var i: nat :| i < |a| && Hits(hash, tweak, funcs, size, a[i], c);
      assert (a + b)[i] == a[i];
    }
    if Touched(hash, tweak, funcs, size, b, c) {
      var i: nat :| i < |b| && Hits(hash, tweak, funcs, size, b[i], c);
      assert (a + b)[|a| + i] == b[i];
    }
    if Touched(hash, tweak, funcs, size, a + b, c) {
      var i: nat :| i < |a + b| && Hits(hash, tweak, funcs, size, (a + b)[i], c);
      if i < |a| {
        assert (a + b)[i] == a[i];
      } else {
        assert (a + b)[i] == b[i - |a|];
      }
    }
  }

  lemma HitsOneMore(hash: Hash, tweak: bv32, upto: nat, size: nat, k: Key, c: Cell)
    requires size > 0 && size % 2 == 0
    ensures Hits(hash, tweak, upto + 1, size, k, c)
            <==> Hits(hash, tweak, upto, size, k, c) || CellOf(hash(upto, tweak, k), size) == c
  {
    hide CellOf;
  }

  /** The first `upto` hashes of the key have been written over `before`. */
  ghost predicate Stamped(before: seq<bv64>, after: seq<bv64>, hash: Hash, tweak: bv32, upto: nat, g: nat, k: Key)
    requires |before| > 0 && |before| % 2 == 0 && |after| == |before|
  {
    forall c: Cell :: 2 * c.word + 1 < |before| ==>
      Code(after, c) == if Hits(hash, tweak, upto, |before|, k, c) then g else Code(before, c)
  }

  lemma StampNext(before: seq<bv64>, mid: seq<bv64>, after: seq<bv64>, hash: Hash, tweak: bv32, upto: nat, g: nat, k: Key)
    requires |before| > 0 && |before| % 2 == 0 && |mid| == |before| && |after| == |before| && 1 <= g <= 3
    requires Stamped(before, mid, hash, tweak, upto, g, k)
    requires var at := CellOf(hash(upto, tweak, k), |before|);
             after == mid[2 * at.word := WithBit(mid[2 * at.word], at.bit, Low(g))]
                         [2 * at.word + 1 := WithBit(mid[2 * at.word + 1], at.bit, High(g))]
    ensures Stamped(before, after, hash, tweak, upto + 1, g, k)
  {
    hide Code, Hits, WithBit, Low, High, CellOf;
    var at := CellOf(hash(upto, tweak, k), |before|);
    forall c: Cell | 2 * c.word + 1 < |before|
      ensures Code(after, c) == if Hits(hash, tweak, upto + 1, |before|, k, c) then g else Code(before, c)
    {
      CellWritten(mid, after, at, g, c);
      HitsOneMore(hash, tweak, upto, |before|, k, c);
    }
  }

  lemma StampAll(before: seq<bv64>, after: seq<bv64>, hash: Hash, tweak: bv32, funcs: nat, g: nat, k: Key,
                 young: seq<Key>, middle: seq<Key>, oldest: seq<Key>)
    requires |before| > 0 && |before| % 2 == 0 && |after| == |before| && 1 <= g <= 3
    requires Represents(before, hash, tweak, funcs, g, young, middle, oldest)
    requires Stamped(before, after, hash, tweak, funcs, g, k)
    ensures Represents(after, hash, tweak, funcs, g, young + [k], middle, oldest)
  {
    hide Code, Hits, Touched;
    forall c: Cell | 2 * c.word + 1 < |after|
      ensures Code(after, c) == Expected(g, Touched(hash, tweak, funcs, |after|, young + [k], c),
                                         Touched(hash, tweak, funcs, |after|, middle, c),
                                         Touched(hash, tweak, funcs, |after|, oldest, c))
    {
      TouchedByOneMore(hash, tweak, funcs, |after|, young, k, c);
    }
  }

  // ---------------------------------------------------------------- the window

  /** The last n keys of the history, or all of them if there are fewer. */
  function Last(history: seq<Key>, n: nat): (r: seq<Key>)
    ensures |r| == if n <= |history| then n else |history|
    ensures r <= history || |r| == n
  {
    if n <= |history| then history[|history| - n..] else history
  }

  lemma LastWithinLast(history: seq<Key>, n: nat, m: nat)
    requires n <= m
    ensures forall k <- Last(history, n) :: k in Last(history, m)
  {
    var wide := Last(history, m);
    assert Last(wide, n) == Last(history, n);
  }

  /**
    The three generations are the end of the history: the current one has `count` keys and
    the two before it have `per` each, unless the history is too short to fill them.
   */
  ghost predicate Windowed(history: seq<Key>, per: nat, count: nat,
                           young: seq<Key>, middle: seq<Key>, oldest: seq<Key>)
  {
    && |young| == count <= per
    && oldest + middle + young == Last(history, 2 * per + count)
    && (|middle| == per || (middle == [] && oldest == []))
    && (|oldest| == per || oldest == [])
  }

  lemma WindowRolls(history: seq<Key>, per: nat, young: seq<Key>, middle: seq<Key>, oldest: seq<Key>)
    requires Windowed(history, per, per, young, middle, oldest)
    ensures Windowed(history, per, 0, [], young, middle)
  {
    if oldest == [] {
      assert oldest + middle + young == middle + young;
    } else {
      assert (oldest + middle + young)[per..] == middle + young;
    }
    assert middle + young + [] == middle + young;
  }

  lemma WindowGrows(history: seq<Key>, per: nat, count: nat, k: Key,
                    young: seq<Key>, middle: seq<Key>, oldest: seq<Key>)
    requires Windowed(history, per, count, young, middle, oldest) && count < per
    ensures Windowed(history + [k], per, count + 1, young + [k], middle, oldest)
  {
    assert oldest + middle + (young + [k]) == (oldest + middle + young) + [k];
    assert Last(history + [k], 2 * per + count + 1) == Last(history, 2 * per + count) + [k];
  }

  // ---------------------------------------------------------------- the filter

  class RollingFilter {
    const hash: Hash
    const hashFuncs: nat
    const perGeneration: nat
    const data: array<bv64>
    var tweak: bv32
    var thisGeneration: nat
    var generation: nat

    /** Every key inserted since the last reset, oldest first. */
    ghost var history: seq<Key>
    ghost var young: seq<Key>
    ghost var middle: seq<Key>
    ghost var oldest: seq<Key>

    ghost predicate Valid()
      reads this, data
    {
      && data.Length > 0 && data.Length % 2 == 0
      && perGeneration > 0
      && 1 <= generation <= 3
      && Windowed(history, perGeneration, thisGeneration, young, middle, oldest)
      && Represents(data[..], hash, tweak, hashFuncs, generation, young, middle, oldest)
    }

    /** The keys the filter still remembers. */
    ghost function Window(): (r: seq<Key>)
      reads this, data
      requires Valid()
      ensures |r| == if 2 * perGeneration + thisGeneration <= |history|
                     then 2 * perGeneration + thisGeneration else |history|
    {
      Last(history, 2 * perGeneration + thisGeneration)
    }

    /** The sizes that the floating-point formulas give are parameters. */
    constructor (hash: Hash, elements: nat, hashFuncs: nat, filterBits: nat, tweak: bv32)
      requires elements > 0 && filterBits > 0
      ensures Valid() && fresh(data) && history == []
      ensures this.hash == hash && this.hashFuncs == hashFuncs && this.tweak == tweak
      ensures perGeneration == (elements + 1) / 2 && data.Length == (filterBits + 63) / 64 * 2
    {
      this.hash := hash;
      this.hashFuncs := hashFuncs;
      this.perGeneration := (elements + 1) / 2;
      this.data := new bv64[(filterBits + 63) / 64 * 2];
      this.tweak := tweak;
      new;
      Reset(tweak);
    }

    method Reset(newTweak: bv32)
      requires data.Length > 0 && data.Length % 2 == 0 && perGeneration > 0
      modifies this, data
      ensures Valid() && history == [] && tweak == newTweak && thisGeneration == 0 && generation == 1
    {
      tweak := newTweak;
      thisGeneration := 0;
      generation := 1;
      for i := 0 to data.Length
        invariant forall j :: 0 <= j < i ==> data[j] == 0
        invariant thisGeneration == 0 && generation == 1 && tweak == newTweak
      {
        data[i] := 0;
      }
      history, young, middle, oldest := [], [], [], [];
      forall c: Cell | 2 * c.word + 1 < data.Length
        ensures Code(data[..], c) == 0
      {
      }
    }

    /** Clears the cells of generation g, one pair of words at a time. */
    method Wipe(g: nat)
      requires data.Length % 2 == 0 && 1 <= g <= 3
      modifies data
      ensures Wiped(old(data[..]), data[..], g)
    {
      ghost var before := data[..];
      var p := 0;
      while p < data.Length
        invariant 0 <= p <= data.Length && p % 2 == 0
        invariant data[p..] == before[p..]
        invariant forall c: Cell :: 2 * c.word + 1 < p ==>
          Code(data[..], c) == if Code(before, c) == g then 0 else Code(before, c)
      {
        hide Code, Mask, Masked, Low, High;
        ghost var was := data[..];
        var p1, p2 := data[p], data[p + 1];
        var mask := Mask(p1, p2, Low(g), High(g));
        data[p] := Masked(p1, mask);
        data[p + 1] := Masked(p2, mask);
        assert data[..] == was[p := Masked(p1, mask)][p + 1 := Masked(p2, mask)];
        WipePair(before, was, data[..], g, p / 2);
        p := p + 2;
      }
    }

    /** Adds a key, starting a new generation first when the current one is full. */
    method Insert(key: Key)
      requires Valid()
      modifies this, data
      ensures Valid() && tweak == old(tweak)
      ensures history == old(history) + [key]
      ensures thisGeneration == if old(thisGeneration) == perGeneration then 1 else old(thisGeneration) + 1
      ensures generation == if old(thisGeneration) == perGeneration then Next(old(generation)) else old(generation)
    {
      assert thisGeneration <= perGeneration;
      hide Represents, Windowed, Stamped;
      if thisGeneration == perGeneration {
        StartGeneration();
      }
      ghost var before := data[..];
      WindowGrows(history, perGeneration, thisGeneration, key, young, middle, oldest);
      thisGeneration := thisGeneration + 1;
      Stamp(key);
      StampAll(before, data[..], hash, tweak, hashFuncs, generation, key, young, middle, oldest);
      young := young + [key];
      history := history + [key];
    }

    /** Moves on to the next generation number and wipes the cells that still carry it. */
    method StartGeneration()
      requires Valid() && thisGeneration == perGeneration
      modifies this, data
      ensures Valid() && tweak == old(tweak) && history == old(history)
      ensures thisGeneration == 0 && generation == Next(old(generation))
    {
      hide Represents, Windowed, Wiped;
      thisGeneration := 0;
      generation := generation + 1;
      if generation == 4 {
        generation := 1;
      }
      Wipe(generation);
      WipeShifts(old(data[..]), data[..], hash, tweak, hashFuncs, old(generation), young, middle, oldest);
      WindowRolls(history, perGeneration, young, middle, oldest);
      young, middle, oldest := [], young, middle;
    }

    /** Writes the current generation into the cell of every hash of the key. */
    method Stamp(key: Key)
      requires data.Length > 0 && data.Length % 2 == 0 && 1 <= generation <= 3
      modifies data
      ensures Stamped(old(data[..]), data[..], hash, tweak, hashFuncs, generation, key)
    {
      ghost var before := data[..];
      assert Stamped(before, data[..], hash, tweak, 0, generation, key);
      hide Stamped, WithBit, CellOf, Low, High;
      for n := 0 to hashFuncs
        invariant Stamped(before, data[..], hash, tweak, n, generation, key)
      {
        ghost var was := data[..];
        var at := CellOf(hash(n, tweak, key), data.Length);
        data[2 * at.word] := WithBit(data[2 * at.word], at.bit, Low(generation));
        data[2 * at.word + 1] := WithBit(data[2 * at.word + 1], at.bit, High(generation));
        StampNext(before, was, data[..], hash, tweak, n, generation, key);
      }
    }

    /**
      The filter answers as a plain Bloom filter over the window would: yes exactly when
      every cell of the key was set by some remembered key.
     */
    method Contains(key: Key) returns (r: bool)
      requires Valid()
      ensures r <==> forall n: nat :: n < hashFuncs ==>
                Touched(hash, tweak, hashFuncs, data.Length, Window(), CellOf(hash(n, tweak, key), data.Length))
      ensures key in Window() ==> r
    {
      hide Represents, Windowed, Touched, Bit, Either, CellOf, Last;
      forall c: Cell | 2 * c.word + 1 < data.Length
        ensures Code(data[..], c) != 0 <==> Touched(hash, tweak, hashFuncs, data.Length, Window(), c)
      {
        CellIsSet(c);
      }
      if key in Window() {
        RememberedTouches(hash, tweak, hashFuncs, data.Length, Window(), key);
      }
      for n := 0 to hashFuncs
        invariant forall m: nat :: m < n ==>
          Touched(hash, tweak, hashFuncs, data.Length, Window(), CellOf(hash(m, tweak, key), data.Length))
      {
        var at := CellOf(hash(n, tweak, key), data.Length);
        BitOfOr(data[2 * at.word], data[2 * at.word + 1], at.bit);
        if !Bit(Either(data[2 * at.word], data[2 * at.word + 1]), at.bit) {
          return false;
        }
      }
      return true;
    }

    /** A cell is set exactly when a remembered key touches it. */
    lemma CellIsSet(c: Cell)
      requires Valid() && 2 * c.word + 1 < data.Length
      ensures Code(data[..], c) != 0 <==> Touched(hash, tweak, hashFuncs, data.Length, Window(), c)
    {
      hide Code, Touched;
      TouchedByEither(hash, tweak, hashFuncs, data.Length, oldest, middle, c);
      TouchedByEither(hash, tweak, hashFuncs, data.Length, oldest + middle, young, c);
    }

    /** The last N insertions are always remembered, N being the constructor's element count. */
    lemma RemembersLastElements(elements: nat)
      requires Valid() && perGeneration == (elements + 1) / 2
      ensures forall k <- Last(history, elements) :: k in Window()
    {
      hide Represents, Windowed, Last;
      LastWithinLast(history, elements, 2 * perGeneration + thisGeneration);
    }
  }

  lemma WipePair(before: seq<bv64>, was: seq<bv64>, now: seq<bv64>, g: nat, w: nat)
    requires |was| == |before| == |now| && 2 * w + 1 < |before| && 1 <= g <= 3
    requires was[2 * w..] == before[2 * w..]
    requires forall c: Cell :: 2 * c.word + 1 < 2 * w ==>
               Code(was, c) == if Code(before, c) == g then 0 else Code(before, c)
    requires var mask := Mask(was[2 * w], was[2 * w + 1], Low(g), High(g));
             now == was[2 * w := Masked(was[2 * w], mask)][2 * w + 1 := Masked(was[2 * w + 1], mask)]
    ensures now[2 * w + 2..] == before[2 * w + 2..]
    ensures forall c: Cell :: 2 * c.word + 1 < 2 * w + 2 ==>
              Code(now, c) == if Code(before, c) == g then 0 else Code(before, c)
  {
    hide Bit, Mask, Masked, Low, High;
    assert was[2 * w] == was[2 * w..][0] && was[2 * w + 1] == was[2 * w..][1];
    forall i | 2 * w + 2 <= i < |now|
      ensures now[i] == before[i]
    {
      assert now[i] == was[2 * w..][i - 2 * w];
    }
    WordWiped(before, now, g, w);
    forall c: Cell | 2 * c.word + 1 < 2 * w + 2
      ensures Code(now, c) == if Code(before, c) == g then 0 else Code(before, c)
    {
      if c.word == w {
        assert c == Cell(w, c.bit);
      } else {
        assert Code(now, c) == Code(was, c);
      }
    }
  }

  lemma RememberedTouches(hash: Hash, tweak: bv32, funcs: nat, size: nat, keys: seq<Key>, k: Key)
    requires size > 0 && size % 2 == 0 && k in keys
    ensures forall n: nat :: n < funcs ==>
              Touched(hash, tweak, funcs, size, keys, CellOf(hash(n, tweak, k), size))
  {
    hide CellOf;
    forall n: nat | n < funcs
      ensures Touched(hash, tweak, funcs, size, keys, CellOf(hash(n, tweak, k), size))
    {
      assert Hits(hash, tweak, funcs, size, k, CellOf(hash(n, tweak, k), size));
    }
  }
}
