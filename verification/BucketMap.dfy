/** The power-of-two tricks behind the bucket choice. Words of 32 bits are the numbers below 2^32, and their operators
    work bit by bit. */
module Bits {
  import opened Arithmetic

  const WORDS: nat := 0x1_0000_0000

  type Word = n: nat | n < 0x1_0000_0000

  /** Shifting right. */
  function Shr(x: nat, t: nat): nat
    decreases t
  {
    if t == 0 then x else Shr(x / 2, t - 1)
  }

  predicate Bit(x: nat, i: nat) {
    Shr(x, i) % 2 == 1
  }

  /** Bitwise or. */
  function Or(a: nat, b: nat): nat {
    if a == 0 then b
    else if b == 0 then a
    else 2 * Or(a / 2, b / 2) + (if a % 2 == 1 || b % 2 == 1 then 1 else 0)
  }

  /** Bitwise and. */
  function And(a: nat, b: nat): nat {
    if a == 0 || b == 0 then 0 else 2 * And(a / 2, b / 2) + (if a % 2 == 1 && b % 2 == 1 then 1 else 0)
  }

  lemma {:induction false} ShrTwice(x: nat, t: nat, i: nat)
    ensures Shr(Shr(x, t), i) == Shr(x, t + i)
    decreases t
  {
    if t == 0 {
    } else {
      ShrTwice(x / 2, t - 1, i);
    }
  }

  lemma {:induction false} ShrZero(i: nat)
    ensures Shr(0, i) == 0
  {
    if i == 0 {
    } else {
      ShrZero(i - 1);
    }
  }

  lemma {:induction false} OrBits(a: nat, b: nat, i: nat)
    ensures Bit(Or(a, b), i) <==> Bit(a, i) || Bit(b, i)
    decreases i
  {
    ShrZero(i);
    if a == 0 || b == 0 || i == 0 {
    } else {
      OrBits(a / 2, b / 2, i - 1);
    }
  }

  /** How many bits a number has. */
  function Length(x: nat): nat {
    if x == 0 then 0 else 1 + Length(x / 2)
  }

  /** The number of bits is the exponent of the first power of two above. */
  lemma {:induction false} LengthBounds(x: nat)
    ensures x < Pow2(Length(x)) && (x > 0 ==> Pow2(Length(x) - 1) <= x)
  {
    if x == 0 {
    } else {
      LengthBounds(x / 2);
    }
  }

  /** No bit lies above the length, and the highest below it is set. */
  lemma {:induction false} TopBit(x: nat, i: nat)
    ensures i >= Length(x) ==> !Bit(x, i)
    ensures x > 0 && i == Length(x) - 1 ==> Bit(x, i)
    decreases i
  {
    if x == 0 {
      ShrZero(i);
    } else if i > 0 {
      TopBit(x / 2, i - 1);
    }
  }

  lemma {:induction false} OnesBits(k: nat, i: nat)
    ensures Bit(Pow2(k) - 1, i) <==> i < k
    decreases k
  {
    if k == 0 {
      ShrZero(i);
    } else if i > 0 {
      OnesBits(k - 1, i - 1);
    }
  }

  ghost predicate SameBits(a: nat, b: nat) {
    forall i: nat :: Bit(a, i) <==> Bit(b, i)
  }

  /** Numbers are told apart by their bits. */
  lemma {:induction false} BitsDecide(a: nat, b: nat)
    requires SameBits(a, b)
    ensures a == b
    decreases a + b
  {
    if a == 0 && b == 0 {
    } else {
      assert Bit(a, 0) <==> Bit(b, 0);
      forall i: nat ensures Bit(a / 2, i) <==> Bit(b / 2, i) {
        assert Bit(a, i + 1) <==> Bit(b, i + 1);
      }
      BitsDecide(a / 2, b / 2);
    }
  }

  /** Some bit of `x` is set among the `w` from `i` on. */
  predicate Near(x: nat, i: nat, w: nat) {
    exists j {:trigger Bit(x, j)} :: i <= j < i + w && Bit(x, j)
  }

  /** `y` is `x` with every set bit smeared over the `w` - 1 bits below it. */
  ghost predicate Smeared(x: nat, y: nat, w: nat) {
    forall i: nat :: Bit(y, i) <==> Near(x, i, w)
  }

  /** A shift by the width already covered doubles the width. */
  lemma SmearedOn(x: nat, y: nat, w: nat)
    requires Smeared(x, y, w)
    ensures Smeared(x, Or(y, Shr(y, w)), 2 * w)
  {
    forall i: nat ensures Bit(Or(y, Shr(y, w)), i) <==> Near(x, i, 2 * w) {
      OrBits(y, Shr(y, w), i);
      ShrTwice(y, w, i);
      assert Bit(y, i) <==> Near(x, i, w);
      assert Bit(y, w + i) <==> Near(x, w + i, w);
      NearSplit(x, i, w);
    }
  }

  lemma NearSplit(x: nat, i: nat, w: nat)
    ensures Near(x, i, 2 * w) <==> Near(x, i, w) || Near(x, w + i, w)
  {
    if Near(x, i, 2 * w) {
      var j: nat :| i <= j < i + 2 * w && Bit(x, j);
      assert j < i + w || w + i <= j < w + i + w;
    }
  }

  /** Smeared over all 32 bits, a word is one less than the first power of two above it. */
  lemma SmearedIsOnes(x: Word, y: nat)
    requires Smeared(x, y, 32)
    ensures y == Pow2(Length(x)) - 1
  {
    forall i: nat ensures Bit(y, i) <==> Bit(Pow2(Length(x)) - 1, i) {
      OnesBits(Length(x), i);
      assert Bit(y, i) <==> Near(x, i, 32);
      WordLength(x);
      if i < Length(x) {
        TopBit(x, Length(x) - 1);
        assert i <= Length(x) - 1 < i + 32;
      } else {
        forall j: nat | i <= j ensures !Bit(x, j) {
          TopBit(x, j);
        }
      }
    }
    BitsDecide(y, Pow2(Length(x)) - 1);
  }

  lemma {:induction false} PowersRise(j: nat, k: nat)
    requires j <= k
    ensures Pow2(j) <= Pow2(k)
    decreases k
  {
    if j == k {
    } else {
      PowersRise(j, k - 1);
    }
  }

  lemma WordPower()
    ensures Pow2(32) == WORDS
  {
    assert Pow2(8) == 256 by { assert Pow2(4) == 16; }
    assert Pow2(16) == 0x1_0000 by { assert Pow2(12) == 4096; }
    assert Pow2(24) == 0x100_0000 by { assert Pow2(20) == 0x10_0000; }
    assert Pow2(32) == WORDS by { assert Pow2(28) == 0x1000_0000; }
  }

  lemma WordLength(x: Word)
    ensures Length(x) <= 32
  {
    LengthBounds(x);
    WordPower();
    if Length(x) > 32 {
      PowersRise(32, Length(x) - 1);
    }
  }

  /** The least power of two at or above `n`; above 2^31 it does not fit a word, and the result is zero. */
  method RoundUpPowerOfTwo(n: Word) returns (r: Word, ghost k: nat)
    ensures n <= 0x8000_0000 ==> r == Pow2(k)
    ensures n <= Pow2(k) && forall j: nat :: n <= Pow2(j) ==> k <= j
    ensures n > 0x8000_0000 ==> r == 0
  {
    if n <= 1 {
      return 1, 0;
    }
    k := Length(n - 1);
    Rounded(n, k);
    var ones := Smear(n - 1);
    r := (ones + 1) % WORDS;
  }

  /** Sets every bit below the highest. */
  method Smear(x: Word) returns (y: nat)
    ensures y == Pow2(Length(x)) - 1
  {
    y := x;
    SmearedAtFirst(x);
    SmearedOn(x, y, 1);
    y := Or(y, Shr(y, 1));
    SmearedOn(x, y, 2);
    y := Or(y, Shr(y, 2));
    SmearedOn(x, y, 4);
    y := Or(y, Shr(y, 4));
    SmearedOn(x, y, 8);
    y := Or(y, Shr(y, 8));
    SmearedOn(x, y, 16);
    y := Or(y, Shr(y, 16));
    SmearedIsOnes(x, y);
  }

  lemma SmearedAtFirst(x: nat)
    ensures Smeared(x, x, 1)
  {
    forall i: nat ensures Bit(x, i) <==> Near(x, i, 1) {}
  }

  lemma Rounded(n: Word, k: nat)
    requires n > 1 && k == Length(n - 1)
    ensures n <= Pow2(k) && forall j: nat :: n <= Pow2(j) ==> k <= j
    ensures if n <= 0x8000_0000 then Pow2(k) < WORDS else Pow2(k) == WORDS
  {
    LengthBounds(n - 1);
    WordLength(n - 1);
    WordPower();
    forall j: nat | n <= Pow2(j) ensures k <= j {
      if j < k {
        PowersRise(j, k - 1);
      }
    }
    if k < 32 {
      PowersRise(k, 31);
    }
  }

  /** Masking with a power of two less one is the remainder by that power. */
  lemma {:induction false} MaskIsModulo(k: nat, x: nat)
    ensures And(Pow2(k) - 1, x) == x % Pow2(k)
  {
    if k == 0 {
    } else {
      var m := Pow2(k - 1);
      MaskIsModulo(k - 1, x / 2);
      HalvedRemainder(x, m);
    }
  }

  lemma HalvedRemainder(x: nat, m: nat)
    requires m > 0
    ensures x % (2 * m) == 2 * (x / 2 % m) + x % 2
  {
    var q, r := x / 2 / m, x / 2 % m;
    assert x / 2 == m * q + r;
    DivisionIs(x, 2 * m, q, 2 * r + x % 2);
  }
}

/** The store: a row of index trees, one per bucket, that together are one finite map from hash to entry. */
module BucketMap {
  import opened Lamport
  import opened PutRule
  import opened Arithmetic
  import opened Bits
  import opened AvlTree
  import M = AvlModel

  ghost function AllNodes(trees: seq<AvlTree>): set<AvlNode>
    reads trees
  {
    if trees == [] then {} else Nodes(trees[0].shape) + AllNodes(trees[1..])
  }

  lemma {:induction false} NodesWithin(trees: seq<AvlTree>, i: nat)
    requires i < |trees|
    ensures Nodes(trees[i].shape) <= AllNodes(trees)
  {
    if i == 0 {
    } else {
      NodesWithin(trees[1..], i - 1);
    }
  }

  lemma AllAllocated(trees: seq<AvlTree>)
    ensures forall i, n :: 0 <= i < |trees| && n in Nodes(trees[i].shape) ==> allocated(n)
  {
    forall i | 0 <= i < |trees| ensures forall n :: n in Nodes(trees[i].shape) ==> allocated(n) {
      NodesAllocated(trees[i].shape);
    }
  }

  /** No two trees are one, or share a node. */
  ghost predicate Separate(trees: seq<AvlTree>)
    reads trees
  {
    forall i, j :: 0 <= i < j < |trees| ==> trees[i] != trees[j] && Nodes(trees[i].shape) !! Nodes(trees[j].shape)
  }

  /** A search tree that holds only hashes of its own bucket. */
  ghost predicate Bucket(tree: AvlTree, b: nat, numberBuckets: nat)
    requires numberBuckets > 0
    reads tree, Nodes(tree.shape)
  {
    tree.Valid() && forall h :: h in M.Hashes(tree.Tree()) ==> h % numberBuckets == b
  }

  /** The root of a tree turns a write away; a rejection further down is reported as done. */
  predicate RootRejects(t: M.Tree, hash: nat, p: Put) {
    t.Node? && t.hash == hash && Rejects(Some(t.entry), p)
  }

  /** Writes to one of several separate trees; the others stay as they are. */
  method AddApart(trees: seq<AvlTree>, b: nat, hash: nat, p: Put, clock: LamportClock) returns (ok: bool, timestamp: nat)
    requires b < |trees| && Separate(trees) && trees[b].Valid()
    modifies trees[b], Nodes(trees[b].shape), clock
    ensures Separate(trees) && trees[b].Valid() && fresh(Nodes(trees[b].shape) - old(Nodes(trees[b].shape)))
    ensures forall i :: 0 <= i < |trees| && i != b ==>
              trees[i].shape == old(trees[i].shape) && trees[i].Tree() == old(trees[i].Tree()) &&
              (old(trees[i].Valid()) ==> trees[i].Valid())
    ensures trees[b].Tree() == M.After(old(trees[b].Tree()), hash, p, old(clock.counter))
    ensures clock.counter == ClockAfterPut(M.Find(old(trees[b].Tree()), hash), p, old(clock.counter))
    ensures timestamp == Reported(M.Find(old(trees[b].Tree()), hash), p, old(clock.counter))
    ensures ok <==> !RootRejects(old(trees[b].Tree()), hash, p)
  {
    AllAllocated(trees);
    ok, timestamp := trees[b].AddData(hash, p, clock);
  }

  ghost predicate Filled(trees: seq<AvlTree>, numberBuckets: nat)
    requires numberBuckets > 0
    reads trees, AllNodes(trees)
  {
    forall b | 0 <= b < |trees| :: NodesWithin(trees, b); Bucket(trees[b], b, numberBuckets)
  }

  class BucketMap {
    ghost const bits: nat
    const numberBuckets: nat
    const buckets: seq<AvlTree>

    ghost predicate Valid()
      reads this, buckets, AllNodes(buckets)
    {
      numberBuckets == Pow2(bits) == |buckets| && Separate(buckets) && Filled(buckets, numberBuckets)
    }

    /** The one map the buckets stand for. */
    ghost function Lookup(hash: nat): Option<Entry>
      requires Valid()
      reads this, buckets, AllNodes(buckets)
    {
      NodesWithin(buckets, hash % numberBuckets);
      M.Find(buckets[hash % numberBuckets].Tree(), hash)
    }

    /** As many empty buckets as the least power of two at or above `n`; above 2^31 there is none and no bucket. */
    constructor (n: Word)
      ensures n <= 0x8000_0000 ==> Valid() && fresh(buckets) && forall h: nat :: Lookup(h) == None
      ensures n <= 0x8000_0000 ==> n <= numberBuckets == Pow2(bits) && forall j: nat :: n <= Pow2(j) ==> bits <= j
      ensures n > 0x8000_0000 ==> numberBuckets == 0
    {
      var r, k := RoundUpPowerOfTwo(n);
      var trees := EmptyTrees(r);
      bits, numberBuckets, buckets := k, r, trees;
    }

    function GetBucket(hash: nat): (b: nat)
      requires Valid()
      reads this, buckets, AllNodes(buckets)
      ensures b == hash % numberBuckets && b < |buckets|
    {
      MaskIsModulo(bits, hash);
      And(numberBuckets - 1, hash)
    }

    /** Applies a write to its bucket. The rest of the map, and all other buckets, stay as they are. */
    method PutData(hash: nat, p: Put, clock: LamportClock) returns (ok: bool, timestamp: nat)
      requires Valid()
      modifies buckets, AllNodes(buckets), clock
      ensures Valid() && forall i :: 0 <= i < |buckets| ==> fresh(Nodes(buckets[i].shape) - old(Nodes(buckets[i].shape)))
      ensures Lookup(hash) == if Rejects(old(Lookup(hash)), p) then old(Lookup(hash))
                              else Some(Written(old(Lookup(hash)), p, old(clock.counter)))
      ensures forall h: nat :: h != hash ==> Lookup(h) == old(Lookup(h))
      ensures clock.counter == ClockAfterPut(old(Lookup(hash)), p, old(clock.counter))
      ensures timestamp == Reported(old(Lookup(hash)), p, old(clock.counter))
      ensures timestamp == if Rejects(old(Lookup(hash)), p) then 0 else Counter(Lookup(hash))
      ensures ok <==> !RootRejects(old(buckets[hash % numberBuckets].Tree()), hash, p)
    {
      var b := GetBucket(hash);
      ok, timestamp := WriteBucket(b, hash, p, clock);
    }

    method WriteBucket(b: nat, hash: nat, p: Put, clock: LamportClock) returns (ok: bool, timestamp: nat)
      requires Valid() && b == hash % numberBuckets
      modifies buckets, AllNodes(buckets), clock
      ensures Valid() && forall i :: 0 <= i < |buckets| ==> fresh(Nodes(buckets[i].shape) - old(Nodes(buckets[i].shape)))
      ensures forall i :: 0 <= i < |buckets| && i != b ==> buckets[i].Tree() == old(buckets[i].Tree())
      ensures forall h :: M.Find(buckets[b].Tree(), h) == M.FoundAfter(old(buckets[b].Tree()), hash, p, old(clock.counter), h)
      ensures clock.counter == ClockAfterPut(old(Lookup(hash)), p, old(clock.counter))
      ensures timestamp == Reported(old(Lookup(hash)), p, old(clock.counter))
      ensures ok <==> !RootRejects(old(buckets[hash % numberBuckets].Tree()), hash, p)
    {
      NodesWithin(buckets, b);
      M.InsertContents(buckets[b].Tree(), hash, p, clock.counter);
      ok, timestamp := AddApart(buckets, b, hash, p, clock);
      assert forall i :: 0 <= i < |buckets| ==> Bucket(buckets[i], i, numberBuckets);
    }

    method Get(hash: nat) returns (e: Option<Entry>)
      requires Valid()
      ensures Valid() && e == Lookup(hash)
    {
      var b := GetBucket(hash);
      NodesWithin(buckets, b);
      AllAllocated(buckets);
      var node, steps := buckets[b].Get(hash);
      e := if node == null then None else Some(node.entry);
    }

    /** Walks the buckets in turn: every entry comes out once, from its own bucket, in hash order within it. */
    method BucketIterator() returns (all: seq<seq<(nat, Entry)>>)
      requires Valid()
      ensures Valid() && |all| == numberBuckets && forall b :: 0 <= b < |all| ==> M.Increasing(all[b])
      ensures forall b, h: nat, e :: 0 <= b < |all| ==>
                ((h, e) in all[b] <==> Lookup(h) == Some(e) && h % numberBuckets == b)
    {
      all := [];
      for actual := 0 to numberBuckets
        invariant Valid() && |all| == actual
        invariant forall b :: 0 <= b < actual ==> M.Increasing(all[b])
        invariant forall b, h: nat, e :: 0 <= b < actual ==>
          ((h, e) in all[b] <==> Lookup(h) == Some(e) && h % numberBuckets == b)
      {
        var entries := NextBucket(actual);
        all := all + [entries];
      }
    }

    method NextBucket(actual: nat) returns (entries: seq<(nat, Entry)>)
      requires Valid() && actual < numberBuckets
      ensures Valid() && M.Increasing(entries) && forall h: nat :: Lookup(h) == old(Lookup(h))
      ensures forall h: nat, e :: (h, e) in entries <==> Lookup(h) == Some(e) && h % numberBuckets == actual
    {
      AllAllocated(buckets);
      NodesWithin(buckets, actual);
      entries := buckets[actual].GetOrderedByHash();
      assert forall i :: 0 <= i < |buckets| ==> Bucket(buckets[i], i, numberBuckets);
      forall h: nat, e ensures (h, e) in entries <==> Lookup(h) == Some(e) && h % numberBuckets == actual {
        if M.Find(buckets[actual].Tree(), h) == Some(e) {
          M.FoundHashes(buckets[actual].Tree(), h);
        }
      }
    }
  }

  /** So many empty trees, all different. */
  method EmptyTrees(count: nat) returns (trees: seq<AvlTree>)
    ensures |trees| == count && fresh(trees) && Separate(trees)
    ensures forall i :: 0 <= i < count ==> trees[i].Valid() && trees[i].Tree() == M.Empty && Nodes(trees[i].shape) == {}
  {
    trees := [];
    for i := 0 to count
      invariant |trees| == i && fresh(trees) && Separate(trees)
      invariant forall j :: 0 <= j < i ==> trees[j].Valid() && trees[j].Tree() == M.Empty && Nodes(trees[j].shape) == {}
    {
      var tree := new AvlTree();
      trees := trees + [tree];
    }
  }
}
