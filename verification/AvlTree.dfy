/** The index tree in memory: linked nodes that insertion relinks in place. Every method is proved to do to the
    linked nodes what AvlModel does to the tree value they spell. */
module AvlTree {
  import opened Lamport
  import opened PutRule
  import M = AvlModel

  class AvlNode {
    const hash: nat
    var left: AvlNode?
    var right: AvlNode?
    var height: int
    var entry: Entry

    constructor (hash: nat, entry: Entry)
      ensures this.hash == hash && this.entry == entry && left == null && right == null && height == -1
    {
      this.hash, this.entry := hash, entry;
      left, right, height := null, null, -1;
    }
  }

  /** Which nodes sit where. */
  datatype Shape = Nil | At(left: Shape, node: AvlNode, right: Shape)

  ghost function Nodes(s: Shape): set<AvlNode> {
    if s.Nil? then {} else Nodes(s.left) + {s.node} + Nodes(s.right)
  }

  lemma NodesAllocated(s: Shape)
    ensures forall n :: n in Nodes(s) ==> allocated(n)
  {
    if s.At? {
      NodesAllocated(s.left);
      NodesAllocated(s.right);
    }
  }

  /** No node occurs twice. */
  ghost predicate Apart(s: Shape) {
    s.At? ==>
      && Apart(s.left) && Apart(s.right)
      && s.node !in Nodes(s.left) && s.node !in Nodes(s.right) && Nodes(s.left) !! Nodes(s.right)
  }

  /** The pointers from `p` on follow the shape. */
  ghost predicate Linked(p: AvlNode?, s: Shape)
    reads Nodes(s)
  {
    if s.Nil? then p == null
    else p == s.node && Linked(s.node.left, s.left) && Linked(s.node.right, s.right)
  }

  /** The tree the nodes spell. */
  ghost function Spelled(s: Shape): (t: M.Tree)
    reads Nodes(s)
    ensures t.Node? <==> s.At?
  {
    if s.Nil? then M.Empty
    else M.Node(Spelled(s.left), s.node.hash, s.node.height, s.node.entry, Spelled(s.right))
  }

  function GetHeight(n: AvlNode?): int
    reads n
  {
    if n == null then -1 else n.height
  }

  function GetHeightFactor(n: AvlNode?): int
    reads n, if n == null then {} else {n.left, n.right}
  {
    if n == null then 0 else GetHeight(n.right) - GetHeight(n.left)
  }

  lemma FactorSpelled(p: AvlNode?, s: Shape)
    requires Linked(p, s)
    ensures GetHeightFactor(p) == M.Factor(Spelled(s))
  {}

  method UpdateHeight(n: AvlNode, ghost s: Shape)
    requires Linked(n, s) && Apart(s)
    modifies n`height
    ensures Linked(n, s) && Spelled(s) == M.UpdateHeight(old(Spelled(s)))
  {
    n.height := if GetHeight(n.left) > GetHeight(n.right) then GetHeight(n.left) + 1 else GetHeight(n.right) + 1;
  }

  /** The stamp counter a write reports: zero when it was rejected. */
  function Reported(was: Option<Entry>, p: Put, clock: nat): nat {
    if Rejects(was, p) then 0 else StampOf(p, clock).counter
  }

  /** The counter of a stored value's stamp. */
  function Counter(e: Option<Entry>): nat {
    if e.Some? && e.value.DataEntry? then e.value.stamp.counter else 0
  }

  ghost function RightRotated(s: Shape): (r: Shape)
    requires s.At? && s.left.At? && Apart(s)
    ensures Nodes(r) == Nodes(s) && Apart(r)
  {
    assert Apart(s.left);
    At(s.left.left, s.left.node, At(s.left.right, s.node, s.right))
  }

  ghost function LeftRotated(s: Shape): (r: Shape)
    requires s.At? && s.right.At? && Apart(s)
    ensures Nodes(r) == Nodes(s) && Apart(r)
  {
    assert Apart(s.right);
    At(At(s.left, s.node, s.right.left), s.right.node, s.right.right)
  }

  class AvlTree {
    var root: AvlNode?
    ghost var shape: Shape

    ghost predicate Valid()
      reads this, Nodes(shape)
    {
      Linked(root, shape) && Apart(shape) && M.Balanced(Spelled(shape)) && M.Ordered(Spelled(shape))
    }

    ghost function Tree(): M.Tree
      reads this, Nodes(shape)
    {
      Spelled(shape)
    }

    constructor ()
      ensures Valid() && Tree() == M.Empty && Nodes(shape) == {}
    {
      root, shape := null, Nil;
    }

    method RotateRight(node: AvlNode, ghost s: Shape) returns (top: AvlNode)
      requires Linked(node, s) && Apart(s) && s.left.At?
      modifies this`root, node, s.left.node
      ensures Linked(top, RightRotated(s)) && Spelled(RightRotated(s)) == M.RotateRight(old(Spelled(s)))
      ensures root == if old(root) == node then top else old(root)
    {
      var leftChild := node.left;
      ghost var a, b, c := s.left.left, s.left.right, s.right;
      if root == node {
        root := leftChild;
      }
      node.left := leftChild.right;
      leftChild.right := node;
      assert Linked(leftChild.left, a) && Linked(node.left, b) && Linked(node.right, c);
      assert Spelled(a) == old(Spelled(a)) && Spelled(b) == old(Spelled(b)) && Spelled(c) == old(Spelled(c));
      NodesAllocated(a);
      UpdateHeight(node, At(b, node, c));
      assert Linked(leftChild.left, a) && Spelled(a) == old(Spelled(a));
      UpdateHeight(leftChild, RightRotated(s));
      top := leftChild;
    }

    method RotateLeft(node: AvlNode, ghost s: Shape) returns (top: AvlNode)
      requires Linked(node, s) && Apart(s) && s.right.At?
      modifies this`root, node, s.right.node
      ensures Linked(top, LeftRotated(s)) && Spelled(LeftRotated(s)) == M.RotateLeft(old(Spelled(s)))
      ensures root == if old(root) == node then top else old(root)
    {
      var rightChild := node.right;
      ghost var a, b, c := s.left, s.right.left, s.right.right;
      node.right := rightChild.left;
      rightChild.left := node;
      if root == node {
        root := rightChild;
      }
      assert Linked(node.left, a) && Linked(node.right, b) && Linked(rightChild.right, c);
      assert Spelled(a) == old(Spelled(a)) && Spelled(b) == old(Spelled(b)) && Spelled(c) == old(Spelled(c));
      NodesAllocated(c);
      UpdateHeight(node, At(a, node, b));
      assert Linked(rightChild.right, c) && Spelled(c) == old(Spelled(c));
      UpdateHeight(rightChild, LeftRotated(s));
      top := rightChild;
    }

    method StraightenLeft(node: AvlNode, ghost s: Shape) returns (ghost s': Shape)
      requires Linked(node, s) && Apart(s) && s.left.At? && root != s.left.node
      requires M.Factor(Spelled(s.left)) > 0 ==> s.left.right.At?
      modifies this`root, Nodes(s)
      ensures Linked(node, s') && Apart(s') && Nodes(s') == Nodes(s)
      ensures Spelled(s') == M.StraightenLeft(old(Spelled(s)))
      ensures root == old(root)
    {
      s' := s;
      FactorSpelled(node.left, s.left);
      if GetHeightFactor(node.left) > 0 {
        s' := At(LeftRotated(s.left), s.node, s.right);
        NodesAllocated(s.right);
        var l := RotateLeft(node.left, s.left);
        assert Linked(node.right, s.right) && Spelled(s.right) == old(Spelled(s.right));
        node.left := l;
      }
    }

    method StraightenRight(node: AvlNode, ghost s: Shape) returns (ghost s': Shape)
      requires Linked(node, s) && Apart(s) && s.right.At? && root != s.right.node
      requires M.Factor(Spelled(s.right)) < 0 ==> s.right.left.At?
      modifies this`root, Nodes(s)
      ensures Linked(node, s') && Apart(s') && Nodes(s') == Nodes(s)
      ensures Spelled(s') == M.StraightenRight(old(Spelled(s)))
      ensures root == old(root)
    {
      s' := s;
      FactorSpelled(node.right, s.right);
      if GetHeightFactor(node.right) < 0 {
        s' := At(s.left, s.node, RightRotated(s.right));
        NodesAllocated(s.left);
        var r := RotateRight(node.right, s.right);
        assert Linked(node.left, s.left) && Spelled(s.left) == old(Spelled(s.left));
        node.right := r;
      }
    }

    method Rebalance(node: AvlNode, ghost s: Shape) returns (top: AvlNode, ghost s': Shape)
      requires Linked(node, s) && Apart(s) && M.Rebalanceable(Spelled(s))
      requires root == node || root !in Nodes(s)
      modifies this`root, Nodes(s)
      ensures Linked(top, s') && Apart(s') && Nodes(s') == Nodes(s)
      ensures Spelled(s') == M.Rebalance(old(Spelled(s)))
      ensures root == if old(root) == node then top else old(root)
    {
      M.BalancedHeight(Spelled(s.left));
      M.BalancedHeight(Spelled(s.right));
      UpdateHeight(node, s);
      top, s' := node, s;
      var heightFactor := GetHeightFactor(node);
      if heightFactor < -1 {
        M.BalancedHeight(Spelled(s.left.left));
        s' := StraightenLeft(node, s);
        top := RotateRight(node, s');
        s' := RightRotated(s');
      }
      if heightFactor > 1 {
        M.BalancedHeight(Spelled(s.right.right));
        s' := StraightenRight(node, s);
        top := RotateLeft(node, s');
        s' := LeftRotated(s');
      }
    }

    /** The new node goes where the search ended. */
    method Place(toInsert: AvlNode, p: Put, clock: LamportClock) returns (timestamp: nat)
      requires toInsert.left == null && toInsert.right == null && toInsert.height == -1
      requires toInsert.entry == DataEntry(p.key, p.value, Stamp(0, 0))
      modifies this`root, toInsert, clock
      ensures Linked(toInsert, At(Nil, toInsert, Nil))
      ensures Spelled(At(Nil, toInsert, Nil)) == M.Leaf(toInsert.hash, Written(None, p, old(clock.counter)))
      ensures clock.counter == ClockAfter(p.strategy, old(clock.counter), p.stamp.counter)
      ensures timestamp == StampOf(p, old(clock.counter)).counter
      ensures root == if old(root) == null then toInsert else old(root)
    {
      var newTimestampCounter := clock.Update(p.strategy, p.stamp.counter);
      if p.fromNode {
        timestamp := p.stamp.counter;
        toInsert.entry := toInsert.entry.(stamp := p.stamp);
      } else {
        timestamp := newTimestampCounter;
        toInsert.entry := toInsert.entry.(stamp := Stamp(newTimestampCounter, p.stamp.node));
      }
      if root == null {
        root := toInsert;
      }
    }

    /** The entry of an accepted write is overwritten where it is. */
    method Overwrite(last: AvlNode, value: string, p: Put, clock: LamportClock, ghost s: Shape) returns (timestamp: nat)
      requires Linked(last, s) && Apart(s) && Spelled(s).Node? && last.entry.DataEntry? && value == p.value
      modifies last`entry, clock
      ensures Linked(last, s)
      ensures Spelled(s) == old(Spelled(s)).(entry := Written(Some(old(last.entry)), p, old(clock.counter)))
      ensures clock.counter == ClockAfter(p.strategy, old(clock.counter), p.stamp.counter)
      ensures timestamp == StampOf(p, old(clock.counter)).counter
    {
      NodesAllocated(s);
      var newTimestampCounter := clock.Update(p.strategy, p.stamp.counter);
      assert Spelled(s) == old(Spelled(s));
      if p.fromNode {
        timestamp := p.stamp.counter;
        last.entry := last.entry.(value := value, stamp := p.stamp);
      } else {
        timestamp := newTimestampCounter;
        last.entry := last.entry.(value := value, stamp := Stamp(newTimestampCounter, p.stamp.node));
      }
    }

    method InsertLeft(toInsert: AvlNode, last: AvlNode, p: Put, clock: LamportClock, ghost s: Shape)
      returns (timestamp: nat, ghost s': Shape)
      requires Linked(last, s) && Apart(s) && toInsert !in Nodes(s) && M.Balanced(Spelled(s))
      requires toInsert.left == null && toInsert.right == null && toInsert.height == -1
      requires toInsert.entry == DataEntry(p.key, p.value, Stamp(0, 0))
      requires s.At? && root != null && root !in Nodes(s.left) && root != toInsert
      modifies this`root, Nodes(s), toInsert, clock
      ensures Linked(last, s') && Apart(s') && Nodes(s') <= Nodes(s) + {toInsert}
      ensures Spelled(s') == old(Spelled(s)).(left := M.After(old(Spelled(s.left)), toInsert.hash, p, old(clock.counter)))
      ensures clock.counter == ClockAfterPut(M.Find(old(Spelled(s.left)), toInsert.hash), p, old(clock.counter))
      ensures timestamp == Reported(M.Find(old(Spelled(s.left)), toInsert.hash), p, old(clock.counter))
      ensures root == old(root)
      decreases s, 0
    {
      s' := s;
      NodesAllocated(s.right);
      var inserted, ts, c := InsertRecursiveData(toInsert, last.left, p, clock, s.left);
      timestamp := ts;
      assert Linked(last.right, s.right) && Spelled(s.right) == old(Spelled(s.right));
      if inserted != null {
        ghost var spelled := Spelled(c);
        last.left := inserted;
        assert Linked(last.left, c) && Spelled(c) == spelled;
        assert Linked(last.right, s.right) && Spelled(s.right) == old(Spelled(s.right));
        s' := At(c, last, s.right);
      }
    }

    method InsertRight(toInsert: AvlNode, last: AvlNode, p: Put, clock: LamportClock, ghost s: Shape)
      returns (timestamp: nat, ghost s': Shape)
      requires Linked(last, s) && Apart(s) && toInsert !in Nodes(s) && M.Balanced(Spelled(s))
      requires toInsert.left == null && toInsert.right == null && toInsert.height == -1
      requires toInsert.entry == DataEntry(p.key, p.value, Stamp(0, 0))
      requires s.At? && root != null && root !in Nodes(s.right) && root != toInsert
      modifies this`root, Nodes(s), toInsert, clock
      ensures Linked(last, s') && Apart(s') && Nodes(s') <= Nodes(s) + {toInsert}
      ensures Spelled(s') == old(Spelled(s)).(right := M.After(old(Spelled(s.right)), toInsert.hash, p, old(clock.counter)))
      ensures clock.counter == ClockAfterPut(M.Find(old(Spelled(s.right)), toInsert.hash), p, old(clock.counter))
      ensures timestamp == Reported(M.Find(old(Spelled(s.right)), toInsert.hash), p, old(clock.counter))
      ensures root == old(root)
      decreases s, 0
    {
      s' := s;
      NodesAllocated(s.left);
      var inserted, ts, c := InsertRecursiveData(toInsert, last.right, p, clock, s.right);
      timestamp := ts;
      assert Linked(last.left, s.left) && Spelled(s.left) == old(Spelled(s.left));
      if inserted != null {
        ghost var spelled := Spelled(c);
        last.right := inserted;
        assert Linked(last.right, c) && Spelled(c) == spelled;
        assert Linked(last.left, s.left) && Spelled(s.left) == old(Spelled(s.left));
        s' := At(s.left, last, c);
      }
    }

    /** Returns null where the write is rejected; a caller that gets null keeps its child and goes on. */
    method InsertRecursiveData(toInsert: AvlNode, last: AvlNode?, p: Put, clock: LamportClock, ghost s: Shape)
      returns (r: AvlNode?, timestamp: nat, ghost s': Shape)
      requires Linked(last, s) && Apart(s) && toInsert !in Nodes(s) && M.Balanced(Spelled(s))
      requires toInsert.left == null && toInsert.right == null && toInsert.height == -1
      requires toInsert.entry == DataEntry(p.key, p.value, Stamp(0, 0))
      requires root == last || (root != null && root !in Nodes(s) && root != toInsert)
      modifies this`root, Nodes(s), toInsert, clock
      ensures M.Insert(old(Spelled(s)), toInsert.hash, p, old(clock.counter)) == (if r == null then None else Some(Spelled(s')))
      ensures Apart(s') && Nodes(s') <= Nodes(s) + {toInsert}
      ensures r == null ==> s' == s && Linked(last, s) && Spelled(s) == old(Spelled(s)) && root == old(root)
      ensures r != null ==> Linked(r, s') && root == if old(root) == last then r else old(root)
      ensures clock.counter == ClockAfterPut(M.Find(old(Spelled(s)), toInsert.hash), p, old(clock.counter))
      ensures timestamp == Reported(M.Find(old(Spelled(s)), toInsert.hash), p, old(clock.counter))
      decreases s, 1
    {
      if last == null {
        timestamp := Place(toInsert, p, clock);
        return toInsert, timestamp, At(Nil, toInsert, Nil);
      }
      s' := s;
      if last.hash > toInsert.hash {
        timestamp, s' := InsertLeft(toInsert, last, p, clock, s);
      } else if last.hash < toInsert.hash {
        timestamp, s' := InsertRight(toInsert, last, p, clock, s);
      } else {
        var ignoreTimestamps := p.strategy == NONE || !p.fromNode;
        if last.entry.CounterEntry? || (!ignoreTimestamps && Gt(last.entry.stamp, p.stamp)) {
          return null, 0, s;
        }
        timestamp := Overwrite(last, toInsert.entry.value, p, clock, s);
      }
      M.InsertRebalances(old(Spelled(s)), toInsert.hash, p, old(clock.counter));
      r, s' := Rebalance(last, s');
    }

    /** Applies a write. `ok` is false only for a rejection at the root. */
    method AddData(hash: nat, p: Put, clock: LamportClock) returns (ok: bool, timestamp: nat)
      requires Valid()
      modifies this, Nodes(shape), clock
      ensures Valid() && fresh(Nodes(shape) - old(Nodes(shape)))
      ensures Tree() == M.After(old(Tree()), hash, p, old(clock.counter))
      ensures forall h :: M.Find(Tree(), h) == M.FoundAfter(old(Tree()), hash, p, old(clock.counter), h)
      ensures ok <==> !(old(Tree()).Node? && old(Tree()).hash == hash && Rejects(Some(old(Tree()).entry), p))
      ensures clock.counter == ClockAfterPut(M.Find(old(Tree()), hash), p, old(clock.counter))
      ensures timestamp == Reported(M.Find(old(Tree()), hash), p, old(clock.counter))
      ensures timestamp == if Rejects(M.Find(old(Tree()), hash), p) then 0 else Counter(M.Find(Tree(), hash))
    {
      NodesAllocated(shape);
      var newDataNode := new AvlNode(hash, DataEntry(p.key, p.value, Stamp(0, 0)));
      assert Linked(root, shape) && Spelled(shape) == old(Spelled(shape));
      M.InsertContents(old(Tree()), hash, p, old(clock.counter));
      var insertedNode, ts, s' := InsertRecursiveData(newDataNode, root, p, clock, shape);
      shape := s';
      ok, timestamp := insertedNode != null, ts;
    }

    method CounterLeft(toInsert: AvlNode, last: AvlNode, ghost e: Entry, ghost s: Shape) returns (ghost s': Shape)
      requires Linked(last, s) && Apart(s) && toInsert !in Nodes(s) && M.Balanced(Spelled(s))
      requires toInsert.left == null && toInsert.right == null && toInsert.height == -1 && toInsert.entry == e
      requires s.At? && root != null && root !in Nodes(s.left) && root != toInsert
      modifies this`root, Nodes(s), toInsert
      ensures Linked(last, s') && Apart(s') && Nodes(s') <= Nodes(s) + {toInsert}
      ensures Spelled(s') == old(Spelled(s)).(left := M.AfterCounter(old(Spelled(s.left)), toInsert.hash, e))
      ensures root == old(root)
      decreases s, 0
    {
      s' := s;
      NodesAllocated(s.right);
      var inserted, c := InsertRecursiveCounter(toInsert, last.left, e, s.left);
      assert Linked(last.right, s.right) && Spelled(s.right) == old(Spelled(s.right));
      if inserted != null {
        ghost var spelled := Spelled(c);
        last.left := inserted;
        assert Linked(last.left, c) && Spelled(c) == spelled;
        assert Linked(last.right, s.right) && Spelled(s.right) == old(Spelled(s.right));
        s' := At(c, last, s.right);
      }
    }

    method CounterRight(toInsert: AvlNode, last: AvlNode, ghost e: Entry, ghost s: Shape) returns (ghost s': Shape)
      requires Linked(last, s) && Apart(s) && toInsert !in Nodes(s) && M.Balanced(Spelled(s))
      requires toInsert.left == null && toInsert.right == null && toInsert.height == -1 && toInsert.entry == e
      requires s.At? && root != null && root !in Nodes(s.right) && root != toInsert
      modifies this`root, Nodes(s), toInsert
      ensures Linked(last, s') && Apart(s') && Nodes(s') <= Nodes(s) + {toInsert}
      ensures Spelled(s') == old(Spelled(s)).(right := M.AfterCounter(old(Spelled(s.right)), toInsert.hash, e))
      ensures root == old(root)
      decreases s, 0
    {
      s' := s;
      NodesAllocated(s.left);
      var inserted, c := InsertRecursiveCounter(toInsert, last.right, e, s.right);
      assert Linked(last.left, s.left) && Spelled(s.left) == old(Spelled(s.left));
      if inserted != null {
        ghost var spelled := Spelled(c);
        last.right := inserted;
        assert Linked(last.right, c) && Spelled(c) == spelled;
        assert Linked(last.left, s.left) && Spelled(s.left) == old(Spelled(s.left));
        s' := At(s.left, last, c);
      }
    }

    /** Returns null where the hash is taken; a caller that gets null keeps its child and goes on. */
    method InsertRecursiveCounter(toInsert: AvlNode, last: AvlNode?, ghost e: Entry, ghost s: Shape)
      returns (r: AvlNode?, ghost s': Shape)
      requires Linked(last, s) && Apart(s) && toInsert !in Nodes(s) && M.Balanced(Spelled(s))
      requires toInsert.left == null && toInsert.right == null && toInsert.height == -1 && toInsert.entry == e
      requires root == last || (root != null && root !in Nodes(s) && root != toInsert)
      modifies this`root, Nodes(s), toInsert
      ensures M.InsertCounter(old(Spelled(s)), toInsert.hash, e) ==
              (if r == null then None else Some(Spelled(s')))
      ensures Apart(s') && Nodes(s') <= Nodes(s) + {toInsert}
      ensures r == null ==> s' == s && Linked(last, s) && Spelled(s) == old(Spelled(s)) && root == old(root)
      ensures r != null ==> Linked(r, s') && root == if old(root) == last then r else old(root)
      decreases s, 1
    {
      if last == null {
        if root == null {
          root := toInsert;
        }
        return toInsert, At(Nil, toInsert, Nil);
      }
      if last.hash > toInsert.hash {
        s' := CounterLeft(toInsert, last, e, s);
      } else if last.hash < toInsert.hash {
        s' := CounterRight(toInsert, last, e, s);
      } else {
        return null, s;
      }
      M.CounterRebalances(old(Spelled(s)), toInsert.hash, e);
      r, s' := Rebalance(last, s');
    }

    /** Puts a counter in. `ok` is false only when the root has its hash. */
    method AddCounter(hash: nat, key: string) returns (ok: bool)
      requires Valid()
      modifies this, Nodes(shape)
      ensures Valid() && fresh(Nodes(shape) - old(Nodes(shape)))
      ensures forall h :: M.Find(Tree(), h) ==
                if h == hash && M.Find(old(Tree()), hash).None? then Some(CounterEntry(key)) else M.Find(old(Tree()), h)
      ensures ok <==> !(old(Tree()).Node? && old(Tree()).hash == hash)
    {
      NodesAllocated(shape);
      var newDataNode := new AvlNode(hash, CounterEntry(key));
      assert Linked(root, shape) && Spelled(shape) == old(Spelled(shape));
      M.CounterContents(old(Tree()), hash, CounterEntry(key));
      var insertedNode, s' := InsertRecursiveCounter(newDataNode, root, CounterEntry(key), shape);
      shape := s';
      ok := insertedNode != null;
    }

    /** `steps` counts the links followed: no more than the tree is deep. */
    method Get(hash: nat) returns (node: AvlNode?, ghost steps: nat)
      requires Valid()
      ensures M.Find(Tree(), hash) == if node == null then None else Some(node.entry)
      ensures node != null ==> node.hash == hash && node in Nodes(shape)
      ensures steps <= M.Depth(Tree()) + 1
    {
      node, steps := root, 0;
      ghost var s := shape;
      while node != null
        invariant Linked(node, s) && Nodes(s) <= Nodes(shape)
        invariant M.Find(Spelled(s), hash) == M.Find(Tree(), hash)
        invariant steps + M.Depth(Spelled(s)) <= M.Depth(Tree())
        decreases s
      {
        M.NodeHasDepth(Spelled(s.left));
        M.NodeHasDepth(Spelled(s.right));
        steps := if node.hash == hash then steps else steps + 1;
        if node.hash == hash {
          return;
        } else if hash < node.hash {
          node, s := node.left, s.left;
        } else {
          node, s := node.right, s.right;
        }
      }
    }

    method GetOrderedByHash() returns (entries: seq<(nat, Entry)>)
      requires Valid()
      ensures M.Increasing(entries)
      ensures forall h: nat, e :: (h, e) in entries <==> M.Find(Tree(), h) == Some(e)
    {
      NodesAllocated(shape);
      M.InOrderListsIndex(Tree());
      entries := ListInOrder(root, shape, []);
    }

    method ListInOrder(node: AvlNode?, ghost s: Shape, before: seq<(nat, Entry)>) returns (entries: seq<(nat, Entry)>)
      requires Linked(node, s)
      ensures entries == before + M.InOrder(Spelled(s))
      decreases s
    {
      entries := before;
      if node != null {
        NodesAllocated(s.left);
        NodesAllocated(s.right);
        entries := ListInOrder(node.left, s.left, entries);
        entries := entries + [(node.hash, node.entry)];
        entries := ListInOrder(node.right, s.right, entries);
      }
    }
  }
}
