/** The index tree as a value: what insertion does to the shape, the order and the contents of an AVL tree whose
    nodes remember a stored height. A new node is created with stored height -1, the height of an empty tree,
    and gets its real one when an insertion next passes through it. */
module AvlModel {
  import opened Arithmetic
  import opened Lamport
  import opened PutRule

  datatype Tree = Empty | Node(left: Tree, hash: nat, height: int, entry: Entry, right: Tree)

  function Height(t: Tree): int {
    if t.Empty? then -1 else t.height
  }

  function Factor(t: Tree): int {
    if t.Empty? then 0 else Height(t.right) - Height(t.left)
  }

  function HeightOver(l: Tree, r: Tree): int {
    if Height(l) > Height(r) then Height(l) + 1 else Height(r) + 1
  }

  function UpdateHeight(t: Tree): Tree
    requires t.Node?
  {
    t.(height := HeightOver(t.left, t.right))
  }

  function RotateRight(t: Tree): Tree
    requires t.Node? && t.left.Node?
  {
    UpdateHeight(t.left.(right := UpdateHeight(t.(left := t.left.right))))
  }

  function RotateLeft(t: Tree): Tree
    requires t.Node? && t.right.Node?
  {
    UpdateHeight(t.right.(left := UpdateHeight(t.(right := t.right.left))))
  }

  /** Stored heights are one above the higher child's, except that a leaf may still hold -1, and they differ by
      at most one between siblings. */
  predicate Balanced(t: Tree) {
    t.Node? ==>
      && Balanced(t.left) && Balanced(t.right)
      && -1 <= Factor(t) <= 1
      && (t.height == HeightOver(t.left, t.right) || (t.height == -1 && t.left.Empty? && t.right.Empty?))
  }

  lemma BalancedHeight(t: Tree)
    requires Balanced(t)
    ensures Height(t) >= -1
    ensures Height(t) == -1 && t.Node? ==> t.left.Empty? && t.right.Empty?
  {
    if t.Node? {
      BalancedHeight(t.left);
    }
  }

  /** Before a rotation to the right, a left child that leans right is itself rotated to the left. */
  function StraightenLeft(t: Tree): Tree
    requires t.Node? && (Factor(t.left) > 0 ==> t.left.right.Node?)
  {
    if Factor(t.left) > 0 then t.(left := RotateLeft(t.left)) else t
  }

  function StraightenRight(t: Tree): Tree
    requires t.Node? && (Factor(t.right) < 0 ==> t.right.left.Node?)
  {
    if Factor(t.right) < 0 then t.(right := RotateRight(t.right)) else t
  }

  /** A node that rebalancing may be given: balanced children that are at most two apart. */
  predicate Rebalanceable(t: Tree) {
    t.Node? && Balanced(t.left) && Balanced(t.right) && -2 <= Factor(t) <= 2
  }

  function Rebalance(t: Tree): Tree
    requires Rebalanceable(t)
  {
    BalancedHeight(t.left);
    BalancedHeight(t.right);
    var u := UpdateHeight(t);
    if Factor(u) < -1 then
      BalancedHeight(u.left.left);
      RotateRight(StraightenLeft(u))
    else if Factor(u) > 1 then
      BalancedHeight(u.right.right);
      RotateLeft(StraightenRight(u))
    else u
  }

  lemma RightRotationBalances(t: Tree)
    requires Rebalanceable(t) && Factor(t) == -2 && t.left.Node? && Factor(t.left) <= 0
    ensures Balanced(RotateRight(t))
    ensures Height(t.left) <= Height(RotateRight(t)) <= Height(t.left) + 1
  {
    BalancedHeight(t.right);
    BalancedHeight(t.left.left);
    BalancedHeight(t.left.right);
  }

  lemma LeftRotationBalances(t: Tree)
    requires Rebalanceable(t) && Factor(t) == 2 && t.right.Node? && Factor(t.right) >= 0
    ensures Balanced(RotateLeft(t))
    ensures Height(t.right) <= Height(RotateLeft(t)) <= Height(t.right) + 1
  {
    BalancedHeight(t.left);
    BalancedHeight(t.right.left);
    BalancedHeight(t.right.right);
  }

  lemma LeftRightRotationBalances(t: Tree)
    requires Rebalanceable(t) && Factor(t) == -2 && t.left.Node? && Factor(t.left) > 0 && t.left.right.Node?
    ensures Balanced(RotateRight(t.(left := RotateLeft(t.left))))
    ensures Height(RotateRight(t.(left := RotateLeft(t.left)))) == Height(t.left)
  {
    BalancedHeight(t.right);
    BalancedHeight(t.left.left);
    BalancedHeight(t.left.right);
    BalancedHeight(t.left.right.left);
    BalancedHeight(t.left.right.right);
  }

  lemma RightLeftRotationBalances(t: Tree)
    requires Rebalanceable(t) && Factor(t) == 2 && t.right.Node? && Factor(t.right) < 0 && t.right.left.Node?
    ensures Balanced(RotateLeft(t.(right := RotateRight(t.right))))
    ensures Height(RotateLeft(t.(right := RotateRight(t.right)))) == Height(t.right)
  {
    BalancedHeight(t.left);
    BalancedHeight(t.right.right);
    BalancedHeight(t.right.left);
    BalancedHeight(t.right.left.left);
    BalancedHeight(t.right.left.right);
  }

  /** All four rotation cases end balanced, at the height the node would have had or one less. */
  lemma RebalanceBalances(t: Tree)
    requires Rebalanceable(t)
    ensures Balanced(Rebalance(t)) && Rebalance(t).Node?
    ensures HeightOver(t.left, t.right) - 1 <= Height(Rebalance(t)) <= HeightOver(t.left, t.right)
    ensures -1 <= Factor(t) <= 1 ==> Rebalance(t) == UpdateHeight(t)
  {
    BalancedHeight(t.left);
    BalancedHeight(t.right);
    var u := UpdateHeight(t);
    if Factor(t) < -1 {
      BalancedHeight(t.left.left);
      if Factor(t.left) > 0 {
        LeftRightRotationBalances(u);
      } else {
        RightRotationBalances(u);
      }
    } else if Factor(t) > 1 {
      BalancedHeight(t.right.right);
      if Factor(t.right) < 0 {
        RightLeftRotationBalances(u);
      } else {
        LeftRotationBalances(u);
      }
    }
  }

  function Leaf(hash: nat, e: Entry): Tree {
    Node(Empty, hash, -1, e, Empty)
  }

  /** A subtree after an insertion into it: what came back, or the subtree as it was when nothing did. */
  function Kept(t: Tree, inserted: Option<Tree>): Tree {
    if inserted.Some? then inserted.value else t
  }

  /** Insertion as the recursion does it. `None` is the null it returns where a write is rejected; a caller that
      gets it keeps its child and goes on, so only a rejection at the root is reported. */
  function Insert(t: Tree, hash: nat, p: Put, clock: nat): (r: Option<Tree>)
    requires Balanced(t)
    ensures r.Some? ==> r.value.Node? && Balanced(r.value)
    ensures r.Some? ==> Grown(t, r.value)
    ensures r.None? <==> t.Node? && t.hash == hash && Rejects(Some(t.entry), p)
  {
    BalancedHeight(t);
    match t
    case Empty => Some(Leaf(hash, Written(None, p, clock)))
    case Node(l, h, _, e, r) =>
      BalancedHeight(l);
      BalancedHeight(r);
      if h > hash then
        var inserted := Insert(l, hash, p, clock);
        var t' := t.(left := Kept(l, inserted));
        RebalanceBalances(t');
        RebalanceRestores(t, t');
        Some(Rebalance(t'))
      else if h < hash then
        var inserted := Insert(r, hash, p, clock);
        var t' := t.(right := Kept(r, inserted));
        RebalanceBalances(t');
        RebalanceRestores(t, t');
        Some(Rebalance(t'))
      else if Rejects(Some(e), p) then None
      else
        RebalanceBalances(t.(entry := Written(Some(e), p, clock)));
        Some(Rebalance(t.(entry := Written(Some(e), p, clock))))
  }

  /** A node after the write went into the child it belongs to, or into the node itself, before rebalancing. */
  function Passed(t: Tree, hash: nat, p: Put, clock: nat): Tree
    requires Balanced(t) && t.Node?
  {
    if t.hash > hash then t.(left := After(t.left, hash, p, clock))
    else if t.hash < hash then t.(right := After(t.right, hash, p, clock))
    else t.(entry := Written(Some(t.entry), p, clock))
  }

  lemma InsertRebalances(t: Tree, hash: nat, p: Put, clock: nat)
    requires Balanced(t) && t.Node? && !(t.hash == hash && Rejects(Some(t.entry), p))
    ensures Rebalanceable(Passed(t, hash, p, clock))
    ensures Insert(t, hash, p, clock) == Some(Rebalance(Passed(t, hash, p, clock)))
  {
    BalancedHeight(t.left);
    BalancedHeight(t.right);
  }

  /** Insertion leaves a tree as high as it was or one higher; a first node does not count as higher. */
  predicate Grown(t: Tree, t': Tree) {
    Height(t) <= Height(t') <= Height(t) + (if t.Empty? then 0 else 1)
  }

  /** One child grew by at most one: the rebalanced node is as high as before or one higher. */
  lemma RebalanceRestores(t: Tree, t': Tree)
    requires Balanced(t) && t.Node? && Rebalanceable(t')
    requires (t'.right == t.right && Grown(t.left, t'.left)) || (t'.left == t.left && Grown(t.right, t'.right))
    ensures Height(t) <= Height(Rebalance(t')) <= Height(t) + 1
  {
    RebalanceBalances(t');
    BalancedHeight(t);
    BalancedHeight(t.left);
    BalancedHeight(t.right);
  }

  /** The tree after an insertion: unchanged when the root itself rejects the write. */
  function After(t: Tree, hash: nat, p: Put, clock: nat): (r: Tree)
    requires Balanced(t)
    ensures Balanced(r)
  {
    Kept(t, Insert(t, hash, p, clock))
  }

  // ---------------------------------------------------------------- order and contents

  function Hashes(t: Tree): set<nat> {
    if t.Empty? then {} else Hashes(t.left) + {t.hash} + Hashes(t.right)
  }

  predicate Ordered(t: Tree) {
    t.Node? ==>
      && Ordered(t.left) && Ordered(t.right)
      && (forall h :: h in Hashes(t.left) ==> h < t.hash)
      && (forall h :: h in Hashes(t.right) ==> t.hash < h)
  }

  /** Lookup walks down by comparing hashes. */
  function Find(t: Tree, hash: nat): Option<Entry> {
    if t.Empty? then None
    else if t.hash == hash then Some(t.entry)
    else if hash < t.hash then Find(t.left, hash)
    else Find(t.right, hash)
  }

  lemma FoundHashes(t: Tree, hash: nat)
    requires Find(t, hash).Some?
    ensures hash in Hashes(t)
  {}

  /** Two trees are searched alike. */
  ghost predicate SameIndex(t: Tree, t': Tree) {
    Ordered(t') && Hashes(t') == Hashes(t) && forall h :: Find(t', h) == Find(t, h)
  }

  lemma RotateRightSameIndex(t: Tree)
    requires t.Node? && t.left.Node? && Ordered(t)
    ensures SameIndex(t, RotateRight(t))
  {
    var l, r := t.left, RotateRight(t);
    assert l.hash in Hashes(l) && Hashes(l.right) <= Hashes(l);
    assert Hashes(r.right) == Hashes(l.right) + {t.hash} + Hashes(t.right);
    assert Hashes(t) == Hashes(l.left) + {l.hash} + Hashes(l.right) + {t.hash} + Hashes(t.right);
    assert Hashes(r) == Hashes(l.left) + {l.hash} + Hashes(r.right);
  }

  lemma RotateLeftSameIndex(t: Tree)
    requires t.Node? && t.right.Node? && Ordered(t)
    ensures SameIndex(t, RotateLeft(t))
  {
    var l, r := RotateLeft(t), t.right;
    assert r.hash in Hashes(r) && Hashes(r.left) <= Hashes(r);
    assert Hashes(l.left) == Hashes(t.left) + {t.hash} + Hashes(r.left);
    assert Hashes(t) == Hashes(t.left) + {t.hash} + (Hashes(r.left) + {r.hash} + Hashes(r.right));
    assert Hashes(l) == Hashes(l.left) + {r.hash} + Hashes(r.right);
  }

  /** Swapping a child for one that is searched alike. */
  lemma ChildSameIndex(t: Tree, l: Tree, r: Tree)
    requires t.Node? && Ordered(t) && SameIndex(t.left, l) && SameIndex(t.right, r)
    ensures SameIndex(t, t.(left := l, right := r))
  {}

  lemma RebalanceSameIndex(t: Tree)
    requires Rebalanceable(t) && Ordered(t)
    ensures SameIndex(t, Rebalance(t))
  {
    BalancedHeight(t.left);
    BalancedHeight(t.right);
    var u := UpdateHeight(t);
    assert SameIndex(t, u);
    if Factor(u) < -1 {
      BalancedHeight(u.left.left);
      var v := u;
      if Factor(u.left) > 0 {
        RotateLeftSameIndex(u.left);
        v := u.(left := RotateLeft(u.left));
        ChildSameIndex(u, v.left, u.right);
      }
      RotateRightSameIndex(v);
    } else if Factor(u) > 1 {
      BalancedHeight(u.right.right);
      var v := u;
      if Factor(u.right) < 0 {
        RotateRightSameIndex(u.right);
        v := u.(right := RotateRight(u.right));
        ChildSameIndex(u, u.left, v.right);
      }
      RotateLeftSameIndex(v);
    }
  }

  /** What a lookup finds after a write, by the store's rule for one entry. */
  function FoundAfter(t: Tree, hash: nat, p: Put, clock: nat, h: nat): Option<Entry> {
    if h == hash && !Rejects(Find(t, hash), p) then Some(Written(Find(t, hash), p, clock)) else Find(t, h)
  }

  /** `t'` is `t` with the write applied: same order, and exactly the allowed entry changed. */
  ghost predicate Written1(t: Tree, t': Tree, hash: nat, p: Put, clock: nat) {
    && Ordered(t') && Hashes(t') == Hashes(t) + {hash}
    && forall h :: Find(t', h) == FoundAfter(t, hash, p, clock, h)
  }

  lemma WrittenInLeft(t: Tree, l: Tree, hash: nat, p: Put, clock: nat)
    requires t.Node? && Ordered(t) && hash < t.hash && Written1(t.left, l, hash, p, clock)
    ensures Written1(t, t.(left := l), hash, p, clock)
  {}

  lemma WrittenInRight(t: Tree, r: Tree, hash: nat, p: Put, clock: nat)
    requires t.Node? && Ordered(t) && t.hash < hash && Written1(t.right, r, hash, p, clock)
    ensures Written1(t, t.(right := r), hash, p, clock)
  {}

  lemma SameIndexWritten(t: Tree, t': Tree, t'': Tree, hash: nat, p: Put, clock: nat)
    requires Written1(t, t', hash, p, clock) && SameIndex(t', t'')
    ensures Written1(t, t'', hash, p, clock)
  {}

  /** Insertion keeps the order and changes exactly the entry the stamp rule allows. */
  lemma {:induction false} InsertContents(t: Tree, hash: nat, p: Put, clock: nat)
    requires Balanced(t) && Ordered(t)
    ensures Written1(t, After(t, hash, p, clock), hash, p, clock)
  {
    if t.Empty? || (t.hash == hash && Rejects(Some(t.entry), p)) {
      assert Written1(t, After(t, hash, p, clock), hash, p, clock);
    } else {
      var t';
      if t.hash > hash {
        InsertContents(t.left, hash, p, clock);
        t' := t.(left := After(t.left, hash, p, clock));
        WrittenInLeft(t, t'.left, hash, p, clock);
      } else if t.hash < hash {
        InsertContents(t.right, hash, p, clock);
        t' := t.(right := After(t.right, hash, p, clock));
        WrittenInRight(t, t'.right, hash, p, clock);
      } else {
        t' := t.(entry := Written(Some(t.entry), p, clock));
      }
      assert Insert(t, hash, p, clock) == Some(Rebalance(t'));
      RebalanceSameIndex(t');
      SameIndexWritten(t, t', Rebalance(t'), hash, p, clock);
    }
  }

  /** What a write makes of the entry under its hash: a new entry when there is none, nothing when a counter is there;
      over a value, nothing when it comes from another node, minds stamps and meets a greater one, and otherwise the new
      value under the old key text. The stamp is the sender's or, for a client, made of the clock and the node's id. */
  lemma WriteLands(t: Tree, hash: nat, p: Put, clock: nat)
    requires Balanced(t) && Ordered(t)
    ensures var was, now := Find(t, hash), Find(After(t, hash, p, clock), hash);
            var older := was.Some? && was.value.DataEntry? && p.fromNode && p.strategy != Lamport.NONE &&
                         (was.value.stamp.counter > p.stamp.counter ||
                          (was.value.stamp.counter == p.stamp.counter && was.value.stamp.node > p.stamp.node));
            if older || (was.Some? && was.value.CounterEntry?) then now == was
            else
              now.Some? && now.value.DataEntry? && now.value.value == p.value &&
              now.value.key == (if was.Some? then was.value.key else p.key) &&
              now.value.stamp.node == p.stamp.node &&
              var made := now.value.stamp.counter;
              if p.fromNode || p.strategy == Lamport.NONE then made == (if p.fromNode then p.stamp.counter else clock)
              else if p.strategy == Lamport.SET_MAX then
                clock <= made && p.stamp.counter <= made && made in {clock, p.stamp.counter}
              else clock < made && p.stamp.counter < made && made - 1 in {clock, p.stamp.counter}
    ensures forall h :: h != hash ==> Find(After(t, hash, p, clock), h) == Find(t, h)
  {
    InsertContents(t, hash, p, clock);
  }

  /** A rejected write leaves the tree exactly as it was, heights included, wherever the entry sits. */
  lemma {:induction false} RejectedWriteChangesNothing(t: Tree, hash: nat, p: Put, clock: nat)
    requires Balanced(t) && Ordered(t) && Rejects(Find(t, hash), p)
    ensures After(t, hash, p, clock) == t
  {
    if t.Empty? || t.hash == hash {
    } else {
      var child := if t.hash > hash then t.left else t.right;
      RejectedWriteChangesNothing(child, hash, p, clock);
      RebalanceBalances(t);
    }
  }

  // ---------------------------------------------------------------- counters

  /** Insertion of a counter: a node with its hash, of either kind, turns it away. */
  function InsertCounter(t: Tree, hash: nat, e: Entry): (r: Option<Tree>)
    requires Balanced(t)
    ensures r.Some? ==> r.value.Node? && Balanced(r.value)
    ensures r.Some? ==> Grown(t, r.value)
    ensures r.None? <==> t.Node? && t.hash == hash
  {
    BalancedHeight(t);
    match t
    case Empty => Some(Leaf(hash, e))
    case Node(l, h, _, _, r) =>
      BalancedHeight(l);
      BalancedHeight(r);
      if h == hash then None
      else
        var t' := if h > hash then t.(left := Kept(l, InsertCounter(l, hash, e)))
                  else t.(right := Kept(r, InsertCounter(r, hash, e)));
        RebalanceBalances(t');
        RebalanceRestores(t, t');
        Some(Rebalance(t'))
  }

  function AfterCounter(t: Tree, hash: nat, e: Entry): (r: Tree)
    requires Balanced(t)
    ensures Balanced(r)
  {
    Kept(t, InsertCounter(t, hash, e))
  }

  lemma CounterRebalances(t: Tree, hash: nat, e: Entry)
    requires Balanced(t) && t.Node? && t.hash != hash
    ensures var t' := if t.hash > hash then t.(left := AfterCounter(t.left, hash, e))
                      else t.(right := AfterCounter(t.right, hash, e));
            Rebalanceable(t') && InsertCounter(t, hash, e) == Some(Rebalance(t'))
  {
    BalancedHeight(t.left);
    BalancedHeight(t.right);
  }

  /** `t'` is `t` with the counter put in, if its hash was free. */
  ghost predicate CounterIn(t: Tree, t': Tree, hash: nat, e: Entry) {
    && Ordered(t') && Hashes(t') == Hashes(t) + {hash}
    && forall h :: Find(t', h) == if h == hash && Find(t, hash).None? then Some(e) else Find(t, h)
  }

  lemma CounterInChild(t: Tree, t': Tree, hash: nat, e: Entry)
    requires t.Node? && t'.Node? && Ordered(t)
    requires (hash < t.hash && t' == t.(left := t'.left) && CounterIn(t.left, t'.left, hash, e)) ||
             (t.hash < hash && t' == t.(right := t'.right) && CounterIn(t.right, t'.right, hash, e))
    ensures CounterIn(t, t', hash, e)
  {}

  /** Inserting a counter keeps the order and every entry there was. */
  lemma {:induction false} CounterContents(t: Tree, hash: nat, e: Entry)
    requires Balanced(t) && Ordered(t)
    ensures CounterIn(t, AfterCounter(t, hash, e), hash, e)
  {
    if t.Empty? || t.hash == hash {
      assert CounterIn(t, AfterCounter(t, hash, e), hash, e);
    } else {
      var t';
      if t.hash > hash {
        CounterContents(t.left, hash, e);
        t' := t.(left := AfterCounter(t.left, hash, e));
      } else {
        CounterContents(t.right, hash, e);
        t' := t.(right := AfterCounter(t.right, hash, e));
      }
      CounterInChild(t, t', hash, e);
      CounterRebalances(t, hash, e);
      RebalanceSameIndex(t');
    }
  }

  // ---------------------------------------------------------------- size and depth

  function Size(t: Tree): nat {
    if t.Empty? then 0 else Size(t.left) + 1 + Size(t.right)
  }

  /** The real height: edges on the longest way down, -1 for an empty tree. */
  function Depth(t: Tree): int {
    if t.Empty? then -1 else 1 + (if Depth(t.left) > Depth(t.right) then Depth(t.left) else Depth(t.right))
  }

  function Fib(n: nat): nat {
    if n < 2 then n else Fib(n - 1) + Fib(n - 2)
  }

  lemma {:induction false} FibMonotone(m: nat, n: nat)
    requires m <= n
    ensures Fib(m) <= Fib(n)
    decreases n
  {
    if m == n {
    } else {
      FibMonotone(m, n - 1);
    }
  }

  /** A balanced tree of stored height h has at least Fib(h + 3) - 1 nodes. */
  lemma {:induction false} BalancedIsBushy(t: Tree)
    requires Balanced(t)
    ensures Height(t) >= -1 && Size(t) + 1 >= Fib(Height(t) + 3)
  {
    BalancedHeight(t);
    if t.Node? && t.height >= 1 {
      BalancedIsBushy(t.left);
      BalancedIsBushy(t.right);
      var low := if Height(t.left) < Height(t.right) then Height(t.left) else Height(t.right);
      FibMonotone(t.height + 1, low + 3);
      assert Fib(t.height + 3) == Fib(t.height + 2) + Fib(t.height + 1);
    } else {
      assert Fib(2) == 1 && Fib(3) == 2;
    }
  }

  /** A balanced tree of stored height h is at most h + 1 deep. */
  lemma {:induction false} StoredHeightBoundsDepth(t: Tree)
    requires Balanced(t)
    ensures Depth(t) <= Height(t) + 1
  {
    if t.Empty? {
    } else {
      StoredHeightBoundsDepth(t.left);
      StoredHeightBoundsDepth(t.right);
    }
  }

  /** A way down along the stored heights ends in a node that still has the height of an empty tree. */
  predicate Lags(t: Tree) {
    t.Node? &&
    (t.height == -1 || (Height(t.left) == t.height - 1 && Lags(t.left)) || (Height(t.right) == t.height - 1 && Lags(t.right)))
  }

  /** How far stored heights are off: by one exactly where they rest on such a node. */
  lemma {:induction false} DepthFromHeight(t: Tree)
    requires Balanced(t)
    ensures Depth(t) == Height(t) + if Lags(t) then 1 else 0
  {
    if t.Empty? {
    } else {
      DepthFromHeight(t.left);
      DepthFromHeight(t.right);
      BalancedHeight(t.left);
      BalancedHeight(t.right);
    }
  }

  /** Balance in terms of the real heights. */
  predicate TrulyBalanced(t: Tree) {
    t.Node? ==> TrulyBalanced(t.left) && TrulyBalanced(t.right) && -1 <= Depth(t.right) - Depth(t.left) <= 1
  }

  /** Nowhere does the child of greater stored height lag while the other does not. */
  predicate NoneTips(t: Tree) {
    t.Node? ==>
      && NoneTips(t.left) && NoneTips(t.right)
      && (Factor(t) == 1 && Lags(t.right) ==> Lags(t.left)) && (Factor(t) == -1 && Lags(t.left) ==> Lags(t.right))
  }

  /** A tree of the index is an AVL tree by its real heights if and only if nowhere a higher child alone lags. */
  lemma {:induction false} TrulyBalancedExactly(t: Tree)
    requires Balanced(t)
    ensures TrulyBalanced(t) <==> NoneTips(t)
  {
    if t.Empty? {
    } else {
      TrulyBalancedExactly(t.left);
      TrulyBalancedExactly(t.right);
      DepthFromHeight(t.left);
      DepthFromHeight(t.right);
    }
  }

  lemma NextToLeaf(a: nat, e: Entry, b: nat, p: Put, clock: nat)
    requires a < b
    ensures After(Leaf(a, e), b, p, clock) == Node(Empty, a, 0, e, Leaf(b, Written(None, p, clock)))
  {
    InsertRebalances(Leaf(a, e), b, p, clock);
    assert Passed(Leaf(a, e), b, p, clock) == Leaf(a, e).(right := Leaf(b, Written(None, p, clock)));
  }

  /** Three entries put in by increasing hash hang in a chain, which is not rebalanced. */
  lemma ThreeInAChain(a: nat, b: nat, c: nat, p: Put, clock: nat)
    requires a < b < c
    ensures var t := After(After(After(Empty, a, p, clock), b, p, clock), c, p, clock);
            t.Node? && t.left.Empty? && Depth(t.right) == 1 && !TrulyBalanced(t)
  {
    var e := Written(None, p, clock);
    var two := Node(Empty, a, 0, e, Leaf(b, e));
    assert After(Empty, a, p, clock) == Leaf(a, e);
    NextToLeaf(b, e, c, p, clock);
    NextToLeaf(a, e, b, p, clock);
    InsertRebalances(two, c, p, clock);
    assert Passed(two, c, p, clock) == two.(right := Node(Empty, b, 0, e, Leaf(c, e)));
  }

  lemma {:induction false} FibGrows(n: nat)
    ensures Fib(n + 2) >= Pow2(n / 2)
    decreases n
  {
    if n < 2 {
    } else {
      FibGrows(n - 2);
      FibMonotone(n, n + 1);
      assert Fib(n + 2) >= 2 * Fib(n);
    }
  }

  /** Lookup depth is logarithmic: a tree of depth d has at least 2^(d/2) - 1 nodes. */
  lemma DepthIsLogarithmic(t: Tree)
    requires Balanced(t) && t.Node?
    ensures Depth(t) >= 0 && Size(t) + 1 >= Pow2(Depth(t) / 2)
  {
    BalancedIsBushy(t);
    StoredHeightBoundsDepth(t);
    NodeHasDepth(t);
    FibGrows(Depth(t));
    FibMonotone(Depth(t) + 2, Height(t) + 3);
  }

  lemma NodeHasDepth(t: Tree)
    ensures Depth(t) >= -1 && (t.Node? ==> Depth(t) >= 0)
  {}

  // ---------------------------------------------------------------- in hash order

  function InOrder(t: Tree): seq<(nat, Entry)> {
    if t.Empty? then [] else InOrder(t.left) + [(t.hash, t.entry)] + InOrder(t.right)
  }

  predicate Increasing(s: seq<(nat, Entry)>) {
    forall i, j :: 0 <= i < j < |s| ==> s[i].0 < s[j].0
  }

  /** The in-order listing is strictly increasing in the hash and lists exactly what lookup finds. */
  lemma {:induction false} InOrderListsIndex(t: Tree)
    requires Ordered(t)
    ensures Increasing(InOrder(t)) && |InOrder(t)| == Size(t)
    ensures forall h: nat, e :: (h, e) in InOrder(t) <==> Find(t, h) == Some(e)
    ensures forall x :: x in InOrder(t) ==> x.0 in Hashes(t)
  {
    if t.Empty? {
    } else {
      InOrderListsIndex(t.left);
      InOrderListsIndex(t.right);
    }
  }
}
