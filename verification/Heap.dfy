/** heap-inl.h: the pointer-based binary min heap. */
module Heap {
  import opened HeapOrder
  import opened HeapPath
  import opened HeapShape

  /** Where a node pointer is stored: the code walks the heap by the address of such a place. */
  datatype Place<K> = MinOf | LeftOf(n: HNode<K>) | RightOf(n: HNode<K>)

  /** The place that holds the pointer to slot `k`. */
  ghost function PlaceOf<K>(s: seq<HNode<K>>, k: int): Place<K>
    requires k == 1 || 1 <= k / 2 <= |s|
  {
    if k == 1 then MinOf else if k % 2 == 0 then LeftOf(s[k / 2 - 1]) else RightOf(s[k / 2 - 1])
  }

  /** The place of slot `k` holds the node in it. */
  lemma PlaceHolds<K>(s: seq<HNode<K>>, k: int, min: HNode?<K>, m: Links<K>)
    requires Linked(s, min, m) && 1 <= k <= |s| + 1
    ensures match PlaceOf(s, k)
            case MinOf => min == At(s, k)
            case LeftOf(x) => x in m && m[x].left == At(s, k)
            case RightOf(x) => x in m && m[x].right == At(s, k)
  {
    assert SlotOk(s, m, k / 2);
  }

  class Heap<K(!new)> {
    const less: (K, K) -> bool
    var min: HNode?<K>
    var nelts: int
    ghost var slots: seq<HNode<K>>

    ghost predicate Valid()
      reads this, slots
    {
      IsStrictWeak(less) && Linked(slots, min, Cells(Members(slots))) && nelts == |slots| < WORD && Ordered(less, slots)
    }

    constructor (less: (K, K) -> bool)
      requires IsStrictWeak(less)
      ensures Valid() && slots == [] && this.less == less
    {
      this.less := less;
      min, nelts, slots := null, 0, [];
    }

    /** The pointer stored in a place. */
    method Load(p: Place<K>) returns (n: HNode?<K>)
      ensures n == match p case MinOf => min case LeftOf(x) => x.left case RightOf(x) => x.right
    {
      match p
      case MinOf => n := min;
      case LeftOf(x) => n := x.left;
      case RightOf(x) => n := x.right;
    }

    /** The structure assignments of heap_node_swap: the nodes trade all their links. */
    method Exchange(a: HNode<K>, b: HNode<K>)
      requires a != b
      modifies a, b
      ensures a.left == old(b.left) && a.right == old(b.right) && a.parent == old(b.parent)
      ensures b.left == old(a.left) && b.right == old(a.right) && b.parent == old(a.parent)
    {
      var left, right, parent := a.left, a.right, a.parent;
      a.left, a.right, a.parent := b.left, b.right, b.parent;
      b.left, b.right, b.parent := left, right, parent;
    }

    /** heap_node_swap: exchanges a node with its parent by relinking. */
    method NodeSwap(parent: HNode<K>, child: HNode<K>, ghost u: set<HNode<K>>)
      requires CanSwap(parent, child, Cells(u))
      modifies this`min, u
      ensures Swapped(parent, child, old(min), old(Cells(u)), min, Cells(u))
    {
      Exchange(parent, child);
      parent.parent := child;
      var sibling;
      if child.left == child {
        child.left := parent;
        sibling := child.right;
      } else {
        child.right := parent;
        sibling := child.left;
      }
      if sibling != null {
        sibling.parent := child;
      }
      if parent.left != null {
        parent.left.parent := parent;
      }
      if parent.right != null {
        parent.right.parent := parent;
      }
      if child.parent == null {
        min := child;
      } else if child.parent.left == parent {
        child.parent.left := child;
      } else {
        child.parent.right := child;
      }
    }

    /** Stores a pointer in a place. */
    method Store(p: Place<K>, n: HNode?<K>)
      modifies this`min, match p case MinOf => {} case LeftOf(x) => {x} case RightOf(x) => {x}
      ensures p.MinOf? ==> min == n
      ensures !p.MinOf? ==> min == old(min)
      ensures p.LeftOf? ==> p.n.left == n && p.n.right == old(p.n.right) && p.n.parent == old(p.n.parent)
      ensures p.RightOf? ==> p.n.right == n && p.n.left == old(p.n.left) && p.n.parent == old(p.n.parent)
    {
      match p
      case MinOf => min := n;
      case LeftOf(x) => x.left := n;
      case RightOf(x) => x.right := n;
    }

    /** The loop that collects the path from the root to slot `target`. */
    method Collect(target: int) returns (path: int, k: nat)
      requires 1 <= target < WORD
      ensures path == Reversed(target, k) && Shift(target, k) == 1
    {
      path, k := 0, 0;
      var n := target;
      while n >= 2
        invariant n == Shift(target, k) >= 1 && path == Reversed(target, k)
        decreases n
      {
        CollectStep(target, k);
        path := (path * 2 + n % 2) % WORD;
        n := n / 2;
        k := k + 1;
      }
    }

    /** The loop that follows the path: it ends at the place that holds the pointer to slot `target`. */
    method Walk(path0: int, k0: nat, ghost target: int, ghost s: seq<HNode<K>>, ghost u: set<HNode<K>>)
      returns (parent: Place<K>, child: Place<K>)
      requires Linked(s, min, Cells(u)) && 1 <= target <= |s| + 1
      requires path0 == Reversed(target, k0) && Shift(target, k0) == 1
      ensures Cells(u) == old(Cells(u))
      ensures child == PlaceOf(s, target)
      ensures parent == if target == 1 then MinOf else PlaceOf(s, target / 2)
    {
      var path, k := path0, k0;
      parent, child := MinOf, MinOf;
      ghost var m, c := Cells(u), 1;
      while k > 0
        invariant Cells(u) == m && min == At(s, 1)
        invariant c == Shift(target, k) && path == Reversed(target, k)
        invariant 1 <= c <= target && child == PlaceOf(s, c)
        invariant parent == if c == 1 then MinOf else PlaceOf(s, c / 2)
      {
        WalkStep(target, k);
        ShiftLeast(target, k - 1);
        PlaceHolds(s, c, min, m);
        parent := child;
        var at := Load(child);
        child := if path % 2 == 1 then RightOf(at) else LeftOf(at);
        c := 2 * c + path % 2;
        path := path / 2;
        k := k - 1;
      }
    }

    /** The loop that moves `node` from slot `k` up while it is below its parent. */
    method SiftUp(node: HNode<K>, ghost k0: int, ghost s0: seq<HNode<K>>, ghost u: set<HNode<K>>)
      returns (ghost s: seq<HNode<K>>)
      requires IsStrictWeak(less) && Linked(s0, min, Cells(u)) && 1 <= k0 <= |s0| && s0[k0 - 1] == node
      requires OrderedButUp(less, s0, k0)
      modifies this`min, u
      ensures Linked(s, min, Cells(u)) && Ordered(less, s) && multiset(s) == multiset(s0) && |s| == |s0|
    {
      s := s0;
      ghost var k := k0;
      assert SlotOk(s, Cells(u), k);
      while node.parent != null && less(node.key, node.parent.key)
        invariant Linked(s, min, Cells(u)) && multiset(s) == multiset(s0) && |s| == |s0|
        invariant 1 <= k <= |s| && s[k - 1] == node && node in u && node.parent == At(s, k / 2)
        invariant OrderedButUp(less, s, k)
        decreases k
      {
        UpStep(less, s, k);
        s := StepUp(node.parent, node, k, s, u);
        k := k / 2;
        assert SlotOk(s, Cells(u), k);
      }
      UpDone(less, s, k);
    }

    /** heap_node_swap of the node in slot `k` with its parent, on the array. */
    method StepUp(parent: HNode<K>, child: HNode<K>, ghost k: int, ghost s: seq<HNode<K>>, ghost u: set<HNode<K>>)
      returns (ghost s': seq<HNode<K>>)
      requires Linked(s, min, Cells(u)) && 2 <= k <= |s| && parent == s[k / 2 - 1] && child == s[k - 1]
      modifies this`min, u
      ensures s' == Swap(s, k / 2, k) && Linked(s', min, Cells(u)) && multiset(s') == multiset(s)
    {
      LinkedCanSwap(s, k, min, Cells(u));
      SwapKeeps(s, k / 2, k);
      NodeSwap(parent, child, u);
      SwapLinks(s, k, old(min), old(Cells(u)), min, Cells(u));
      s' := Swap(s, k / 2, k);
    }

    /** Records the array that the links of `u` now stand for. */
    ghost method Adopt(s: seq<HNode<K>>, u: set<HNode<K>>)
      requires IsStrictWeak(less) && Linked(s, min, Cells(u)) && nelts == |s| < WORD && Ordered(less, s)
      modifies this`slots
      ensures Valid() && slots == s
    {
      ghost var m := Cells(u);
      assert Members(s) == u;
      slots := s;
      assert Cells(u) == m;
    }

    /** The path to slot `target` collected and followed. */
    method Locate(target: int, ghost s: seq<HNode<K>>, ghost u: set<HNode<K>>)
      returns (parent: Place<K>, child: Place<K>)
      requires Linked(s, min, Cells(u)) && 1 <= target <= |s| + 1 && target < WORD
      ensures child == PlaceOf(s, target)
      ensures parent == if target == 1 then MinOf else PlaceOf(s, target / 2)
      ensures Linked(s, min, Cells(u))
    {
      var path, k := Collect(target);
      parent, child := Walk(path, k, target, s, u);
    }

    /** Stores `newnode` in the located place, below the node that `parent` holds. */
    method LinkAt(newnode: HNode<K>, parent: Place<K>, child: Place<K>, ghost s: seq<HNode<K>>, ghost u: set<HNode<K>>)
      requires Linked(s, min, Cells(u)) && newnode !in u && newnode.left == null && newnode.right == null
      requires child == PlaceOf(s, |s| + 1) && parent == if s == [] then MinOf else PlaceOf(s, (|s| + 1) / 2)
      modifies this`min, newnode, u
      ensures Linked(s + [newnode], min, Cells(u + {newnode}))
    {
      ghost var m := Cells(u);
      AppendPlace(s, newnode, min, m);
      var above := Load(parent);
      assert above == At(s, (|s| + 1) / 2);
      newnode.parent := above;
      Store(child, newnode);
      AppendLinks(s, newnode, old(min), m, min, Cells(u + {newnode}));
    }

    /** Links `newnode` as the left-most free node of the bottom row. */
    method LinkLast(newnode: HNode<K>, ghost s: seq<HNode<K>>, ghost u: set<HNode<K>>)
      requires Linked(s, min, Cells(u)) && newnode !in u && nelts == |s| && |s| + 1 < WORD
      modifies this`min, newnode, u
      ensures Linked(s + [newnode], min, Cells(u + {newnode}))
    {
      ghost var m := Cells(u);
      newnode.left, newnode.right, newnode.parent := null, null, null;
      assert Cells(u) == m;
      var parent, child := Locate(1 + nelts, s, u);
      LinkAt(newnode, parent, child, s, u);
    }

    /** heap_insert. */
    method Insert(newnode: HNode<K>)
      requires Valid() && newnode !in slots && nelts + 1 < 0x1_0000_0000
      modifies this, newnode, slots
      ensures Valid() && multiset(slots) == old(multiset(slots)) + multiset{newnode}
    {
      ghost var s, u := slots, Members(slots);
      LinkLast(newnode, s, u);
      nelts := nelts + 1;
      AppendOrder(less, s, newnode);
      ghost var s' := SiftUp(newnode, |s| + 1, s + [newnode], u + {newnode});
      assert multiset(s + [newnode]) == multiset(s) + multiset{newnode};
      Adopt(s', u + {newnode});
    }

    // ---------- heap_remove ----------

    /** Unlinks the node in the last slot; its own links stay. */
    method UnlinkLast(ghost s: seq<HNode<K>>, ghost u: set<HNode<K>>) returns (child: HNode<K>)
      requires Linked(s, min, Cells(u)) && s != [] && nelts == |s| < WORD
      modifies this`min, u
      ensures child == s[|s| - 1] && child in u && Linked(s[..|s| - 1], min, Cells(u - {child}))
    {
      ghost var m, k := Cells(u), |s|;
      var _, max := Locate(nelts, s, u);
      assert SlotOk(s, Cells(u), k / 2) && SlotOk(s, Cells(u), k);
      SameSlot(s, k, k / 2);
      child := UnlinkAt(max, s, u);
    }

    method UnlinkAt(max: Place<K>, ghost s: seq<HNode<K>>, ghost u: set<HNode<K>>) returns (child: HNode<K>)
      requires Linked(s, min, Cells(u)) && s != [] && max == PlaceOf(s, |s|)
      modifies this`min, u
      ensures child == s[|s| - 1] && child in u && Linked(s[..|s| - 1], min, Cells(u - {child}))
    {
      ghost var m, k := Cells(u), |s|;
      assert SlotOk(s, m, k / 2) && SlotOk(s, m, k);
      SameSlot(s, k, k / 2);
      child := Load(max);
      Store(max, null);
      ShortenLinks(s, old(min), m, min, Cells(u - {child}));
    }

    /** Puts `child` in the place of `node`. */
    method ReplaceNode(node: HNode<K>, child: HNode<K>, ghost u: set<HNode<K>>)
      requires CanReplace(node, Cells(u)) && child !in u
      modifies this`min, child, u
      ensures Replaced(node, child, old(min), old(Cells(u)), min, Cells(u - {node} + {child}))
    {
      child.left, child.right, child.parent := node.left, node.right, node.parent;
      if child.left != null {
        child.left.parent := child;
      }
      if child.right != null {
        child.right.parent := child;
      }
      if node.parent == null {
        min := child;
      } else if node.parent.left == node {
        node.parent.left := child;
      } else {
        node.parent.right := child;
      }
    }

    /** The loop that moves `child` from slot `k` down while a child of it is below it. */
    method SiftDown(child: HNode<K>, ghost k0: int, ghost s0: seq<HNode<K>>, ghost u: set<HNode<K>>)
      returns (ghost k: int, ghost s: seq<HNode<K>>)
      requires IsStrictWeak(less) && Linked(s0, min, Cells(u)) && 1 <= k0 <= |s0| && s0[k0 - 1] == child
      requires OrderedBut(less, s0, k0)
      modifies this`min, u
      ensures Linked(s, min, Cells(u)) && multiset(s) == multiset(s0) && |s| == |s0|
      ensures 1 <= k <= |s| && s[k - 1] == child && OrderedButUp(less, s, k)
    {
      k, s := k0, s0;
      while true
        invariant Linked(s, min, Cells(u)) && multiset(s) == multiset(s0) && |s| == |s0|
        invariant 1 <= k <= |s| && s[k - 1] == child && OrderedBut(less, s, k)
        decreases |s0| - k
      {
        var smallest;
        ghost var c;
        smallest, c := Smallest(child, k, s, u);
        if smallest == child {
          return;
        }
        DownStep(less, s, k, c);
        s := StepUp(child, smallest, c, s, u);
        k := c;
      }
    }

    /** The least of the node in slot `k` and its children; the node itself when neither child is below it. */
    method Smallest(child: HNode<K>, ghost k: int, ghost s: seq<HNode<K>>, ghost u: set<HNode<K>>)
      returns (smallest: HNode<K>, ghost c: int)
      requires IsStrictWeak(less) && Linked(s, min, Cells(u)) && 1 <= k <= |s| && s[k - 1] == child
      ensures Linked(s, min, Cells(u))
      ensures 1 <= c <= |s| && smallest == s[c - 1] && (c == k || c / 2 == k)
      ensures smallest == child <==> c == k
      ensures c != k ==> less(smallest.key, child.key)
      ensures forall j :: j / 2 == k ==> NotBelow(less, s, j, c)
    {
      assert SlotOk(s, Cells(u), k);
      smallest, c := child, k;
      if child.left != null && less(child.left.key, smallest.key) {
        smallest, c := child.left, 2 * k;
      }
      if child.right != null && less(child.right.key, smallest.key) {
        smallest, c := child.right, 2 * k + 1;
      }
      SameSlot(s, c, k);
      forall j | j / 2 == k ensures NotBelow(less, s, j, c) {
        assert j == 2 * k || j == 2 * k + 1;
        assert !less(s[c - 1].key, s[c - 1].key);
      }
    }

    /** The rest of heap_remove once `child` has left the last slot: it takes slot `k` and is sifted. */
    method Refill(node: HNode<K>, child: HNode<K>, ghost k: int, ghost s: seq<HNode<K>>, ghost u: set<HNode<K>>,
                  ghost u': set<HNode<K>>)
      returns (ghost s': seq<HNode<K>>)
      requires IsStrictWeak(less) && Linked(s, min, Cells(u)) && Ordered(less, s)
      requires 1 <= k <= |s| && s[k - 1] == node && child !in u && u' == u - {node} + {child}
      modifies this`min, child, u
      ensures Linked(s', min, Cells(u')) && Ordered(less, s') && |s'| == |s|
      ensures multiset(s') == multiset(s) - multiset{node} + multiset{child}
    {
      ghost var m := Cells(u);
      LinkedCanReplace(s, k, min, m);
      assert child in s ==> child in Members(s);
      ReplaceNode(node, child, u);
      ReplaceLinks(s, k, child, old(min), m, min, Cells(u'));
      ReplaceOrder(less, s, k, child);
      ghost var j, s1;
      j, s1 := SiftDown(child, k, s[k - 1 := child], u');
      s' := SiftUp(child, j, s1, u');
    }

    /** heap_remove of a stored node from a heap that is not empty, on the array. */
    method RemoveSlot(node: HNode<K>, ghost s: seq<HNode<K>>, ghost u: set<HNode<K>>) returns (ghost s': seq<HNode<K>>)
      requires IsStrictWeak(less) && Linked(s, min, Cells(u)) && Ordered(less, s) && node in s && nelts == |s| < WORD
      modifies this`min, this`nelts, u
      ensures Linked(s', min, Cells(u - {node})) && Ordered(less, s') && nelts == |s'| == |s| - 1
      ensures multiset(s') == multiset(s) - multiset{node}
    {
      var child := UnlinkLast(s, u);
      nelts := nelts - 1;
      PrefixOrder(less, s);
      s' := s[..|s| - 1];
      LastOut(s, node);
      if child == node {
        assert min != null ==> min in Members(s');
        assert child != min;
        min := if child == min then null else min;
      } else {
        s' := Refill(node, child, SlotIndex(s', node), s', u - {child}, u - {node});
      }
    }

    /** heap_remove. */
    method Remove(node: HNode?<K>)
      requires Valid() && (slots != [] ==> node != null && node in slots)
      modifies this, slots
      ensures Valid()
      ensures old(slots) == [] ==> slots == []
      ensures old(slots) != [] ==> multiset(slots) == old(multiset(slots)) - multiset{node}
    {
      if nelts == 0 {
        return;
      }
      ghost var u := Members(slots);
      ghost var s := RemoveSlot(node, slots, u);
      Adopt(s, u - {node});
    }

    /** heap_dequeue: removes a least node. */
    method Dequeue()
      requires Valid()
      modifies this, slots
      ensures Valid()
      ensures old(slots) == [] ==> slots == []
      ensures old(slots) != [] ==> Dequeued(less, old(slots), slots)
    {
      Remove(min);
    }
  }
}
