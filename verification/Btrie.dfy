/**
The IPv4 binary trie with its own node allocator. Nodes live in pages; deleted nodes go to a
free list threaded through `right`. The ghost map `nodes` gives the node at each prefix.
*/
module Btrie {
  import opened Bits
  import opened Prefixes
  import opened Sets

  const PAGE_SIZE: nat := 4096
  const NODE_SIZE: nat := 32
  const SLOTS: nat := 128
  const BTRIE_MAX_PAGES: nat := 1024 * 2048

  class Node {
    var right: Node?
    var left: Node?
    var parent: Node?
    var value: int

    constructor ()
      ensures right == null && left == null && parent == null && value == 0
    {
      right, left, parent, value := null, null, null, 0;
    }
  }

  ghost predicate Distinct(s: seq<Node>) {
    forall i, j :: 0 <= i < j < |s| ==> s[i] != s[j]
  }

  ghost function Next(s: seq<Node>, i: nat): Node? {
    if i + 1 < |s| then s[i + 1] else null
  }

  twostate predicate Same(x: Node)
    reads x
  {
    x.left == old(x.left) && x.right == old(x.right) && x.parent == old(x.parent) && x.value == old(x.value)
  }

  ghost function PageSlots(pools: seq<seq<Node>>): set<Node> {
    set page, x | page in pools && x in page :: x
  }

  /** A page of new slots adds just these. */
  lemma NewPageSlots(pools: seq<seq<Node>>, slots: seq<Node>, before: set<Node>)
    requires before == PageSlots(pools) && Distinct(slots) && forall x :: x in slots ==> x !in before
    ensures before + (set x | x in slots) == PageSlots(pools + [slots])
    ensures |before + set x | x in slots| == |before| + |slots|
  {
    DistinctSize(slots);
    assert forall page :: page in pools + [slots] <==> page in pools || page == slots;
    assert before !! set x | x in slots;
  }

  lemma {:induction false} DistinctSize(s: seq<Node>)
    requires Distinct(s)
    ensures |set x | x in s| == |s|
  {
    if s == [] {
    } else {
      var n := |s| - 1;
      DistinctSize(s[..n]);
      assert (set x | x in s) == (set x | x in s[..n]) + {s[n]};
    }
  }

  class Tree {
    var root: Node?
    var free: Node?
    /** The slots of the current page that are not carved yet; `size` is their size in bytes. */
    var start: seq<Node>
    var size: nat
    var pools: seq<seq<Node>>

    ghost var nodes: map<Prefix, Node>
    ghost var freeList: seq<Node>
    /** Every slot ever allocated. */
    ghost var repr: set<Node>

    // ---- Well-formedness ---------------------------------------------------------------

    ghost function At(p: Prefix): Node?
      reads this
    {
      if p in nodes then nodes[p] else null
    }

    ghost predicate IsLeaf(p: Prefix)
      reads this
    {
      Bit(p, false) !in nodes && Bit(p, true) !in nodes
    }

    /** The links of the node at `p` agree with the map, and a leaf other than the root or
        `excused` holds a value. */
    ghost predicate NodeOk(p: Prefix, excused: Prefix)
      reads this, repr
      requires p in nodes && nodes[p] in repr
    {
      && p.Length() <= 32
      && nodes[p].left == At(Bit(p, false))
      && nodes[p].right == At(Bit(p, true))
      && (if p.Root? then nodes[p].parent == null else p.parent in nodes && nodes[p].parent == nodes[p.parent])
      && (p != excused && p.Bit? && IsLeaf(p) ==> nodes[p].value != BTRIE_NULL)
    }

    ghost predicate TreeOk(excused: Prefix)
      reads this, repr
    {
      && Root in nodes && nodes[Root] == root
      && (forall p :: p in nodes ==> nodes[p] in repr)
      && (forall p {:trigger NodeOk(p, excused)} :: p in nodes ==> NodeOk(p, excused))
      && (forall p, q {:trigger nodes[p], nodes[q]} :: p in nodes && q in nodes && p != q ==> nodes[p] != nodes[q])
    }

    /** The allocator: the free list is the chain from `free`, and it shares no slot with the
        uncarved part of the page or with the tree. */
    ghost predicate PoolOk()
      reads this, repr
    {
      && free == (if freeList == [] then null else freeList[0])
      && (forall x :: x in freeList ==> x in repr && x !in start)
      && (forall x :: x in start ==> x in repr)
      && (forall i :: 0 <= i < |freeList| ==> freeList[i].right == Next(freeList, i))
      && Distinct(freeList) && Distinct(start)
      && size == NODE_SIZE * |start| && |start| <= SLOTS
      && (forall p :: p in nodes ==> nodes[p] !in freeList && nodes[p] !in start)
    }

    /** Every slot of every page is in the tree, on the free list, or not carved yet; `held`
        slots are between these. The table of pages has not overflowed. */
    ghost predicate Conserved(held: nat)
      reads this
    {
      |nodes| + |freeList| + |start| + held == SLOTS * |pools| && |pools| <= BTRIE_MAX_PAGES
    }

    /** The slots ever allocated are those of the pages, all of them different. */
    ghost predicate PagesOk()
      reads this`pools, this`repr
    {
      repr == PageSlots(pools) && |repr| == SLOTS * |pools|
    }

    /** The last page is needed. */
    ghost predicate IsTight()
      reads this
    {
      SLOTS * (|pools| - 1) < |nodes|
    }

    ghost predicate ValidExcept(excused: Prefix)
      reads this, repr
    {
      TreeOk(excused) && PoolOk() && Conserved(0) && PagesOk()
    }

    ghost predicate Valid()
      reads this, repr
    {
      ValidExcept(Root)
    }

    ghost function Contents(): Table
      reads this, repr
      requires forall p :: p in nodes ==> nodes[p] in repr
    {
      map p | p in nodes && nodes[p].value != BTRIE_NULL :: nodes[p].value
    }

    // ---- Creation and allocation -------------------------------------------------------

    /** A tree before its root is allocated. */
    constructor ()
      ensures PoolOk() && Conserved(0) && PagesOk() && nodes == map[] && pools == [] && repr == {}
    {
      root, free, start, size, pools := null, null, [], 0, [];
      nodes, freeList, repr := map[], [], {};
    }

    static method Create() returns (tree: Tree)
      ensures tree.Valid() && fresh(tree) && fresh(tree.repr)
      ensures tree.nodes.Keys == {Root} && tree.Contents() == map[] && |tree.pools| == 1
    {
      hide Tree.PoolOk, Tree.PagesOk;
      tree := new Tree();
      var node := tree.Alloc();
      label Allocated:
      node.right, node.left, node.parent, node.value := null, null, null, BTRIE_NULL;
      tree.root := node;
      tree.nodes := map[Root := node];
      tree.PoolStays@Allocated(node);
      assert tree.NodeOk(Root, Root);
    }

    static method NewPage() returns (slots: seq<Node>)
      ensures |slots| == SLOTS && Distinct(slots)
      ensures forall x :: x in slots ==> fresh(x)
    {
      slots := [];
      while |slots| < SLOTS
        invariant |slots| <= SLOTS && Distinct(slots)
        invariant forall x :: x in slots ==> fresh(x) && allocated(x)
      {
        var node := new Node();
        slots := slots + [node];
      }
    }

    method PopFree() returns (p: Node)
      requires PoolOk() && Conserved(0) && free != null
      modifies this`free, this`freeList
      ensures PoolOk() && Conserved(1) && p == old(free) && [p] + freeList == old(freeList)
    {
      p := free;
      assert freeList[0].right == Next(freeList, 0);
      free := free.right;
      ghost var rest := freeList[1..];
      forall i | 0 <= i < |rest|
        ensures rest[i].right == Next(rest, i)
      {
        assert rest[i] == freeList[i + 1];
      }
      freeList := rest;
    }

    method AddPage()
      requires PoolOk() && Conserved(0) && PagesOk() && freeList == [] && start == [] && |pools| < BTRIE_MAX_PAGES
      requires forall q :: q in nodes ==> nodes[q] in repr
      modifies this`start, this`size, this`pools, this`repr
      ensures PoolOk() && Conserved(0) && PagesOk() && |start| == SLOTS && |pools| == old(|pools|) + 1
      ensures old(repr) <= repr && fresh(repr - old(repr))
    {
      hide PagesOk;
      var slots := NewPage();
      start := slots;
      pools := pools + [slots];
      size := PAGE_SIZE;
      repr := repr + set x | x in slots;
      PagesAdded(slots);
    }

    twostate lemma PagesAdded(new slots: seq<Node>)
      requires old(PagesOk()) && pools == old(pools) + [slots] && repr == old(repr) + set x | x in slots
      requires |slots| == SLOTS && Distinct(slots) && forall x :: x in slots ==> x !in old(repr)
      ensures PagesOk()
    {
      NewPageSlots(old(pools), slots, old(repr));
    }

    /** A slot that is nowhere else: from the free list, or carved from the current page, or
        from a new one. */
    method Alloc() returns (p: Node)
      requires PoolOk() && Conserved(0) && PagesOk()
      requires freeList == [] && start == [] ==> |pools| < BTRIE_MAX_PAGES
      requires forall q :: q in nodes ==> nodes[q] in repr
      modifies this`free, this`start, this`size, this`pools, this`freeList, this`repr
      ensures PoolOk() && Conserved(1) && PagesOk()
      ensures p in repr && p !in freeList && p !in start
      ensures forall q :: q in nodes ==> nodes[q] != p
      ensures old(repr) <= repr && fresh(repr - old(repr))
      ensures |pools| == old(|pools|) + (if old(|freeList| + |start|) == 0 then 1 else 0)
      ensures |freeList| + |start| + 1 == old(|freeList| + |start|) + SLOTS * (|pools| - old(|pools|))
    {
      hide PagesOk;
      if free != null {
        p := PopFree();
      } else {
        if size < NODE_SIZE {
          AddPage();
        }
        p := start[0];
        start := start[1..];
        size := size - NODE_SIZE;
      }
    }

    // ---- Lookup ------------------------------------------------------------------------

    /** Prefixes in the tree have all their own prefixes in the tree. */
    lemma {:induction false} PrefixClosed(excused: Prefix, key: nat, k: nat, n: nat)
      requires TreeOk(excused) && k <= n && Take(key, k) !in nodes
      ensures Take(key, n) !in nodes
    {
      if k == n {
      } else {
        PrefixClosed(excused, key, k, n - 1);
        assert Take(key, n) in nodes ==> NodeOk(Take(key, n), excused);
      }
    }

    lemma {:induction false} LookupStops(key: nat, k: nat, n: nat)
      requires Valid() && k <= n && Take(key, k) !in nodes
      ensures Lookup(Contents(), key, n) == if k == 0 then BTRIE_NULL else Lookup(Contents(), key, k - 1)
    {
      PrefixClosed(Root, key, k, n);
      if k == n {
      } else {
        LookupStops(key, k, n - 1);
      }
    }

    method Find(key: nat) returns (value: int)
      requires Valid()
      ensures value == Lookup(Contents(), key, 32)
    {
      hide Bitwise, Pow2, PoolOk, PagesOk;
      var bit := 0x8000_0000;
      value := BTRIE_NULL;
      var node := root;
      ghost var depth: nat := 0;
      BitAtShift(0);
      while node != null
        invariant depth <= 33 && bit == BitAt(depth) && node == At(Take(key, depth))
        invariant value == if depth == 0 then BTRIE_NULL else Lookup(Contents(), key, depth - 1)
        decreases 33 - depth
      {
        assert NodeOk(Take(key, depth), Root);
        if node.value != BTRIE_NULL {
          value := node.value;
        }
        if HasBit(key, bit) {
          node := node.right;
        } else {
          node := node.left;
        }
        BitAtShift(depth);
        bit := bit / 2;
        depth := depth + 1;
      }
      if depth == 33 {
        assert Take(key, 33) !in nodes;
      } else {
        LookupStops(key, depth, 32);
      }
    }

    // ---- Insertion ---------------------------------------------------------------------

    /** Link a slot that is nowhere else as a new child of the node at `at`. */
    method Attach(node: Node, next: Node, right: bool, ghost at: Prefix)
      requires TreeOk(at) && PoolOk() && Conserved(1) && PagesOk() && at in nodes && nodes[at] == node
      requires at.Length() < 32 && Bit(at, right) !in nodes
      requires next in repr && next !in freeList && next !in start && forall q :: q in nodes ==> nodes[q] != next
      modifies this`nodes, node, next
      ensures ValidExcept(Bit(at, right)) && IsLeaf(Bit(at, right))
      ensures nodes == old(nodes)[Bit(at, right) := next] && next.value == BTRIE_NULL
      ensures Contents() == old(Contents())
    {
      hide PoolOk, PagesOk, NodeOk, Contents, TreeOk, Conserved;
      Apart(at);
      OnlyAt(at, at);
      ghost var child := Bit(at, right);
      NoOrphans(at, child);
      next.right := null;
      next.left := null;
      next.parent := node;
      next.value := BTRIE_NULL;
      if right {
        node.right := next;
      } else {
        node.left := next;
      }
      nodes := nodes[child := next];
      TreeGrows(next, right, at);
      PoolStays(next);
      ContentsGrow(child);
      CountGrows(child);
    }

    twostate lemma CountGrows(new child: Prefix)
      requires old(Conserved(1)) && child !in old(nodes) && child in nodes && nodes == old(nodes)[child := nodes[child]]
      requires freeList == old(freeList) && start == old(start) && pools == old(pools)
      ensures Conserved(0)
    {
    }

    /** A node without a value adds nothing to the contents. */
    twostate lemma ContentsGrow(new child: Prefix)
      requires (forall p :: p in old(nodes) ==> old(nodes[p]) in old(repr)) && repr == old(repr)
      requires child !in old(nodes) && child in nodes && nodes == old(nodes)[child := nodes[child]]
      requires nodes[child] in repr && nodes[child].value == BTRIE_NULL
      requires forall p :: p in old(nodes) ==> nodes[p].value == old(nodes[p].value)
      ensures Contents() == old(Contents())
    {
    }

    /** One round of the second loop of insertion: a new child of the node at `at`. */
    method Extend(node: Node, right: bool, ghost at: Prefix) returns (next: Node)
      requires ValidExcept(at) && at in nodes && nodes[at] == node
      requires at.Length() < 32 && Bit(at, right) !in nodes
      requires freeList == [] && start == [] ==> |pools| < BTRIE_MAX_PAGES
      modifies this, repr
      ensures ValidExcept(Bit(at, right)) && root == old(root)
      ensures old(repr) <= repr && fresh(repr - old(repr))
      ensures nodes == old(nodes)[Bit(at, right) := next] && IsLeaf(Bit(at, right))
      ensures Contents() == old(Contents())
      ensures |pools| == old(|pools|) + (if old(|freeList| + |start|) == 0 then 1 else 0)
      ensures |freeList| + |start| + 1 == old(|freeList| + |start|) + SLOTS * (|pools| - old(|pools|))
      ensures |pools| == old(|pools|) || IsTight()
    {
      hide PoolOk, PagesOk, NodeOk, Contents;
      next := Alloc();
      TreeStays(at);
      ContentsStay();
      Attach(node, next, right, at);
    }

    twostate lemma ContentsStay()
      requires (forall p :: p in old(nodes) ==> old(nodes[p]) in old(repr)) && nodes == old(nodes) && old(repr) <= repr
      requires forall x :: x in old(repr) ==> Same(x)
      ensures Contents() == old(Contents())
    {
    }

    /** Allocation leaves the tree as it is. */
    twostate lemma TreeStays(new excused: Prefix)
      requires old(TreeOk(excused)) && nodes == old(nodes) && root == old(root) && old(repr) <= repr
      requires forall x :: x in old(repr) ==> Same(x)
      ensures TreeOk(excused)
    {
      forall p | p in nodes
        ensures NodeOk(p, excused)
      {
        assert old(NodeOk(p, excused));
      }
    }

    /** The tree after a child has been linked in. */
    twostate lemma TreeGrows(new next: Node, new right: bool, new at: Prefix)
      requires old(TreeOk(at)) && at in old(nodes) && repr == old(repr) && root == old(root)
      requires old(IsLeaf(Bit(at, right))) && Bit(at, right) !in old(nodes) && at.Length() < 32
      requires next in repr && forall q :: q in old(nodes) ==> old(nodes[q]) != next
      requires nodes == old(nodes)[Bit(at, right) := next]
      requires next.right == null && next.left == null && next.parent == nodes[at] && next.value == BTRIE_NULL
      requires
        var node := nodes[at];
        && node.right == (if right then next else old(node.right)) && node.left == (if right then old(node.left) else next)
        && node.parent == old(node.parent) && node.value == old(node.value)
      requires forall x :: x in repr && x != nodes[at] && x != next ==> Same(x)
      ensures TreeOk(Bit(at, right))
    {
      var child := Bit(at, right);
      forall p | p in nodes
        ensures NodeOk(p, child)
      {
        assert p != child ==> old(NodeOk(p, at));
        assert p == child || p == at || (Bit(p, false) != child && Bit(p, true) != child);
      }
    }

    /** The allocator when only tree nodes have changed, apart from one that is not its own. */
    twostate lemma PoolStays(new other: Node)
      requires old(PoolOk()) && other !in freeList && other !in start
      requires free == old(free) && freeList == old(freeList) && start == old(start) && size == old(size) && repr == old(repr)
      requires forall x :: x in freeList ==> x.right == old(x.right)
      requires forall p :: p in nodes ==> nodes[p] == other || (p in old(nodes) && nodes[p] == old(nodes[p]))
      ensures PoolOk()
    {
      hide Distinct, Next;
    }

    /** A prefix outside the tree has no children in it. */
    lemma NoOrphans(excused: Prefix, p: Prefix)
      requires TreeOk(excused) && p !in nodes
      ensures IsLeaf(p)
    {
      assert Bit(p, false) in nodes ==> NodeOk(Bit(p, false), excused);
      assert Bit(p, true) in nodes ==> NodeOk(Bit(p, true), excused);
    }

    /** The tree after the value of one node has been set: either to a value, or on an inner node. */
    twostate lemma TreeRevalued(new node: Node, new excused: Prefix, new at: Prefix)
      requires old(TreeOk(excused)) && at in old(nodes) && nodes == old(nodes) && repr == old(repr) && root == old(root)
      requires nodes[at] == node && (excused == Root || excused == at)
      requires node.value != BTRIE_NULL || !IsLeaf(at)
      requires node.left == old(node.left) && node.right == old(node.right) && node.parent == old(node.parent)
      requires forall x :: x in repr && x != node ==> Same(x)
      ensures TreeOk(Root)
    {
      forall p | p in nodes
        ensures NodeOk(p, Root)
      {
        assert old(NodeOk(p, excused));
      }
    }

    method SetValue(node: Node, value: int, ghost at: Prefix, ghost excused: Prefix)
      requires ValidExcept(excused) && at in nodes && nodes[at] == node && (excused == Root || excused == at)
      requires value != BTRIE_NULL || !IsLeaf(at)
      modifies node`value
      ensures Valid()
      ensures Contents() == if value == BTRIE_NULL then old(Contents()) - {at} else old(Contents())[at := value]
    {
      hide PoolOk, PagesOk, NodeOk;
      Apart(at);
      node.value := value;
      TreeRevalued(node, excused, at);
      PoolStays(node);
    }

    /** The first loop of insertion: as far down towards the named prefix as the tree goes. */
    method Walk(key: nat, mask: nat) returns (node: Node, next: Node?, bit: nat, ghost depth: nat)
      requires Valid()
      ensures bit == BitAt(depth) && depth <= MaskLength(mask)
      ensures Take(key, depth) in nodes && node == nodes[Take(key, depth)]
      ensures next != null ==> depth == MaskLength(mask)
      ensures next == null ==> depth < MaskLength(mask) && Take(key, depth + 1) !in nodes
    {
      hide Bitwise, Pow2, PoolOk, PagesOk, LeadingOnes, NodeOk;
      bit := 0x8000_0000;
      node := root;
      next := root;
      depth := 0;
      BitAtShift(0);
      while HasBit(mask, bit)
        invariant bit == BitAt(depth) && depth <= MaskLength(mask)
        invariant Take(key, depth) in nodes && node == nodes[Take(key, depth)] && next == node
        decreases 32 - depth
      {
        assert KeyBit(mask, depth);
        LinksAt(Root, Take(key, depth));
        if HasBit(key, bit) {
          next := node.right;
        } else {
          next := node.left;
        }
        if next == null {
          return;
        }
        BitAtShift(depth);
        bit := bit / 2;
        node := next;
        depth := depth + 1;
      }
      assert !KeyBit(mask, depth);
    }

    method Insert(key: nat, mask: nat, value: int) returns (result: int)
      requires Valid() && value != BTRIE_NULL
      requires |nodes.Keys + Chain(Named(key, mask))| <= SLOTS * BTRIE_MAX_PAGES
      modifies this, repr
      ensures Valid() && old(repr) <= repr && fresh(repr - old(repr))
      ensures |pools| == old(|pools|) || (|pools| > old(|pools|) && IsTight())
      ensures result == if Named(key, mask) in old(Contents()) then -1 else 0
      ensures Contents() == if result == 0 then old(Contents())[Named(key, mask) := value] else old(Contents())
      ensures forall p :: p in old(nodes) ==> p in nodes && nodes[p] == old(nodes[p])
    {
      hide PoolOk, PagesOk, MaskLength, NodeOk, Contents, Conserved;
      ghost var at := Named(key, mask);
      Stored(at);
      var node, next, bit, depth := Walk(key, mask);
      if next != null {
        if node.value != BTRIE_NULL {
          return -1;
        }
        SetValue(node, value, at, Root);
        return 0;
      }
      PrefixClosed(Root, key, depth + 1, MaskLength(mask));
      node, bit, depth := Grow(node, bit, key, mask, depth);
      SetValue(node, value, at, at);
      result := 0;
    }

    lemma LinksAt(excused: Prefix, p: Prefix)
      requires TreeOk(excused) && p in nodes
      ensures nodes[p].left == At(Bit(p, false)) && nodes[p].right == At(Bit(p, true)) && p.Length() <= 32
      ensures if p.Bit? then p.parent in nodes && nodes[p].parent == nodes[p.parent] else nodes[p].parent == null
    {
      assert NodeOk(p, excused);
    }

    lemma OnlyAt(excused: Prefix, p: Prefix)
      requires TreeOk(excused) && p in nodes
      ensures forall q :: q in nodes ==> nodes[q] in repr
      ensures forall q :: q in nodes && q != p ==> nodes[q] != nodes[p]
    {
    }

    lemma Stored(p: Prefix)
      requires forall q :: q in nodes ==> nodes[q] in repr
      ensures p in Contents() <==> p in nodes && nodes[p].value != BTRIE_NULL
    {
    }

    lemma Apart(p: Prefix)
      requires PoolOk() && p in nodes
      ensures nodes[p] !in freeList && nodes[p] !in start
    {
    }

    lemma WeakerExcuse(at: Prefix)
      requires Valid()
      ensures ValidExcept(at)
    {
      forall p | p in nodes
        ensures NodeOk(p, at)
      {
        assert NodeOk(p, Root);
      }
    }

    /** With every slot in the tree, and room for one prefix more, there is a page to be had. */
    lemma HasSlot(room: set<Prefix>, p: Prefix)
      requires Conserved(0) && nodes.Keys <= room && p in room && p !in nodes && |room| <= SLOTS * BTRIE_MAX_PAGES
      ensures freeList == [] && start == [] ==> |pools| < BTRIE_MAX_PAGES
    {
      SubsetSize(nodes.Keys + {p}, room);
    }

    lemma InPath(key: nat, k: nat, n: nat)
      requires 0 < k <= n
      ensures Take(key, k) in Chain(Take(key, n))
    {
      CoversTake(key, k, n);
      InChain(Take(key, k), Take(key, n));
    }

    static lemma {:induction false} CoversTake(key: nat, k: nat, n: nat)
      requires k <= n
      ensures Take(key, k).Covers(Take(key, n))
    {
      if k == n {
      } else {
        CoversTake(key, k, n - 1);
      }
    }

    /** The second loop of insertion: nodes for the remaining bits of the mask. */
    method Grow(from: Node, fromBit: nat, key: nat, mask: nat, ghost fromDepth: nat)
      returns (node: Node, bit: nat, ghost depth: nat)
      requires Valid() && |nodes.Keys + Chain(Take(key, MaskLength(mask)))| <= SLOTS * BTRIE_MAX_PAGES
      requires fromBit == BitAt(fromDepth) && fromDepth < MaskLength(mask)
      requires Take(key, fromDepth) in nodes && from == nodes[Take(key, fromDepth)]
      requires Take(key, fromDepth + 1) !in nodes
      modifies this, repr
      ensures depth == MaskLength(mask) && ValidExcept(Take(key, depth)) && root == old(root)
      ensures old(repr) <= repr && fresh(repr - old(repr))
      ensures |pools| == old(|pools|) || (|pools| > old(|pools|) && IsTight())
      ensures Take(key, depth) in nodes && node == nodes[Take(key, depth)]
      ensures Contents() == old(Contents()) && Take(key, depth) !in old(nodes)
      ensures forall p :: p in old(nodes) ==> p in nodes && nodes[p] == old(nodes[p])
    {
      hide Bitwise, Pow2, PoolOk, PagesOk, LeadingOnes, NodeOk, Contents, TreeOk, Conserved;
      OnlyAt(Root, Take(key, fromDepth));
      node, bit, depth := from, fromBit, fromDepth;
      WeakerExcuse(Take(key, depth));
      while HasBit(mask, bit)
        invariant bit == BitAt(depth) && fromDepth <= depth <= MaskLength(mask)
        invariant ValidExcept(Take(key, depth)) && root == old(root) && forall p :: p in nodes ==> nodes[p] in repr
        invariant old(repr) <= repr && fresh(repr - old(repr))
        invariant nodes.Keys <= old(nodes.Keys) + Chain(Take(key, MaskLength(mask)))
        invariant |pools| == old(|pools|) || (|pools| > old(|pools|) && IsTight())
        invariant Take(key, depth) in nodes && node == nodes[Take(key, depth)]
        invariant Take(key, depth + 1) !in nodes
        invariant Contents() == old(Contents())
        invariant depth > fromDepth ==> Take(key, depth) !in old(nodes)
        invariant forall p :: p in old(nodes) ==> p in nodes && nodes[p] == old(nodes[p])
        decreases 32 - depth
      {
        InPath(key, depth + 1, MaskLength(mask));
        HasSlot(old(nodes.Keys) + Chain(Take(key, MaskLength(mask))), Take(key, depth + 1));
        var next := Extend(node, HasBit(key, bit), Take(key, depth));
        OnlyAt(Take(key, depth + 1), Take(key, depth));
        BitAtShift(depth);
        bit := bit / 2;
        node := next;
        depth := depth + 1;
      }
      assert !KeyBit(mask, depth);
    }

    // ---- Deletion ----------------------------------------------------------------------

    /** The tree after a leaf has been unlinked from its parent. */
    twostate lemma TreeShrinks(new node: Node, new at: Prefix)
      requires old(TreeOk(at)) && at in old(nodes) && old(nodes[at]) == node && repr == old(repr) && root == old(root)
      requires at.Bit? && old(IsLeaf(at)) && nodes == old(nodes) - {at}
      requires
        var up := old(node.parent);
        && up != null && up != node
        && up.right == (if at.bit then null else old(up.right)) && up.left == (if at.bit then old(up.left) else null)
        && up.parent == old(up.parent) && up.value == old(up.value)
        && forall x :: x in repr && x != node && x != up ==> Same(x)
      ensures TreeOk(at.parent)
    {
      assert old(NodeOk(at, at));
      forall p | p in nodes
        ensures NodeOk(p, at.parent)
      {
        assert old(NodeOk(p, at));
        assert p == at.parent || (Bit(p, false) != at && Bit(p, true) != at);
      }
    }

    /** The allocator after a slot has been pushed on the free list. */
    twostate lemma PoolPushed(new node: Node)
      requires old(PoolOk()) && node !in old(freeList) && node !in start && node in repr
      requires free == node && freeList == [node] + old(freeList) && node.right == old(free)
      requires start == old(start) && size == old(size) && repr == old(repr)
      requires forall x :: x in old(freeList) ==> x.right == old(x.right)
      requires forall p :: p in nodes ==> p in old(nodes) && nodes[p] == old(nodes[p]) && nodes[p] != node
      ensures PoolOk()
    {
      forall i | 0 <= i < |freeList|
        ensures freeList[i].right == Next(freeList, i)
      {
        assert i > 0 ==> freeList[i] == old(freeList)[i - 1];
      }
    }

    /** One round of the deletion loop: unlink the leaf at `at` and push it on the free list. */
    method Detach(node: Node, ghost at: Prefix) returns (up: Node)
      requires ValidExcept(at) && at in nodes && nodes[at] == node && at.Bit? && IsLeaf(at)
      modifies this`free, this`freeList, this`nodes, repr
      ensures ValidExcept(at.parent) && at.parent in nodes && nodes[at.parent] == up
      ensures nodes == old(nodes) - {at} && freeList == [node] + old(freeList)
      ensures Contents() == old(Contents()) - {at}
    {
      hide PoolOk, PagesOk, NodeOk, Contents, TreeOk, Conserved;
      LinksAt(at, at);
      LinksAt(at, at.parent);
      Apart(at);
      Apart(at.parent);
      OnlyAt(at, at);
      OnlyAt(at, at.parent);
      up := node.parent;
      if up.right == node {
        up.right := null;
      } else {
        up.left := null;
      }
      node.right := free;
      free := node;
      freeList := [node] + freeList;
      nodes := nodes - {at};
      TreeShrinks(node, at);
      PoolPushed(node);
      ContentsShrink(at);
      CountShrinks(at);
    }

    twostate lemma CountShrinks(new at: Prefix)
      requires old(Conserved(0)) && at in old(nodes) && nodes == old(nodes) - {at}
      requires |freeList| == old(|freeList|) + 1 && |start| == old(|start|) && |pools| == old(|pools|)
      ensures Conserved(0)
    {
    }

    twostate lemma ContentsShrink(new at: Prefix)
      requires (forall p :: p in old(nodes) ==> old(nodes[p]) in old(repr)) && repr == old(repr) && nodes == old(nodes) - {at}
      requires forall p :: p in nodes ==> nodes[p].value == old(nodes[p].value)
      ensures Contents() == old(Contents()) - {at}
    {
    }

    lemma NoExcuse(at: Prefix)
      requires ValidExcept(at) && at in nodes && (at.Root? || !IsLeaf(at) || nodes[at].value != BTRIE_NULL)
      ensures Valid()
    {
      forall p | p in nodes
        ensures NodeOk(p, Root)
      {
        assert NodeOk(p, at);
      }
    }

    /** The deletion loop: unlink a leaf, and then each ancestor that is left a valueless leaf. */
    method Prune(leaf: Node, ghost at: Prefix)
      requires Valid() && at in nodes && nodes[at] == leaf && at.Bit? && IsLeaf(at)
      modifies this`free, this`freeList, this`nodes, repr
      ensures Valid() && Contents() == old(Contents()) - {at}
      ensures forall p :: p in nodes ==> p in old(nodes) && nodes[p] == old(nodes[p])
    {
      hide PoolOk, PagesOk, NodeOk, Contents, TreeOk, Conserved;
      OnlyAt(Root, at);
      WeakerExcuse(at);
      ghost var p := at;
      var node := Detach(leaf, at);
      p := p.parent;
      LinksAt(p, p);
      OnlyAt(p, p);
      while node.right == null && node.left == null && node.value == BTRIE_NULL && node.parent != null
        invariant ValidExcept(p) && p in nodes && nodes[p] == node && forall q :: q in nodes ==> nodes[q] in repr
        invariant Contents() == old(Contents()) - {at}
        invariant forall q :: q in nodes ==> q in old(nodes) && nodes[q] == old(nodes[q])
        decreases p.Length()
      {
        LinksAt(p, p);
        Stored(p);
        node := Detach(node, p);
        p := p.parent;
        OnlyAt(p, p);
      }
      LinksAt(p, p);
      NoExcuse(p);
    }

    /** The descent of deletion: to the node of the named prefix, or to where the tree ends. */
    method Descend(key: nat, mask: nat) returns (node: Node?)
      requires Valid()
      ensures node == At(Named(key, mask))
    {
      hide Bitwise, Pow2, PoolOk, PagesOk, LeadingOnes, NodeOk;
      var bit := 0x8000_0000;
      node := root;
      ghost var depth: nat := 0;
      BitAtShift(0);
      while node != null && HasBit(mask, bit)
        invariant bit == BitAt(depth) && depth <= MaskLength(mask) && node == At(Take(key, depth))
        decreases 32 - depth
      {
        LinksAt(Root, Take(key, depth));
        if HasBit(key, bit) {
          node := node.right;
        } else {
          node := node.left;
        }
        BitAtShift(depth);
        bit := bit / 2;
        depth := depth + 1;
      }
      if node == null {
        PrefixClosed(Root, key, depth, MaskLength(mask));
      } else {
        assert !KeyBit(mask, depth);
      }
    }

    /** Deleting from a tree that is only a root dereferences the missing parent of the root. */
    method Delete(key: nat, mask: nat) returns (result: int)
      requires Valid() && (MaskLength(mask) == 0 ==> !IsLeaf(Root))
      modifies this`free, this`freeList, this`nodes, repr
      ensures Valid()
      ensures result == if Named(key, mask) in old(Contents()) then 0 else -1
      ensures Contents() == old(Contents()) - {Named(key, mask)}
      ensures forall p :: p in nodes ==> p in old(nodes) && nodes[p] == old(nodes[p])
    {
      hide PoolOk, PagesOk, NodeOk, MaskLength, Contents;
      ghost var at := Named(key, mask);
      var node := Descend(key, mask);
      Stored(at);
      if node == null {
        return -1;
      }
      LinksAt(Root, at);
      if node.right != null || node.left != null {
        if node.value != BTRIE_NULL {
          SetValue(node, BTRIE_NULL, at, Root);
          return 0;
        }
        return -1;
      }
      LeafHasValue(at);
      Prune(node, at);
      result := 0;
    }

    lemma LeafHasValue(p: Prefix)
      requires Valid() && p in nodes && p.Bit? && IsLeaf(p)
      ensures nodes[p].value != BTRIE_NULL
    {
      assert NodeOk(p, Root);
    }

    // ---- Shape and size ----------------------------------------------------------------

    lemma {:induction false} CoveredInTree(p: Prefix, q: Prefix)
      requires Valid() && q in nodes && p.Covers(q)
      ensures p in nodes
    {
      if p == q {
      } else {
        LinksAt(Root, q);
        CoveredInTree(p, q.parent);
      }
    }

    /** Below every node other than a bare root there is a stored prefix. */
    lemma {:induction false} StoredBelow(p: Prefix) returns (q: Prefix)
      requires Valid() && p in nodes && p.Bit?
      ensures q in Contents() && p.Covers(q)
      decreases 33 - p.Length()
    {
      LinksAt(Root, p);
      if nodes[p].value != BTRIE_NULL {
        q := p;
      } else if IsLeaf(p) {
        LeafHasValue(p);
        assert false;
      } else {
        var child := if Bit(p, false) in nodes then Bit(p, false) else Bit(p, true);
        LinksAt(Root, child);
        q := StoredBelow(child);
        CoversParent(child, q);
      }
    }

    static lemma {:induction false} CoversParent(p: Prefix, q: Prefix)
      requires p.Bit? && p.Covers(q)
      ensures p.parent.Covers(q)
    {
      if p == q {
      } else {
        CoversParent(p, q.parent);
      }
    }

    /** The tree holds the root and exactly the prefixes of what is stored: its shape is a
        function of its contents. */
    lemma Shape(p: Prefix)
      requires Valid()
      ensures p in nodes <==> InClosure(p, Contents())
    {
      if p in nodes && p.Bit? {
        var q := StoredBelow(p);
      }
      if q :| q in Contents() && p.Covers(q) {
        CoveredInTree(p, q);
      }
    }

    /** The root has a child exactly when a prefix other than the empty one is stored. */
    lemma RootIsBare()
      requires Valid()
      ensures IsLeaf(Root) <==> forall q :: q in Contents() ==> q.Root?
    {
      if q :| q in Contents() && q.Bit? {
        HasFirstBit(q);
      }
      if !IsLeaf(Root) {
        var q := StoredBelow(if Bit(Root, false) in nodes then Bit(Root, false) else Bit(Root, true));
        assert q.Bit?;
      }
    }

    lemma {:induction false} HasFirstBit(q: Prefix)
      requires Valid() && q in nodes && q.Bit?
      ensures !IsLeaf(Root)
    {
      LinksAt(Root, q);
      if q.parent.Root? {
      } else {
        HasFirstBit(q.parent);
      }
    }

    lemma NodesAre()
      requires Valid()
      ensures nodes.Keys == Closure(Contents())
    {
      hide PoolOk, PagesOk, NodeOk, Contents, Conserved;
      forall p
        ensures p in nodes <==> p in Closure(Contents())
      {
        Shape(p);
        ClosureIs(p, Contents());
      }
    }

    /** The nodes of what is stored fit in the pages. */
    lemma NodesFit() returns (count: nat)
      requires Valid()
      ensures count == |Closure(Contents())| && 0 < count <= SLOTS * |pools|
    {
      NodesAre();
      count := |nodes|;
      assert Root in nodes.Keys;
    }

    /** The nodes that the insertion of a prefix needs. */
    lemma RoomFor(p: Prefix, value: int)
      requires Valid()
      ensures
        var table := Contents();
        |nodes.Keys + Chain(p)| == |Closure(if p in table then table else table[p := value])|
    {
      NodesAre();
      hide PoolOk, PagesOk, NodeOk, Contents, Conserved;
      ClosureGrows(Contents(), p, value);
    }

    /** A prefix of at most 32 bits needs at most 32 nodes besides the root. */
    lemma NodesBound()
      requires Valid()
      ensures |nodes| <= 1 + 32 * |Contents()|
    {
      hide PoolOk, PagesOk, NodeOk, Contents;
      ghost var table := Contents();
      forall p | p in nodes.Keys - {Root}
        ensures exists q :: q in table.Keys && p in Chain(q)
      {
        var q := StoredBelow(p);
        InChain(p, q);
      }
      forall q | q in table.Keys
        ensures q.Length() <= 32
      {
        Stored(q);
        LinksAt(Root, q);
      }
      ChainsBound(nodes.Keys - {Root}, table.Keys);
    }

    ghost function Below(p: Prefix): set<Prefix>
      reads this
    {
      set q | q in nodes && p.Covers(q)
    }

    lemma BelowSplits(p: Prefix)
      requires Valid() && p in nodes
      ensures Below(p) == {p} + Below(Bit(p, false)) + Below(Bit(p, true))
      ensures p !in Below(Bit(p, false)) && p !in Below(Bit(p, true)) && Below(Bit(p, false)) !! Below(Bit(p, true))
    {
      forall q
        ensures p.Covers(q) <==> q == p || Bit(p, false).Covers(q) || Bit(p, true).Covers(q)
        ensures !(Bit(p, false).Covers(q) && Bit(p, true).Covers(q))
        ensures Bit(p, false).Covers(q) || Bit(p, true).Covers(q) ==> q != p
      {
        CoversSplits(p, q);
      }
    }

    static lemma {:induction false} CoversSplits(p: Prefix, q: Prefix)
      ensures p.Covers(q) <==> q == p || Bit(p, false).Covers(q) || Bit(p, true).Covers(q)
      ensures !(Bit(p, false).Covers(q) && Bit(p, true).Covers(q))
      ensures Bit(p, false).Covers(q) || Bit(p, true).Covers(q) ==> q != p
    {
      CoversLonger(Bit(p, false), q);
      CoversLonger(Bit(p, true), q);
      if q.Root? {
      } else {
        CoversSplits(p, q.parent);
      }
    }

    lemma NothingBelow(p: Prefix)
      requires Valid() && p !in nodes
      ensures Below(p) == {}
    {
      forall q | q in nodes
        ensures !p.Covers(q)
      {
        if p.Covers(q) {
          CoveredInTree(p, q);
          assert false;
        }
      }
    }

    method SubtreeWeight(node: Node, ghost p: Prefix) returns (weight: nat)
      requires Valid() && p in nodes && nodes[p] == node
      ensures weight == |Below(p)|
      decreases 33 - p.Length()
    {
      hide PoolOk, PagesOk, NodeOk;
      LinksAt(Root, p);
      BelowSplits(p);
      weight := 1;
      if node.left != null {
        LinksAt(Root, Bit(p, false));
        var w := SubtreeWeight(node.left, Bit(p, false));
        weight := weight + w;
      } else {
        NothingBelow(Bit(p, false));
      }
      if node.right != null {
        LinksAt(Root, Bit(p, true));
        var w := SubtreeWeight(node.right, Bit(p, true));
        weight := weight + w;
      } else {
        NothingBelow(Bit(p, true));
      }
    }

    static lemma {:induction false} RootCovers(p: Prefix)
      ensures Root.Covers(p)
    {
      if p.Root? {
      } else {
        RootCovers(p.parent);
      }
    }

    /** Together the tree, the free list and the uncarved slots are exactly the slots of the
        pages, and no slot is in two of them. */
    lemma SlotsOfPages()
      requires Valid()
      ensures
        var inTree, inFree, uncarved := set p | p in nodes :: nodes[p], set x | x in freeList, set x | x in start;
        && inTree + inFree + uncarved == PageSlots(pools)
        && inTree !! inFree && inTree !! uncarved && inFree !! uncarved
    {
      hide NodeOk;
      var inTree, inFree, uncarved := set p | p in nodes :: nodes[p], set x | x in freeList, set x | x in start;
      DistinctSize(freeList);
      DistinctSize(start);
      NodesSize(nodes);
      assert inTree + inFree + uncarved <= repr;
      assert |inTree + inFree + uncarved| == |inTree| + |inFree| + |uncarved|;
      SameSize(inTree + inFree + uncarved, repr);
    }

    static lemma {:induction false} NodesSize(nodes: map<Prefix, Node>)
      requires forall p, q {:trigger nodes[p], nodes[q]} :: p in nodes && q in nodes && p != q ==> nodes[p] != nodes[q]
      ensures |set p | p in nodes :: nodes[p]| == |nodes|
    {
      if nodes == map[] {
      } else {
        var p :| p in nodes;
        var rest := nodes - {p};
        NodesSize(rest);
        var all, others := set q | q in nodes :: nodes[q], set q | q in rest :: rest[q];
        assert forall q :: q in nodes <==> q in rest || q == p;
        assert forall x :: x in others ==> x in all;
        forall x | x in all
          ensures x in others + {nodes[p]}
        {
          var q :| q in nodes && nodes[q] == x;
          if q != p { assert q in rest && rest[q] == x; }
        }
        assert nodes[p] in all && all == others + {nodes[p]};
      }
    }

    /** The nodes of the tree; with the free list and the uncarved slots they are all the slots. */
    method Count() returns (count: nat)
      requires Valid()
      ensures count == |nodes| && count + |freeList| + size / NODE_SIZE == SLOTS * |pools|
    {
      hide NodeOk;
      count := SubtreeWeight(root, Root);
      forall p | p in nodes
        ensures p in Below(Root)
      {
        RootCovers(p);
      }
      assert Below(Root) == nodes.Keys;
    }
  }

  /** A prefix and its own prefixes, without the root. */
  ghost function Chain(q: Prefix): set<Prefix> {
    if q.Root? then {} else {q} + Chain(q.parent)
  }

  lemma {:induction false} ChainBound(q: Prefix)
    ensures |Chain(q)| <= q.Length()
  {
    if q.Root? {
    } else {
      ChainBound(q.parent);
    }
  }

  lemma {:induction false} InChain(p: Prefix, q: Prefix)
    requires p.Bit? && p.Covers(q)
    ensures p in Chain(q)
  {
    if p == q {
    } else {
      InChain(p, q.parent);
    }
  }

  lemma {:induction false} ChainsBound(s: set<Prefix>, keys: set<Prefix>)
    requires forall p :: p in s ==> exists q :: q in keys && p in Chain(q)
    requires forall q :: q in keys ==> q.Length() <= 32
    ensures |s| <= 32 * |keys|
    decreases keys
  {
    if keys == {} {
      assert s == {};
    } else {
      var q :| q in keys;
      forall p | p in s - Chain(q)
        ensures exists k :: k in keys - {q} && p in Chain(k)
      {
        var k :| k in keys && p in Chain(k);
        assert k in keys - {q};
      }
      ChainsBound(s - Chain(q), keys - {q});
      ChainBound(q);
      assert s == (s - Chain(q)) + (s * Chain(q));
      SubsetSize(s * Chain(q), Chain(q));
    }
  }

  /** The nodes of a tree that stores a table: the root, and what is stored with its prefixes. */
  ghost function Closure(table: Table): set<Prefix> {
    {Root} + set q, p | q in table && p in Chain(q) :: p
  }

  lemma ClosureIs(p: Prefix, table: Table)
    ensures p in Closure(table) <==> InClosure(p, table)
  {
    if p.Bit? {
      if q :| q in table && p.Covers(q) { InChain(p, q); }
      if q :| q in table && p in Chain(q) { ChainCovers(p, q); }
    }
  }

  lemma {:induction false} ChainCovers(p: Prefix, q: Prefix)
    requires p in Chain(q)
    ensures p.Bit? && p.Covers(q)
  {
    if p == q {
    } else {
      ChainCovers(p, q.parent);
    }
  }

  lemma ClosureGrows(table: Table, p: Prefix, value: int)
    ensures Closure(table) + Chain(p) == Closure(if p in table then table else table[p := value])
  {
    var after := if p in table then table else table[p := value];
    assert p in after && forall q :: q in after <==> q in table || q == p;
    forall r | r in Closure(after)
      ensures r in Closure(table) + Chain(p)
    {
    }
    forall r | r in Closure(table) + Chain(p)
      ensures r in Closure(after)
    {
    }
  }

  /** A prefix of something stored, or the root. */
  ghost predicate InClosure(p: Prefix, table: Table) {
    p.Root? || exists q :: q in table && p.Covers(q)
  }

  /** Inserting an absent prefix and deleting it restores the very same tree: the same nodes at
      the same prefixes, with the same values. */
  method InsertThenDelete(tree: Tree, key: nat, mask: nat, value: int)
    requires tree.Valid() && value != BTRIE_NULL && |tree.nodes.Keys + Chain(Named(key, mask))| <= SLOTS * BTRIE_MAX_PAGES
    requires Named(key, mask) !in tree.Contents() && (Named(key, mask) == Root ==> !tree.IsLeaf(Root))
    modifies tree, tree.repr
    ensures tree.Valid() && tree.nodes == old(tree.nodes) && tree.Contents() == old(tree.Contents())
  {
    hide Tree.PoolOk, Tree.PagesOk, Tree.NodeOk, Tree.Contents, InClosure, Tree.Conserved;
    ghost var table := tree.Contents();
    ghost var nodes := tree.nodes;
    forall p ensures p in nodes <==> InClosure(p, table) { tree.Shape(p); }
    var inserted := tree.Insert(key, mask, value);
    var deleted := tree.Delete(key, mask);
    assert tree.Contents() == table;
    forall p ensures p in tree.nodes <==> InClosure(p, table) { tree.Shape(p); }
  }

  // ---- Whole runs ----------------------------------------------------------------------

  datatype Op = InsertOp(key: nat, mask: nat, value: int) | DeleteOp(key: nat, mask: nat)

  /** What an operation does to a plain map from prefixes to values, and what it returns. */
  function Apply(table: Table, op: Op): (Table, int) {
    var p := Named(op.key, op.mask);
    match op
    case InsertOp(_, _, value) => if p in table then (table, -1) else (table[p := value], 0)
    case DeleteOp(_, _) => if p in table then (table - {p}, 0) else (table, -1)
  }

  function ApplyAll(ops: seq<Op>): (r: (Table, seq<int>))
    ensures |r.1| == |ops|
  {
    if ops == [] then (map[], [])
    else
      var (table, results) := ApplyAll(ops[..|ops| - 1]);
      var (after, result) := Apply(table, ops[|ops| - 1]);
      (after, results + [result])
  }

  lemma NoOps()
    ensures ApplyAll([]) == (map[], [])
  {
  }

  lemma LastOp(ops: seq<Op>, i: nat)
    requires i < |ops|
    ensures
      var (table, results) := ApplyAll(ops[..i]);
      var (after, result) := Apply(table, ops[i]);
      ApplyAll(ops[..i + 1]) == (after, results + [result])
  {
    assert ops[..i + 1][..i] == ops[..i];
  }

  /** What the trie asks of its callers, in terms of what is stored. */
  ghost predicate Permitted(table: Table, op: Op) {
    match op
    case InsertOp(_, _, value) => value != BTRIE_NULL
    case DeleteOp(_, mask) => MaskLength(mask) == 0 ==> exists q :: q in table && q.Bit?
  }

  /** Every run of insertions and deletions agrees with the plain map, in every result and in
      what it leaves stored. It takes exactly the pages that its greatest number of nodes fills,
      however long it is: slots are used again. */
  method Run(ops: seq<Op>, ghost peak: nat) returns (tree: Tree, results: seq<int>)
    requires forall i :: 0 <= i < |ops| ==> Permitted(ApplyAll(ops[..i]).0, ops[i])
    requires forall i :: 0 <= i <= |ops| ==> |Closure(ApplyAll(ops[..i]).0)| <= peak
    requires peak <= 0x1000_0000
    ensures tree.Valid() && (tree.Contents(), results) == ApplyAll(ops)
    ensures 128 * (|tree.pools| - 1) < peak && |tree.pools| <= 0x20_0000
    ensures forall i :: 0 <= i <= |ops| ==> |Closure(ApplyAll(ops[..i]).0)| <= SLOTS * |tree.pools|
  {
    hide Tree.PoolOk, Tree.PagesOk, Tree.NodeOk, Tree.Contents, Tree.Conserved, MaskLength, Closure, Apply, ApplyAll;
    tree := Tree.Create();
    results := [];
    ghost var fits := tree.NodesFit();
    NoOps();
    assert ops[..0] == [];
    for i := 0 to |ops|
      invariant tree.Valid() && fresh(tree) && fresh(tree.repr) && SLOTS * (|tree.pools| - 1) < peak
      invariant (tree.Contents(), results) == ApplyAll(ops[..i])
      invariant forall j :: 0 <= j <= i ==> |Closure(ApplyAll(ops[..j]).0)| <= SLOTS * |tree.pools|
    {
      LastOp(ops, i);
      var result := Perform(tree, ops[i], peak);
      results := results + [result];
      fits := tree.NodesFit();
    }
    assert ops[..|ops|] == ops;
  }

  method Perform(tree: Tree, op: Op, ghost peak: nat) returns (result: int)
    requires tree.Valid() && Permitted(tree.Contents(), op) && peak <= SLOTS * BTRIE_MAX_PAGES
    requires |Closure(Apply(tree.Contents(), op).0)| <= peak
    modifies tree, tree.repr
    ensures tree.Valid() && fresh(tree.repr - old(tree.repr))
    ensures |tree.pools| == old(|tree.pools|) || (|tree.pools| > old(|tree.pools|) && SLOTS * (|tree.pools| - 1) < peak)
    ensures (tree.Contents(), result) == Apply(old(tree.Contents()), op)
  {
    hide Tree.PoolOk, Tree.PagesOk, Tree.NodeOk, Tree.Contents, Tree.Conserved, Tree.TreeOk, Closure;
    match op
    case InsertOp(key, mask, value) =>
      result := PerformInsert(tree, key, mask, value, peak);
    case DeleteOp(key, mask) =>
      result := PerformDelete(tree, key, mask);
  }

  method PerformDelete(tree: Tree, key: nat, mask: nat) returns (result: int)
    requires tree.Valid() && Permitted(tree.Contents(), DeleteOp(key, mask))
    modifies tree, tree.repr
    ensures tree.Valid() && tree.repr == old(tree.repr) && tree.pools == old(tree.pools)
    ensures (tree.Contents(), result) == Apply(old(tree.Contents()), DeleteOp(key, mask))
  {
    hide Tree.PoolOk, Tree.PagesOk, Tree.NodeOk, Tree.Contents, Tree.Conserved;
    ghost var table := tree.Contents();
    tree.RootIsBare();
    result := tree.Delete(key, mask);
    assert Named(key, mask) !in table ==> table - {Named(key, mask)} == table;
  }

  method PerformInsert(tree: Tree, key: nat, mask: nat, value: int, ghost peak: nat) returns (result: int)
    requires tree.Valid() && value != BTRIE_NULL && peak <= SLOTS * BTRIE_MAX_PAGES
    requires |Closure(Apply(tree.Contents(), InsertOp(key, mask, value)).0)| <= peak
    modifies tree, tree.repr
    ensures tree.Valid() && fresh(tree.repr - old(tree.repr))
    ensures |tree.pools| == old(|tree.pools|) || (|tree.pools| > old(|tree.pools|) && SLOTS * (|tree.pools| - 1) < peak)
    ensures (tree.Contents(), result) == Apply(old(tree.Contents()), InsertOp(key, mask, value))
  {
    hide Tree.PoolOk, Tree.PagesOk, Tree.NodeOk, Tree.Contents, Tree.Conserved, Named, Closure;
    tree.RoomFor(Named(key, mask), value);
    result := tree.Insert(key, mask, value);
    tree.NodesAre();
  }
}
