/** The ordered map of misc/map.c: a red-black tree with parent links and one shared
    sentinel, over an explicit memory `heap` whose cells the operations rewrite. */
module Map {
  import opened MapTree

  datatype Op = OpInsert(key: Key, value: Value) | OpAssign(key: Key, value: Value) | OpErase(key: Key)

  /** The same operations on a finite map, whose keys are told apart by the comparison. */
  ghost function Apply(m: map<Key, Value>, op: Op, compare: (Key, Key) -> int): map<Key, Value>
  {
    var k := Slot(m, op.key, compare);
    match op
    case OpInsert(_, v) => if k in m then m else m[k := v]
    case OpAssign(_, v) => m[k := v]
    case OpErase(_) => m - {k}
  }

  ghost function ApplyAll(m: map<Key, Value>, ops: seq<Op>, compare: (Key, Key) -> int): map<Key, Value>
  {
    if ops == [] then m else Apply(ApplyAll(m, ops[..|ops| - 1], compare), ops[|ops| - 1], compare)
  }

  class Map {
    var heap: Memory
    var root: Ptr
    var size: nat
    const compare: (Key, Key) -> int
    ghost var tree: Tree

    /** map_create: an empty tree is the sentinel alone. */
    constructor (compare: (Key, Key) -> int)
      requires TotalOrder(compare)
      ensures Valid() && Contents() == map[] && this.compare == compare
    {
      var k: Key := *;
      var v: Value := *;
      heap := map[NIL := Node(k, v, NULL, NULL, NULL, Black)];
      root := NIL;
      size := 0;
      this.compare := compare;
      tree := Leaf;
    }

    // ----- rotations

    method RotateLeft(x: Ptr, ghost path: Path, ghost t: Tree)
      requires t.Bin? && t.n.ptr == x && t.r.Bin? && Whole(heap, Plug(path, t), root)
      modifies this`heap, this`root
      ensures Whole(heap, Plug(path, RotL(t)), root)
      ensures heap.Keys == old(heap.Keys) && (NIL in heap ==> heap[NIL] == old(heap)[NIL])
    {
      ZipPlug(heap, path, t, root);
      ghost var m, b, root0 := heap, t.r.l, root;
      assert Fits(m, t.r, x) && Fits(m, b, t.r.n.ptr) && Distinct(t.r);
      var y := heap[x].right;
      heap := heap[x := heap[x].(right := heap[y].left)];
      if heap[y].left != NIL {
        var yl := heap[y].left;
        heap := heap[yl := heap[yl].(parent := x)];
      }
      heap := heap[y := heap[y].(parent := heap[x].parent)];
      var p := heap[x].parent;
      if p == NIL {
        root := y;
      } else if x == heap[p].left {
        heap := heap[p := heap[p].(left := y)];
      } else {
        heap := heap[p := heap[p].(right := y)];
      }
      heap := heap[y := heap[y].(left := x)];
      heap := heap[x := heap[x].(parent := y)];
      RotatedLeft(m, heap, path, t.l, t.n, b, t.r.n, t.r.r, t.c, t.r.c, root0, root);
      ZipPlug(heap, path, RotL(t), root);
    }

    method RotateRight(x: Ptr, ghost path: Path, ghost t: Tree)
      requires t.Bin? && t.n.ptr == x && t.l.Bin? && Whole(heap, Plug(path, t), root)
      modifies this`heap, this`root
      ensures Whole(heap, Plug(path, RotR(t)), root)
      ensures heap.Keys == old(heap.Keys) && (NIL in heap ==> heap[NIL] == old(heap)[NIL])
    {
      ZipPlug(heap, path, t, root);
      ghost var m, b, root0 := heap, t.l.r, root;
      assert Fits(m, t.l, x) && Fits(m, b, t.l.n.ptr) && Distinct(t.l);
      var y := heap[x].left;
      heap := heap[x := heap[x].(left := heap[y].right)];
      if heap[y].right != NIL {
        var yr := heap[y].right;
        heap := heap[yr := heap[yr].(parent := x)];
      }
      heap := heap[y := heap[y].(parent := heap[x].parent)];
      var p := heap[x].parent;
      if p == NIL {
        root := y;
      } else if x == heap[p].right {
        heap := heap[p := heap[p].(right := y)];
      } else {
        heap := heap[p := heap[p].(left := y)];
      }
      heap := heap[y := heap[y].(right := x)];
      heap := heap[x := heap[x].(parent := y)];
      RotatedRight(m, heap, path, t.l.l, t.l.n, b, t.n, t.r, t.l.c, t.c, root0, root);
      ZipPlug(heap, path, RotR(t), root);
    }

    method SetColor(x: Ptr, c: Color, ghost path: Path, ghost t: Tree)
      requires t.Bin? && t.n.ptr == x && Whole(heap, Plug(path, t), root)
      modifies this`heap
      ensures Whole(heap, Plug(path, t.(c := c)), root)
      ensures heap.Keys == old(heap.Keys) && (NIL in heap ==> heap[NIL] == old(heap)[NIL])
    {
      ZipPlug(heap, path, t, root);
      ghost var m := heap;
      heap := heap[x := heap[x].(color := c)];
      Recolored(m, heap, path, t, c, root);
      ZipPlug(heap, path, t.(c := c), root);
    }

    // ----- insertion fix-up

    /** z is red; every red-black rule holds except that z's parent may be red too. */
    ghost predicate RedAt(z: Ptr, path: Path, t: Tree, h: nat)
      reads this
    {
      && NIL in heap && heap[NIL].color == Black
      && t.Bin? && t.c == Red && t.n.ptr == z
      && Whole(heap, Plug(path, t), root)
      && RB(t, h) && PathRB(path, h)
    }

    /** The red uncle of a left parent: both turn black and the fault moves two levels up. */
    method RecolorLeft(z0: Ptr, ghost path: Path, ghost t: Tree, ghost h: nat) returns (z: Ptr, ghost t': Tree)
      requires RedAt(z0, path, t, h) && PathCol(path) == Red && path.up.InLeft? && Col(path.up.r) == Red
      modifies this`heap, this`root
      ensures RedAt(z, path.up.up, t', h + 1) && heap.Keys == old(heap.Keys)
      ensures Inorder(Plug(path.up.up, t')) == Inorder(Plug(path, t))
    {
      hide Whole;
      ghost var g, up := path.up, path.up.up;
      ghost var pt := if path.InLeft? then Bin(t, path.n, Red, path.r) else Bin(path.l, path.n, Red, t);
      RedParent(path, h);
      Look(heap, path, t, root);
      Look(heap, g, pt, root);
      var parent := heap[z0].parent;
      var grand := heap[parent].parent;
      var y := heap[grand].right;
      ghost var u := g.r;
      SetColor(parent, Black, g, pt);
      SetColor(y, Black, InRight(pt.(c := Black), g.n, g.c, up), u);
      SetColor(grand, Red, up, Bin(pt.(c := Black), g.n, g.c, u.(c := Black)));
      z := grand;
      t' := Bin(pt.(c := Black), g.n, Red, u.(c := Black));
      assert RB(pt.(c := Black), h + 1) && RB(u.(c := Black), h + 1);
      assert Inorder(pt.(c := Black)) == Inorder(pt);
      PlugSameInorder(up, Bin(pt, g.n, g.c, u), t');
    }

    /** A red left child of a red left parent with a black uncle: the parent takes the place of the grandparent. */
    method RaiseLeft(z: Ptr, ghost path: Path, ghost t: Tree, ghost h: nat) returns (ghost path': Path)
      requires RedAt(z, path, t, h) && path.InLeft? && path.c == Red && path.up.InLeft? && Col(path.up.r) == Black
      modifies this`heap, this`root
      ensures RedAt(z, path', t, h) && heap.Keys == old(heap.Keys) && PathCol(path') == Black
      ensures Inorder(Plug(path', t)) == Inorder(Plug(path, t))
    {
      hide Whole;
      ghost var g, up, p := path.up, path.up.up, path.n;
      RedParent(path, h);
      Look(heap, path, t, root);
      Look(heap, g, Bin(t, p, Red, path.r), root);
      var grand := heap[heap[z].parent].parent;
      ghost var pr := path.r;
      SetColor(heap[z].parent, Black, g, Bin(t, p, Red, pr));
      SetColor(grand, Red, up, Bin(Bin(t, p, Black, pr), g.n, g.c, g.r));
      RotateRight(grand, up, Bin(Bin(t, p, Black, pr), g.n, Red, g.r));
      RotInorder(t, p, pr, g.n, g.r, Red, g.c, Black, Red);
      PlugSameInorder(up, Bin(Bin(t, p, Red, pr), g.n, g.c, g.r), Bin(t, p, Black, Bin(pr, g.n, Red, g.r)));
      path' := InLeft(p, Black, Bin(pr, g.n, Red, g.r), up);
    }

    /** One round of the fix-up for a parent that is a left child. */
    method InsertStepLeft(z0: Ptr, ghost path: Path, ghost t: Tree, ghost h: nat)
      returns (z: Ptr, ghost path': Path, ghost t': Tree, ghost h': nat)
      requires RedAt(z0, path, t, h) && PathCol(path) == Red && path.up.InLeft?
      modifies this`heap, this`root
      ensures RedAt(z, path', t', h') && heap.Keys == old(heap.Keys)
      ensures Inorder(Plug(path', t')) == Inorder(Plug(path, t))
      ensures PathCol(path') == Black || Depth(path') < Depth(path)
    {
      hide Whole;
      z, path', t', h' := z0, path, t, h;
      ghost var g := path.up;
      ghost var pt := if path.InLeft? then Bin(t, path.n, Red, path.r) else Bin(path.l, path.n, Red, t);
      RedParent(path, h);
      Look(heap, path, t, root);
      Look(heap, g, pt, root);
      var parent := heap[z].parent;
      var grand := heap[parent].parent;
      var y := heap[grand].right;
      if heap[y].color == Red {
        z, t' := RecolorLeft(z, path, t, h);
        path', h' := g.up, h + 1;
      } else {
        if z == heap[parent].right {
          z := parent;
          RotateLeft(z, g, pt);
          RotInorder(path.l, path.n, t.l, t.n, t.r, Red, Red, Red, Red);
          PlugSameInorder(g, pt, RotL(pt));
          t', path' := Bin(path.l, path.n, Red, t.l), InLeft(t.n, Red, t.r, g);
          Look(heap, path', t', root);
        }
        path' := RaiseLeft(z, path', t', h);
      }
    }

    /** The red uncle of a right parent: both turn black and the fault moves two levels up. */
    method RecolorRight(z0: Ptr, ghost path: Path, ghost t: Tree, ghost h: nat) returns (z: Ptr, ghost t': Tree)
      requires RedAt(z0, path, t, h) && PathCol(path) == Red && path.up.InRight? && Col(path.up.l) == Red
      modifies this`heap, this`root
      ensures RedAt(z, path.up.up, t', h + 1) && heap.Keys == old(heap.Keys)
      ensures Inorder(Plug(path.up.up, t')) == Inorder(Plug(path, t))
    {
      hide Whole;
      ghost var g, up := path.up, path.up.up;
      ghost var pt := if path.InLeft? then Bin(t, path.n, Red, path.r) else Bin(path.l, path.n, Red, t);
      RedParent(path, h);
      Look(heap, path, t, root);
      Look(heap, g, pt, root);
      var parent := heap[z0].parent;
      var grand := heap[parent].parent;
      var y := heap[grand].left;
      ghost var u := g.l;
      SetColor(parent, Black, g, pt);
      SetColor(y, Black, InLeft(g.n, g.c, pt.(c := Black), up), u);
      SetColor(grand, Red, up, Bin(u.(c := Black), g.n, g.c, pt.(c := Black)));
      z := grand;
      t' := Bin(u.(c := Black), g.n, Red, pt.(c := Black));
      assert RB(pt.(c := Black), h + 1) && RB(u.(c := Black), h + 1);
      assert Inorder(pt.(c := Black)) == Inorder(pt);
      PlugSameInorder(up, Bin(u, g.n, g.c, pt), t');
    }

    /** A red right child of a red right parent with a black uncle: the parent takes the place of the grandparent. */
    method RaiseRight(z: Ptr, ghost path: Path, ghost t: Tree, ghost h: nat) returns (ghost path': Path)
      requires RedAt(z, path, t, h) && path.InRight? && path.c == Red && path.up.InRight? && Col(path.up.l) == Black
      modifies this`heap, this`root
      ensures RedAt(z, path', t, h) && heap.Keys == old(heap.Keys) && PathCol(path') == Black
      ensures Inorder(Plug(path', t)) == Inorder(Plug(path, t))
    {
      hide Whole;
      ghost var g, up, p := path.up, path.up.up, path.n;
      RedParent(path, h);
      Look(heap, path, t, root);
      Look(heap, g, Bin(path.l, p, Red, t), root);
      var grand := heap[heap[z].parent].parent;
      ghost var pl := path.l;
      SetColor(heap[z].parent, Black, g, Bin(pl, p, Red, t));
      SetColor(grand, Red, up, Bin(g.l, g.n, g.c, Bin(pl, p, Black, t)));
      RotateLeft(grand, up, Bin(g.l, g.n, Red, Bin(pl, p, Black, t)));
      RotInorder(g.l, g.n, pl, p, t, Red, Black, g.c, Red);
      PlugSameInorder(up, Bin(g.l, g.n, g.c, Bin(pl, p, Red, t)), Bin(Bin(g.l, g.n, Red, pl), p, Black, t));
      path' := InRight(Bin(g.l, g.n, Red, pl), p, Black, up);
    }

    /** One round of the fix-up for a parent that is a right child. */
    method InsertStepRight(z0: Ptr, ghost path: Path, ghost t: Tree, ghost h: nat)
      returns (z: Ptr, ghost path': Path, ghost t': Tree, ghost h': nat)
      requires RedAt(z0, path, t, h) && PathCol(path) == Red && path.up.InRight?
      modifies this`heap, this`root
      ensures RedAt(z, path', t', h') && heap.Keys == old(heap.Keys)
      ensures Inorder(Plug(path', t')) == Inorder(Plug(path, t))
      ensures PathCol(path') == Black || Depth(path') < Depth(path)
    {
      hide Whole;
      z, path', t', h' := z0, path, t, h;
      ghost var g := path.up;
      ghost var pt := if path.InLeft? then Bin(t, path.n, Red, path.r) else Bin(path.l, path.n, Red, t);
      RedParent(path, h);
      Look(heap, path, t, root);
      Look(heap, g, pt, root);
      var parent := heap[z].parent;
      var grand := heap[parent].parent;
      var y := heap[grand].left;
      if heap[y].color == Red {
        z, t' := RecolorRight(z, path, t, h);
        path', h' := g.up, h + 1;
      } else {
        if z == heap[parent].left {
          z := parent;
          RotateRight(z, g, pt);
          RotInorder(t.l, t.n, t.r, path.n, path.r, Red, Red, Red, Red);
          PlugSameInorder(g, pt, RotR(pt));
          t', path' := Bin(t.r, path.n, Red, path.r), InRight(t.l, t.n, Red, g);
          Look(heap, path', t', root);
        }
        path' := RaiseRight(z, path', t', h);
      }
    }

    /** Restores the red-black rules after a red node was hung under path. */
    method InsertFixup(z0: Ptr, ghost path0: Path, ghost t0: Tree, ghost h0: nat)
      returns (ghost whole: Tree)
      requires RedAt(z0, path0, t0, h0)
      modifies this`heap, this`root
      ensures Whole(heap, whole, root) && Balanced(whole)
      ensures Inorder(whole) == Inorder(Plug(path0, t0))
      ensures heap.Keys == old(heap.Keys) && heap[NIL].color == Black
    {
      hide Whole;
      var z := z0;
      ghost var path, t, h := path0, t0, h0;
      Look(heap, path, t, root);
      while heap[heap[z].parent].color == Red
        invariant RedAt(z, path, t, h) && heap.Keys == old(heap.Keys)
        invariant z in heap && heap[z].parent == Above(path) && Above(path) in heap
        invariant heap[Above(path)].color == PathCol(path)
        invariant Inorder(Plug(path, t)) == Inorder(Plug(path0, t0))
        decreases if PathCol(path) == Red then 1 + Depth(path) else 0
      {
        RedParent(path, h);
        Look(heap, path.up, if path.InLeft? then Bin(t, path.n, Red, path.r) else Bin(path.l, path.n, Red, t), root);
        var parent := heap[z].parent;
        if parent == heap[heap[parent].parent].left {
          z, path, t, h := InsertStepLeft(z, path, t, h);
        } else {
          z, path, t, h := InsertStepRight(z, path, t, h);
        }
        Look(heap, path, t, root);
      }
      whole := Plug(path, t);
      PlugBin(path, t);
      Look(heap, Top, whole, root);
      SetColor(root, Black, Top, whole);
      if path.Top? {
        RBHeight(whole.(c := Black), h + 1);
      } else {
        PlugRB(path, t, h);
      }
      whole := whole.(c := Black);
    }

    // ----- the whole structure

    /** The heap holds the ghost tree, which is a balanced search tree. */
    ghost predicate Sound()
      reads this
    {
      && TotalOrder(compare)
      && NIL in heap && heap[NIL].color == Black && NULL !in heap
      && Whole(heap, tree, root) && Balanced(tree)
      && Ascending(Inorder(tree), compare) && size == |Inorder(tree)|
    }

    /** The object invariant: in addition, no other cell is allocated. */
    ghost predicate Valid()
      reads this
    {
      Sound() && heap.Keys == Nodes(tree) + {NIL}
    }

    /** The finite map this object stands for. */
    ghost function Contents(): map<Key, Value>
      reads this
    {
      Entries(Inorder(tree))
    }

    /** The stored key that compares equal to the given one, or the given one if there is none. */
    ghost function Stored(key: Key): Key
      reads this
    {
      Slot(Contents(), key, compare)
    }

    /** map_find_node. */
    method FindNode(key: Key) returns (current: Ptr, ghost path: Path, ghost t: Tree)
      requires Valid()
      ensures tree == Plug(path, t) && current == Ref(t) && Around(path, key, compare)
      ensures current != NIL <==> Stored(key) in Contents()
      ensures current != NIL ==> compare(key, Stored(key)) == 0
      ensures current == NIL ==> Stored(key) == key
      ensures current != NIL ==> t.Bin? && t.n.key == Stored(key) && current in heap && heap[current].key == Stored(key)
      ensures current != NIL ==> heap[current].value == Contents()[Stored(key)]
    {
      hide Whole, TotalOrder, Slot;
      path, t := Top, tree;
      AscendingDiffer(Inorder(tree), compare);
      current := root;
      Look(heap, path, t, root);
      while current != NIL
        invariant tree == Plug(path, t) && current == Ref(t) && Around(path, key, compare)
        invariant t.Bin? ==> t.n.ptr != NIL
        decreases t
      {
        Look(heap, path, t, root);
        Descend(path, t, key, compare);
        Less(key, t.n.key, compare);
        var cmp := compare(key, heap[current].key);
        if cmp == 0 {
          FocusSlot(path, t, key, compare);
          return;
        } else if cmp < 0 {
          current := heap[current].left;
          path, t := InLeft(t.n, t.c, t.r, path), t.l;
        } else {
          current := heap[current].right;
          path, t := InRight(t.l, t.n, t.c, path), t.r;
        }
        Look(heap, path, t, root);
      }
      FocusAbsent(path, key, compare);
    }

    /** map_find: the value stored under key, if any. */
    method Find(key: Key) returns (found: bool, value: Value)
      requires Valid()
      ensures found <==> Stored(key) in Contents()
      ensures found ==> value == Contents()[Stored(key)] && compare(key, Stored(key)) == 0
    {
      var node, _, _ := FindNode(key);
      found, value := node != NIL, heap[node].value;
    }

    /** Hangs the node z into the empty slot at the end of path. */
    method Attach(z: Ptr, y: Ptr, ghost path: Path, ghost item: Item)
      requires Whole(heap, Plug(path, Leaf), root) && y == Above(path)
      requires item.ptr == z && z in heap && z != NIL && z !in Nodes(Plug(path, Leaf))
      requires heap[z].key == item.key && heap[z].value == item.value
      requires path.InLeft? ==> compare(item.key, path.n.key) < 0
      requires path.InRight? ==> compare(item.key, path.n.key) >= 0
      modifies this`heap, this`root
      ensures Whole(heap, Plug(path, Bin(Leaf, item, Red, Leaf)), root)
      ensures heap.Keys == old(heap.Keys) && (NIL in heap ==> heap[NIL] == old(heap)[NIL])
    {
      ghost var m, root0 := heap, root;
      PlugNodes(path, Leaf);
      Look(m, path, Leaf, root0);
      ZipPlug(m, path, Leaf, root0);
      heap := heap[z := heap[z].(parent := y)];
      if y == NIL {
        root := z;
      } else if compare(heap[z].key, heap[y].key) < 0 {
        heap := heap[y := heap[y].(left := z)];
      } else {
        heap := heap[y := heap[y].(right := z)];
      }
      heap := heap[z := heap[z].(left := NIL)];
      heap := heap[z := heap[z].(right := NIL)];
      heap := heap[z := heap[z].(color := Red)];
      Attached(m, heap, path, item, root0, root);
      ZipPlug(heap, path, Bin(Leaf, item, Red, Leaf), root);
    }

    /** The empty slot where a key that is not in the tree belongs. */
    method FindSlot(z: Ptr, key: Key) returns (y: Ptr, ghost path: Path)
      requires Sound() && Stored(key) !in Contents() && z in heap && heap[z].key == key
      ensures tree == Plug(path, Leaf) && y == Above(path) && Around(path, key, compare)
      ensures path.InLeft? ==> compare(key, path.n.key) < 0
      ensures path.InRight? ==> compare(key, path.n.key) >= 0
    {
      hide Whole, TotalOrder, Slot;
      ghost var t := tree;
      AscendingDiffer(Inorder(tree), compare);
      path := Top;
      y := NIL;
      var x := root;
      Look(heap, path, t, root);
      while x != NIL
        invariant tree == Plug(path, t) && x == Ref(t) && y == Above(path) && Around(path, key, compare)
        invariant t.Bin? ==> t.n.ptr != NIL
        invariant path.InLeft? ==> compare(key, path.n.key) < 0
        invariant path.InRight? ==> compare(key, path.n.key) >= 0
        decreases t
      {
        y := x;
        Look(heap, path, t, root);
        Descend(path, t, key, compare);
        Less(key, t.n.key, compare);
        var cmp := compare(heap[z].key, heap[x].key);
        if cmp == 0 {
          FocusSlot(path, t, key, compare);
        }
        if cmp < 0 {
          x := heap[x].left;
          path, t := InLeft(t.n, t.c, t.r, path), t.l;
        } else {
          x := heap[x].right;
          path, t := InRight(t.l, t.n, t.c, path), t.r;
        }
        Look(heap, path, t, root);
      }
    }

    /** map_insert: adds a new key, refuses a key that is already there. */
    method Insert(key: Key, value: Value) returns (r: int)
      requires Valid()
      modifies this
      ensures Valid()
      ensures old(Stored(key) in Contents()) ==> r == 0 && Contents() == old(Contents()) && size == old(size)
      ensures old(Stored(key) !in Contents()) ==>
                && r == 1 && old(Stored(key)) == key
                && Contents() == old(Contents())[key := value] && size == old(size) + 1
    {
      hide Slot, Whole, TotalOrder, Inorder, Entries, Plug, RB, PathRB, Balanced, Ascending, Nodes, Around;
      var node, _, _ := FindNode(key);
      if node != NIL {
        return 0;
      }
      FreshExists(heap.Keys);
      var z: Ptr :| z != NULL && z !in heap;
      heap := heap[z := Node(key, value, NULL, NULL, NULL, Red)];
      WholeFrame(old(heap), heap, tree, root);
      var y, path := FindSlot(z, key);
      ghost var item := Item(z, key, value);
      Attach(z, y, path, item);
      ghost var h := RedLeaf(path, item);
      ghost var whole := InsertFixup(z, path, Bin(Leaf, item, Red, Leaf), h);
      size := size + 1;
      HungContents(path, item, whole, compare);
      tree := whole;
      r := 1;
    }

    // ----- erase fix-up

    /** The subtree t in x's place is one black node short; all else is in order. */
    ghost predicate ShortAt(x: Ptr, path: Path, t: Tree, h: nat)
      reads this
    {
      && NIL in heap && heap[NIL].color == Black
      && x == Ref(t) && x in heap && heap[x].parent == Above(path)
      && Whole(heap, Plug(path, t), root)
      && PathRB(path, h + 1) && Short(t, h)
    }

    /** A red sibling to the right is rotated up, so that the new sibling is black. */
    method EraseRedSiblingRight(x: Ptr, ghost path: Path, ghost t: Tree, ghost h: nat)
      returns (ghost path': Path)
      requires ShortAt(x, path, t, h) && path.InLeft? && Col(t) == Black && Col(path.r) == Red
      modifies this`heap, this`root
      ensures ShortAt(x, path', t, h) && heap.Keys == old(heap.Keys)
      ensures path'.InLeft? && path'.c == Red && Col(path'.r) == Black && Depth(path') == Depth(path) + 1
      ensures Inorder(Plug(path', t)) == Inorder(Plug(path, t))
    {
      hide Whole;
      ghost var w, up := path.r, path.up;
      Sibling(path, h + 1);
      Look(heap, path, t, root);
      var p := heap[x].parent;
      var s := heap[p].right;
      SetColor(s, Black, InRight(t, path.n, path.c, up), w);
      SetColor(p, Red, up, Bin(t, path.n, path.c, w.(c := Black)));
      RotateLeft(p, up, Bin(t, path.n, Red, w.(c := Black)));
      RotInorder(t, path.n, w.l, w.n, w.r, Red, Black, path.c, Red);
      PlugSameInorder(up, Bin(t, path.n, path.c, w), Bin(Bin(t, path.n, Red, w.l), w.n, Black, w.r));
      path' := InLeft(path.n, Red, w.l, InLeft(w.n, Black, w.r, up));
      assert PathRB(path'.up, h + 1);
      Look(heap, path', t, root);
    }

    /** A black sibling whose outer child is black and inner child red: rotate the red child up. */
    method EraseInnerRight(x: Ptr, ghost path: Path, ghost t: Tree, ghost h: nat)
      returns (ghost path': Path)
      requires ShortAt(x, path, t, h) && path.InLeft? && Col(t) == Black
      requires path.r.Bin? && path.r.c == Black && Col(path.r.l) == Red && Col(path.r.r) == Black
      modifies this`heap, this`root
      ensures ShortAt(x, path', t, h) && heap.Keys == old(heap.Keys)
      ensures path'.InLeft? && path'.up == path.up && path'.r.Bin? && path'.r.c == Black && Col(path'.r.r) == Red
      ensures Inorder(Plug(path', t)) == Inorder(Plug(path, t))
    {
      hide Whole;
      ghost var w := path.r;
      Sibling(path, h + 1);
      ghost var wp := InRight(t, path.n, path.c, path.up);
      Look(heap, path, t, root);
      Look(heap, InLeft(w.n, w.c, w.r, wp), w.l, root);
      var s := heap[heap[x].parent].right;
      SetColor(heap[s].left, Black, InLeft(w.n, w.c, w.r, wp), w.l);
      SetColor(s, Red, wp, Bin(w.l.(c := Black), w.n, w.c, w.r));
      RotateRight(s, wp, Bin(w.l.(c := Black), w.n, Red, w.r));
      RotInorder(w.l.l, w.l.n, w.l.r, w.n, w.r, Red, Black, Black, Red);
      ghost var w' := Bin(w.l.l, w.l.n, Black, Bin(w.l.r, w.n, Red, w.r));
      PlugSameInorder(wp, w, w');
      path' := InLeft(path.n, path.c, w', path.up);
      assert RB(w'.r, h) && RB(w', h + 1);
      Look(heap, path', t, root);
    }

    /** A black sibling with a red outer child: one rotation at the parent ends the repair. */
    method EraseOuterRight(x0: Ptr, ghost path: Path, ghost t: Tree, ghost h: nat)
      returns (x: Ptr, ghost whole: Tree)
      requires ShortAt(x0, path, t, h) && path.InLeft? && Col(t) == Black
      requires path.r.Bin? && path.r.c == Black && Col(path.r.r) == Red
      modifies this`heap, this`root
      ensures ShortAt(x, Top, whole, BlackHeight(whole)) && heap.Keys == old(heap.Keys)
      ensures Inorder(whole) == Inorder(Plug(path, t))
    {
      hide Whole;
      ghost var w, up := path.r, path.up;
      Sibling(path, h + 1);
      Look(heap, path, t, root);
      Look(heap, InRight(w.l, w.n, w.c, InRight(t, path.n, path.c, up)), w.r, root);
      var p := heap[x0].parent;
      var s := heap[p].right;
      SetColor(s, heap[p].color, InRight(t, path.n, path.c, up), w);
      SetColor(p, Black, up, Bin(t, path.n, path.c, w.(c := path.c)));
      Look(heap, InRight(w.l, w.n, path.c, InRight(t, path.n, Black, up)), w.r, root);
      SetColor(heap[s].right, Black, InRight(w.l, w.n, path.c, InRight(t, path.n, Black, up)), w.r);
      ghost var w' := Bin(w.l, w.n, path.c, w.r.(c := Black));
      assert Plug(InRight(w.l, w.n, path.c, InRight(t, path.n, Black, up)), w'.r) == Plug(InRight(t, path.n, Black, up), w');
      RotateLeft(p, up, Bin(t, path.n, Black, w'));
      ghost var t' := Bin(Bin(t, path.n, Black, w.l), w.n, path.c, w.r.(c := Black));
      assert Inorder(w'.r) == Inorder(w.r) && Inorder(w') == Inorder(w);
      RotInorder(t, path.n, w.l, w.n, w'.r, Black, path.c, path.c, path.c);
      PlugSameInorder(up, Bin(t, path.n, path.c, w), t');
      whole := Plug(up, t');
      PlugRB(up, t', if path.c == Red then h + 1 else h + 2);
      PlugBin(up, t');
      x := root;
      Look(heap, Top, whole, root);
    }

    /** One round of the fix-up with x on the left and a black sibling. */
    method EraseBlackSiblingRight(x0: Ptr, ghost path: Path, ghost t: Tree, ghost h: nat)
      returns (x: Ptr, ghost path': Path, ghost t': Tree, ghost h': nat)
      requires ShortAt(x0, path, t, h) && path.InLeft? && Col(t) == Black && Col(path.r) == Black
      modifies this`heap, this`root
      ensures ShortAt(x, path', t', h') && heap.Keys == old(heap.Keys)
      ensures path'.Top? || (path' == path.up && (path.c == Red ==> Col(t') == Red))
      ensures Inorder(Plug(path', t')) == Inorder(Plug(path, t))
    {
      hide Whole;
      ghost var w, up := path.r, path.up;
      Sibling(path, h + 1);
      Look(heap, path, t, root);
      Look(heap, InLeft(w.n, w.c, w.r, InRight(t, path.n, path.c, up)), w.l, root);
      var p := heap[x0].parent;
      var s := heap[p].right;
      if heap[heap[s].left].color == Black && heap[heap[s].right].color == Black {
        SetColor(s, Red, InRight(t, path.n, path.c, up), w);
        x := p;
        path', t', h' := up, Bin(t, path.n, path.c, w.(c := Red)), if path.c == Red then h else h + 1;
        assert RB(w.(c := Red), h);
        PlugSameInorder(up, Bin(t, path.n, path.c, w), t');
        Look(heap, path', t', root);
      } else {
        path' := path;
        if heap[heap[s].right].color == Black {
          path' := EraseInnerRight(x0, path, t, h);
        }
        x, t' := EraseOuterRight(x0, path', t, h);
        path', h' := Top, BlackHeight(t');
      }
    }

    // The same four methods for x on the right.

    method EraseRedSiblingLeft(x: Ptr, ghost path: Path, ghost t: Tree, ghost h: nat)
      returns (ghost path': Path)
      requires ShortAt(x, path, t, h) && path.InRight? && Col(t) == Black && Col(path.l) == Red
      modifies this`heap, this`root
      ensures ShortAt(x, path', t, h) && heap.Keys == old(heap.Keys)
      ensures path'.InRight? && path'.c == Red && Col(path'.l) == Black && Depth(path') == Depth(path) + 1
      ensures Inorder(Plug(path', t)) == Inorder(Plug(path, t))
    {
      hide Whole;
      ghost var w, up := path.l, path.up;
      Sibling(path, h + 1);
      Look(heap, path, t, root);
      var p := heap[x].parent;
      var s := heap[p].left;
      SetColor(s, Black, InLeft(path.n, path.c, t, up), w);
      SetColor(p, Red, up, Bin(w.(c := Black), path.n, path.c, t));
      RotateRight(p, up, Bin(w.(c := Black), path.n, Red, t));
      RotInorder(w.l, w.n, w.r, path.n, t, Red, path.c, Black, Red);
      PlugSameInorder(up, Bin(w, path.n, path.c, t), Bin(w.l, w.n, Black, Bin(w.r, path.n, Red, t)));
      path' := InRight(w.r, path.n, Red, InRight(w.l, w.n, Black, up));
      assert PathRB(path'.up, h + 1);
      Look(heap, path', t, root);
    }

    method EraseInnerLeft(x: Ptr, ghost path: Path, ghost t: Tree, ghost h: nat)
      returns (ghost path': Path)
      requires ShortAt(x, path, t, h) && path.InRight? && Col(t) == Black
      requires path.l.Bin? && path.l.c == Black && Col(path.l.r) == Red && Col(path.l.l) == Black
      modifies this`heap, this`root
      ensures ShortAt(x, path', t, h) && heap.Keys == old(heap.Keys)
      ensures path'.InRight? && path'.up == path.up && path'.l.Bin? && path'.l.c == Black && Col(path'.l.l) == Red
      ensures Inorder(Plug(path', t)) == Inorder(Plug(path, t))
    {
      hide Whole;
      ghost var w := path.l;
      Sibling(path, h + 1);
      ghost var wp := InLeft(path.n, path.c, t, path.up);
      Look(heap, path, t, root);
      Look(heap, InRight(w.l, w.n, w.c, wp), w.r, root);
      var s := heap[heap[x].parent].left;
      SetColor(heap[s].right, Black, InRight(w.l, w.n, w.c, wp), w.r);
      SetColor(s, Red, wp, Bin(w.l, w.n, w.c, w.r.(c := Black)));
      RotateLeft(s, wp, Bin(w.l, w.n, Red, w.r.(c := Black)));
      RotInorder(w.l, w.n, w.r.l, w.r.n, w.r.r, Red, Black, Black, Red);
      ghost var w' := Bin(Bin(w.l, w.n, Red, w.r.l), w.r.n, Black, w.r.r);
      PlugSameInorder(wp, w, w');
      path' := InRight(w', path.n, path.c, path.up);
      assert RB(w'.l, h) && RB(w', h + 1);
      Look(heap, path', t, root);
    }

    method EraseOuterLeft(x0: Ptr, ghost path: Path, ghost t: Tree, ghost h: nat)
      returns (x: Ptr, ghost whole: Tree)
      requires ShortAt(x0, path, t, h) && path.InRight? && Col(t) == Black
      requires path.l.Bin? && path.l.c == Black && Col(path.l.l) == Red
      modifies this`heap, this`root
      ensures ShortAt(x, Top, whole, BlackHeight(whole)) && heap.Keys == old(heap.Keys)
      ensures Inorder(whole) == Inorder(Plug(path, t))
    {
      hide Whole;
      ghost var w, up := path.l, path.up;
      Sibling(path, h + 1);
      Look(heap, path, t, root);
      Look(heap, InLeft(w.n, w.c, w.r, InLeft(path.n, path.c, t, up)), w.l, root);
      var p := heap[x0].parent;
      var s := heap[p].left;
      SetColor(s, heap[p].color, InLeft(path.n, path.c, t, up), w);
      SetColor(p, Black, up, Bin(w.(c := path.c), path.n, path.c, t));
      Look(heap, InLeft(w.n, path.c, w.r, InLeft(path.n, Black, t, up)), w.l, root);
      SetColor(heap[s].left, Black, InLeft(w.n, path.c, w.r, InLeft(path.n, Black, t, up)), w.l);
      ghost var w' := Bin(w.l.(c := Black), w.n, path.c, w.r);
      assert Plug(InLeft(w.n, path.c, w.r, InLeft(path.n, Black, t, up)), w'.l) == Plug(InLeft(path.n, Black, t, up), w');
      RotateRight(p, up, Bin(w', path.n, Black, t));
      ghost var t' := Bin(w.l.(c := Black), w.n, path.c, Bin(w.r, path.n, Black, t));
      assert Inorder(w'.l) == Inorder(w.l) && Inorder(w') == Inorder(w);
      RotInorder(w'.l, w.n, w.r, path.n, t, path.c, path.c, path.c, Black);
      PlugSameInorder(up, Bin(w, path.n, path.c, t), t');
      whole := Plug(up, t');
      PlugRB(up, t', if path.c == Red then h + 1 else h + 2);
      PlugBin(up, t');
      x := root;
      Look(heap, Top, whole, root);
    }

    method EraseBlackSiblingLeft(x0: Ptr, ghost path: Path, ghost t: Tree, ghost h: nat)
      returns (x: Ptr, ghost path': Path, ghost t': Tree, ghost h': nat)
      requires ShortAt(x0, path, t, h) && path.InRight? && Col(t) == Black && Col(path.l) == Black
      modifies this`heap, this`root
      ensures ShortAt(x, path', t', h') && heap.Keys == old(heap.Keys)
      ensures path'.Top? || (path' == path.up && (path.c == Red ==> Col(t') == Red))
      ensures Inorder(Plug(path', t')) == Inorder(Plug(path, t))
    {
      hide Whole;
      ghost var w, up := path.l, path.up;
      Sibling(path, h + 1);
      Look(heap, path, t, root);
      Look(heap, InRight(w.l, w.n, w.c, InLeft(path.n, path.c, t, up)), w.r, root);
      var p := heap[x0].parent;
      var s := heap[p].left;
      if heap[heap[s].right].color == Black && heap[heap[s].left].color == Black {
        SetColor(s, Red, InLeft(path.n, path.c, t, up), w);
        x := p;
        path', t', h' := up, Bin(w.(c := Red), path.n, path.c, t), if path.c == Red then h else h + 1;
        assert RB(w.(c := Red), h);
        PlugSameInorder(up, Bin(w, path.n, path.c, t), t');
        Look(heap, path', t', root);
      } else {
        path' := path;
        if heap[heap[s].left].color == Black {
          path' := EraseInnerLeft(x0, path, t, h);
        }
        x, t' := EraseOuterLeft(x0, path', t, h);
        path', h' := Top, BlackHeight(t');
      }
    }

    /** Restores the red-black rules after a black node was unlinked above x. */
    method EraseFixup(x0: Ptr, ghost path0: Path, ghost t0: Tree, ghost h0: nat)
      returns (ghost whole: Tree)
      requires ShortAt(x0, path0, t0, h0)
      modifies this`heap, this`root
      ensures Whole(heap, whole, root) && Balanced(whole)
      ensures Inorder(whole) == Inorder(Plug(path0, t0))
      ensures heap.Keys == old(heap.Keys) && heap[NIL].color == Black
    {
      hide Whole, Plug, Inorder, RB, PathRB, Short;
      var x := x0;
      ghost var path, t, h := path0, t0, h0;
      Look(heap, path, t, root);
      while x != root && heap[x].color == Black
        invariant ShortAt(x, path, t, h) && heap.Keys == old(heap.Keys)
        invariant heap[x].color == Col(t) && (x == root <==> path.Top?)
        invariant Inorder(Plug(path, t)) == Inorder(Plug(path0, t0))
        decreases if Col(t) == Red then 0 else Depth(path)
      {
        Sibling(path, h + 1);
        Look(heap, path, t, root);
        var p := heap[x].parent;
        if x == heap[p].left {
          if heap[heap[p].right].color == Red {
            path := EraseRedSiblingRight(x, path, t, h);
          }
          x, path, t, h := EraseBlackSiblingRight(x, path, t, h);
        } else {
          if heap[heap[p].left].color == Red {
            path := EraseRedSiblingLeft(x, path, t, h);
          }
          x, path, t, h := EraseBlackSiblingLeft(x, path, t, h);
        }
        Look(heap, path, t, root);
      }
      WholeBlackened(heap, path, t, root);
      heap := heap[x := heap[x].(color := Black)];
      BlackenRB(path, t, h);
      PlugBlacken(path, t);
      whole := Plug(path, Blacken(t));
    }

    // ----- erase

    /** Puts v into the slot that holds u; v may be the sentinel, whose parent link is then set too. */
    method Transplant(u: Ptr, v: Ptr, ghost path: Path)
      requires FitsPath(heap, path, u, root) && PathDistinct(path) && NIL !in PathNodes(path)
      requires u in heap && u != NIL && u !in PathNodes(path) && heap[u].parent == Above(path)
      requires v in heap && v !in PathNodes(path)
      modifies this`heap, this`root
      ensures FitsPath(heap, path, v, root) && (!path.Top? ==> root == old(root))
      ensures heap.Keys == old(heap.Keys) && heap[v] == old(heap)[v].(parent := Above(path))
      ensures forall p :: p in heap && p != v && p !in PathNodes(path) ==> heap[p] == old(heap)[p]
    {
      ghost var m, root0 := heap, root;
      var p := heap[u].parent;
      if p == NIL {
        root := v;
      } else if u == heap[p].left {
        heap := heap[p := heap[p].(left := v)];
      } else {
        heap := heap[p := heap[p].(right := v)];
      }
      heap := heap[v := heap[v].(parent := heap[u].parent)];
      RehungFits(m, heap, path, u, v, root0, root);
    }

    /** The smallest node of a subtree. */
    method Minimum(node0: Ptr, ghost path: Path, ghost t: Tree) returns (node: Ptr, ghost spine: Path, ghost t': Tree)
      requires Whole(heap, Plug(path, t), root) && t.Bin? && node0 == t.n.ptr
      ensures t == Plug(spine, t') && Spine(spine) && t'.Bin? && t'.l.Leaf? && node == t'.n.ptr
    {
      hide Whole;
      node, spine, t' := node0, Top, t;
      PlugCat(spine, path, t');
      Look(heap, Cat(spine, path), t', root);
      while heap[node].left != NIL
        invariant t == Plug(spine, t') && Spine(spine) && t'.Bin? && node == t'.n.ptr && node in heap
        invariant heap[node].left == Ref(t'.l) && (t'.l.Bin? ==> t'.l.n.ptr != NIL)
        decreases t'
      {
        node := heap[node].left;
        spine, t' := InLeft(t'.n, t'.c, t'.r, spine), t'.l;
        PlugCat(spine, path, t');
        Look(heap, Cat(spine, path), t', root);
        if t'.l.Bin? {
          Look(heap, InLeft(t'.n, t'.c, t'.r, Cat(spine, path)), t'.l, root);
        }
      }
    }

    /** A node with an empty side is replaced by its other side. */
    method Unlink(z: Ptr, v: Ptr, ghost path: Path, ghost t: Tree, ghost other: Tree)
      requires NIL in heap && Whole(heap, Plug(path, t), root) && t.Bin? && t.n.ptr == z && v == Ref(other)
      requires (t.l.Leaf? && other == t.r) || (t.r.Leaf? && other == t.l)
      modifies this`heap, this`root
      ensures Whole(heap, Plug(path, other), root) && heap.Keys == old(heap.Keys)
      ensures v in heap && heap[v].parent == Above(path) && heap[NIL].color == old(heap)[NIL].color
      ensures z in heap && heap[z] == old(heap)[z]
    {
      ZipPlug(heap, path, t, root);
      ghost var m := heap;
      assert Fits(m, other, z);
      Transplant(z, v, path);
      Reparented(m, heap, other, z, Above(path));
      ZipPlug(heap, path, other, root);
    }

    /** The successor takes the place of z, its left subtree and its colour. */
    method Splice(z: Ptr, y: Ptr, ghost path: Path, ghost l: Tree, ghost zi: Item, ghost c: Color, ghost yi: Item, ghost r: Tree)
      requires Detached(heap, path, l, zi, c, yi, r, root) && l.Bin? && zi.ptr == z && yi.ptr == y && NIL in heap
      modifies this`heap, this`root
      ensures Whole(heap, Plug(path, Bin(l, yi, c, r)), root)
      ensures heap.Keys == old(heap.Keys) && heap[NIL] == old(heap)[NIL]
      ensures forall p :: p in Nodes(r) && p in heap ==> heap[p] == old(heap)[p]
    {
      ghost var m, root0 := heap, root;
      Transplant(z, y, path);
      ghost var m1 := heap;
      heap := heap[y := heap[y].(left := heap[z].left)];
      var yl := heap[y].left;
      heap := heap[yl := heap[yl].(parent := y)];
      heap := heap[y := heap[y].(color := heap[z].color)];
      FitsPathFrame(m1, heap, path, y, root);
      Spliced(m, heap, path, l, zi, c, yi, r, root0, root);
      ZipPlug(heap, path, Bin(l, yi, c, r), root);
    }

    /** The successor y is z's right child: only x's parent link has to be made sure of. */
    method DetachNear(z: Ptr, y: Ptr, x: Ptr, ghost path: Path, ghost t: Tree, ghost yt: Tree)
      requires NIL in heap && Whole(heap, Plug(path, t), root) && t.Bin? && t.n.ptr == z
      requires t.r == yt && yt.Bin? && yt.l.Leaf? && yt.n.ptr == y && x == Ref(yt.r)
      modifies this`heap
      ensures Detached(heap, path, t.l, t.n, t.c, yt.n, yt.r, root)
      ensures heap.Keys == old(heap.Keys) && heap[NIL].color == old(heap)[NIL].color
      ensures x in heap && heap[x].parent == y
    {
      ghost var m := heap;
      ZipPlug(heap, path, t, root);
      assert Fits(heap, yt, z) && Fits(heap, yt.r, y);
      heap := heap[x := heap[x].(parent := y)];
      DetachedNear(m, heap, path, t.l, t.n, t.c, yt.n, yt.c, yt.r, root);
    }

    /** The successor y is further down: x takes its place, and y takes over z's right subtree. */
    method DetachFar(z: Ptr, y: Ptr, x: Ptr, ghost path: Path, ghost t: Tree, ghost spine: Path, ghost yt: Tree)
      requires NIL in heap && Whole(heap, Plug(path, t), root) && t.Bin? && t.n.ptr == z
      requires t.r == Plug(spine, yt) && yt.Bin? && yt.l.Leaf? && yt.n.ptr == y && x == Ref(yt.r) && !spine.Top?
      modifies this`heap, this`root
      ensures Detached(heap, path, t.l, t.n, t.c, yt.n, Plug(spine, yt.r), root)
      ensures heap.Keys == old(heap.Keys) && heap[NIL].color == old(heap)[NIL].color
      ensures x in heap && heap[x].parent == spine.n.ptr
    {
      ghost var full := Cat(spine, InRight(t.l, t.n, t.c, path));
      ghost var r' := Plug(spine, yt.r);
      SuccessorPlace(path, t, spine, yt);
      ZipPlug(heap, full, yt, root);
      Unlink(y, x, full, yt, yt.r);
      ghost var m := heap;
      ZipPlug(heap, path, Bin(t.l, t.n, t.c, r'), root);
      assert Fits(m, r', z);
      heap := heap[y := heap[y].(right := heap[z].right)];
      var yr := heap[y].right;
      heap := heap[yr := heap[yr].(parent := y)];
      DetachedFar(m, heap, path, t.l, t.n, t.c, yt.n, r', root);
    }

    /** The smallest node y of z's right subtree replaces z; x is the subtree that replaced y. */
    method ReplaceBySuccessor(z: Ptr, y: Ptr, ghost path: Path, ghost t: Tree, ghost spine: Path, ghost yt: Tree)
      returns (x: Ptr)
      requires NIL in heap && Whole(heap, Plug(path, t), root) && t.Bin? && t.n.ptr == z && t.l.Bin?
      requires t.r == Plug(spine, yt) && yt.Bin? && yt.l.Leaf? && yt.n.ptr == y
      modifies this`heap, this`root
      ensures Whole(heap, Plug(Cat(spine, InRight(t.l, yt.n, t.c, path)), yt.r), root)
      ensures heap.Keys == old(heap.Keys) && heap[NIL].color == old(heap)[NIL].color
      ensures x == Ref(yt.r) && x in heap && heap[x].parent == Above(Cat(spine, InRight(t.l, yt.n, t.c, path)))
    {
      hide Whole, Detached, Nodes, Distinct, PathNodes;
      WholeDistinct(heap, Plug(path, t), root);
      SuccessorPlace(path, t, spine, yt);
      PlugCat(spine, InRight(t.l, yt.n, t.c, path), yt.r);
      Look(heap, Cat(spine, InRight(t.l, t.n, t.c, path)), yt, root);
      x := heap[y].right;
      if heap[y].parent == z {
        DetachNear(z, y, x, path, t, yt);
      } else {
        DetachFar(z, y, x, path, t, spine, yt);
      }
      Splice(z, y, path, t.l, t.n, t.c, yt.n, Plug(spine, yt.r));
    }

    /** Takes the node z out of the tree; x is what moved into the place that lost a node. */
    method TakeOut(z: Ptr, ghost path: Path, ghost t: Tree)
      returns (x: Ptr, originalColor: Color, ghost path': Path, ghost t': Tree, ghost h: nat)
      requires NIL in heap && heap[NIL].color == Black
      requires Whole(heap, Plug(path, t), root) && Balanced(Plug(path, t)) && t.Bin? && t.n.ptr == z
      modifies this`heap, this`root
      ensures heap.Keys == old(heap.Keys) && heap[NIL].color == Black
      ensures Whole(heap, Plug(path', t'), root)
      ensures Inorder(Plug(path', t')) == (Before(path) + Inorder(t.l)) + (Inorder(t.r) + After(path))
      ensures x == Ref(t') && x in heap && heap[x].parent == Above(path')
      ensures originalColor == Red ==> Balanced(Plug(path', t'))
      ensures originalColor == Black ==> PathRB(path', h + 1) && Short(t', h)
    {
      hide Whole, Inorder, RB, PathRB, Short, Balanced, Plug;
      Look(heap, path, t, root);
      originalColor := heap[z].color;
      if heap[z].left == NIL {
        x := heap[z].right;
        Unlink(z, x, path, t, t.r);
        h := UnlinkRB(path, t, t.r);
        path', t' := path, t.r;
        UnlinkInorder(path, t, t.r);
      } else if heap[z].right == NIL {
        x := heap[z].left;
        Unlink(z, x, path, t, t.l);
        h := UnlinkRB(path, t, t.l);
        path', t' := path, t.l;
        UnlinkInorder(path, t, t.l);
      } else {
        PlugStep(path, t);
        var y, spine, yt := Minimum(heap[z].right, InRight(t.l, t.n, t.c, path), t.r);
        PlugCat(spine, InRight(t.l, t.n, t.c, path), yt);
        Look(heap, Cat(spine, InRight(t.l, t.n, t.c, path)), yt, root);
        originalColor := heap[y].color;
        x := ReplaceBySuccessor(z, y, path, t, spine, yt);
        h := SuccessorRB(path, t, spine, yt);
        path', t' := Cat(spine, InRight(t.l, yt.n, t.c, path)), yt.r;
        SuccessorInorder(path, t, spine, yt);
      }
    }

    /** map_erase: removes the entry of key and frees its node. */
    method Erase(key: Key) returns (r: int)
      requires Valid()
      modifies this
      ensures Valid()
      ensures old(Stored(key) !in Contents()) ==> r == 0 && Contents() == old(Contents()) && size == old(size)
      ensures old(Stored(key) in Contents()) ==>
                r == 1 && Contents() == old(Contents()) - {old(Stored(key))} && size == old(size) - 1
    {
      hide Slot, Whole, TotalOrder, Inorder, Entries, Plug, RB, PathRB, Short, Balanced, Ascending, Nodes, Distinct;
      var z, path, t := FindNode(key);
      if z == NIL {
        return 0;
      }
      WholeDistinct(heap, tree, root);
      FocusInorder(path, t);
      var x, originalColor, path', t', h := TakeOut(z, path, t);
      ghost var whole := Plug(path', t');
      RemovedContents(tree, whole, Before(path) + Inorder(t.l), t.n, Inorder(t.r) + After(path), compare);
      WholeFrame(heap, heap - {z}, whole, root);
      heap := heap - {z};
      size := size - 1;
      Look(heap, path', t', root);
      if originalColor == Black {
        whole := EraseFixup(x, path', t', h);
        SameNodes(whole, Plug(path', t'));
      }
      tree := whole;
      r := 1;
    }

    /** map_insert_or_assign: afterwards key has this value; other entries are untouched. */
    method InsertOrAssign(key: Key, value: Value) returns (r: int)
      requires Valid()
      modifies this
      ensures Valid() && Contents() == old(Contents())[old(Stored(key)) := value]
      ensures r == if old(Stored(key) in Contents()) then 2 else 1
    {
      hide Slot, Whole, TotalOrder, Inorder, Entries, Plug, RB, PathRB, Balanced, Ascending, Nodes;
      var existing, path, t := FindNode(key);
      if existing != NIL {
        AssignedFits(heap, path, t, value, root);
        AssignedContents(path, t, value, compare);
        Look(heap, path, t, root);
        heap := heap[existing := heap[existing].(value := value)];
        tree := Plug(path, Assigned(t, value));
        return 2;
      }
      r := Insert(key, value);
    }

    // ----- iterators

    /** The node references in key order. */
    ghost function Items(): seq<Item>
      reads this
    {
      Inorder(tree)
    }

    /** The largest node of a subtree. */
    method Maximum(node0: Ptr, ghost path: Path, ghost t: Tree) returns (node: Ptr, ghost spine: Path, ghost t': Tree)
      requires Whole(heap, Plug(path, t), root) && t.Bin? && node0 == t.n.ptr
      ensures t == Plug(spine, t') && RightSpine(spine) && t'.Bin? && t'.r.Leaf? && node == t'.n.ptr
    {
      hide Whole;
      node, spine, t' := node0, Top, t;
      PlugCat(spine, path, t');
      Look(heap, Cat(spine, path), t', root);
      while heap[node].right != NIL
        invariant t == Plug(spine, t') && RightSpine(spine) && t'.Bin? && node == t'.n.ptr && node in heap
        invariant heap[node].right == Ref(t'.r) && (t'.r.Bin? ==> t'.r.n.ptr != NIL)
        decreases t'
      {
        node := heap[node].right;
        spine, t' := InRight(t'.l, t'.n, t'.c, spine), t'.r;
        PlugCat(spine, path, t');
        Look(heap, Cat(spine, path), t', root);
      }
    }

    /** map_begin: the first node in key order, or NULL for an empty map. */
    method Begin() returns (node: Ptr)
      requires Valid()
      ensures node == if Items() == [] then NULL else Items()[0].ptr
    {
      hide Whole;
      Look(heap, Top, tree, root);
      if root == NIL {
        return NULL;
      }
      ghost var spine, t';
      node, spine, t' := Minimum(root, Top, tree);
      SpineInorder(spine, t');
    }

    method Successor(node0: Ptr) returns (y: Ptr)
      requires Valid() && node0 in Nodes(tree)
      ensures y == NextOf(Items(), node0)
    {
      hide Whole;
      var node := node0;
      ghost var path, t := Locate(Top, tree, node0);
      WholeDistinct(heap, tree, root);
      FocusNeighbours(path, t);
      Look(heap, path, t, root);
      if heap[node].right != NIL {
        ghost var spine, t';
        y, spine, t' := Minimum(heap[node].right, InRight(t.l, t.n, t.c, path), t.r);
        SpineInorder(spine, t');
        return;
      }
      y := heap[node].parent;
      while y != NIL && node == heap[y].right
        invariant Plug(path, t) == tree && t.Bin? && node == t.n.ptr && y == Above(path)
        invariant NextOf(Items(), node0) == if After(path) == [] then NIL else After(path)[0].ptr
        invariant y != NIL ==> y in heap && (node == heap[y].right <==> path.InRight?)
        invariant y == NIL <==> path.Top?
        decreases path
      {
        node := y;
        Look(heap, path, t, root);
        path, t := path.up, Bin(path.l, path.n, path.c, t);
        Look(heap, path, t, root);
        y := heap[y].parent;
      }
    }

    method Predecessor(node0: Ptr) returns (y: Ptr)
      requires Valid() && node0 in Nodes(tree)
      ensures y == PrevOf(Items(), node0)
    {
      hide Whole;
      var node := node0;
      ghost var path, t := Locate(Top, tree, node0);
      WholeDistinct(heap, tree, root);
      FocusNeighbours(path, t);
      Look(heap, path, t, root);
      if heap[node].left != NIL {
        ghost var spine, t';
        y, spine, t' := Maximum(heap[node].left, InLeft(t.n, t.c, t.r, path), t.l);
        RightSpineInorder(spine, t');
        return;
      }
      y := heap[node].parent;
      while y != NIL && node == heap[y].left
        invariant Plug(path, t) == tree && t.Bin? && node == t.n.ptr && y == Above(path)
        invariant PrevOf(Items(), node0) == if Before(path) == [] then NIL else Before(path)[|Before(path)| - 1].ptr
        invariant y != NIL ==> y in heap && (node == heap[y].left <==> path.InLeft?)
        invariant y == NIL <==> path.Top?
        decreases path
      {
        node := y;
        Look(heap, path, t, root);
        path, t := path.up, Bin(t, path.n, path.c, path.r);
        Look(heap, path, t, root);
        y := heap[y].parent;
      }
    }

    /** map_next: past the end (NULL or the sentinel) it stays NULL. */
    method Next(node: Ptr) returns (r: Ptr)
      requires Valid() && (node == NULL || node == NIL || node in Nodes(tree))
      ensures r == if node == NULL || node == NIL then NULL else NextOf(Items(), node)
    {
      if node == NULL || node == NIL {
        return NULL;
      }
      r := Successor(node);
    }

    /** map_prev: from the end sentinel of a non-empty map it goes to the last node. */
    method Prev(node: Ptr) returns (r: Ptr)
      requires Valid() && (node == NULL || node == NIL || node in Nodes(tree))
      requires node == NIL ==> size > 0
      ensures node == NULL ==> r == NULL
      ensures node == NIL ==> r == Items()[|Items()| - 1].ptr
      ensures node != NULL && node != NIL ==> r == PrevOf(Items(), node)
    {
      hide Whole;
      Look(heap, Top, tree, root);
      if node == NULL {
        return NULL;
      }
      if node == NIL {
        ghost var spine, t';
        r, spine, t' := Maximum(root, Top, tree);
        RightSpineInorder(spine, t');
      } else {
        r := Predecessor(node);
      }
    }

    /** Iterating from Begin by Next meets every key exactly once, in strictly ascending order. */
    method Traverse() returns (keys: seq<Key>)
      requires Valid()
      ensures |keys| == size == |Contents()|
      ensures forall i, j :: 0 <= i < j < |keys| ==> compare(keys[i], keys[j]) < 0
      ensures forall k :: k in keys <==> k in Contents()
    {
      hide Whole, TotalOrder, Balanced, Ascending, Inorder, Entries, NextOf, Nodes;
      ghost var s, i := Items(), 0;
      keys := [];
      var node := Begin();
      if s != [] {
        ItemCell(heap, tree, root, 0);
      }
      while node != NULL && node != NIL
        invariant 0 <= i <= |s| && |keys| == i && forall j :: 0 <= j < i ==> keys[j] == s[j].key
        invariant if i < |s| then node == s[i].ptr && node in heap && node != NIL else node == NULL || node == NIL
        decreases |s| - i
      {
        ItemCell(heap, tree, root, i);
        keys := keys + [heap[node].key];
        node := Next(node);
        i := i + 1;
        if i < |s| {
          ItemCell(heap, tree, root, i);
        }
      }
      Traversed(s, keys, compare);
    }

    /** The depth of the tree is at most 2 * log2(size + 1). */
    lemma DepthIsLogarithmic()
      requires Valid()
      ensures Pow2(Height(tree)) <= (size + 1) * (size + 1)
    {
      LogarithmicHeight(tree);
    }

    /** Any run of the three updating operations keeps the invariant and acts as on a finite map. */
    method Run(ops: seq<Op>)
      requires Valid()
      modifies this
      ensures Valid() && Contents() == ApplyAll(old(Contents()), ops, compare)
    {
      hide Sound, Slot;
      for i := 0 to |ops|
        invariant Valid() && Contents() == ApplyAll(old(Contents()), ops[..i], compare)
      {
        assert ops[..i + 1][..i] == ops[..i];
        ghost var before := Contents();
        match ops[i]
        case OpInsert(k, v) => var _ := Insert(k, v);
        case OpAssign(k, v) => var _ := InsertOrAssign(k, v);
        case OpErase(k) => var _ := Erase(k);
        assert Contents() == Apply(before, ops[i], compare);
      }
      assert ops[..|ops|] == ops;
    }
  }
}
