/** The value-level theory of the red-black tree in misc/map.c: trees of nodes, the way
    from a node up to the root (a zipper), the red-black invariants, the in-order
    sequence, and what it means for an explicit memory of linked cells to hold a tree. */
module MapTree {
  type Key(!new, 0)
  type Value(!new, 0)

  /** Addresses. */
  type Ptr = int
  const NULL: Ptr := 0
  /** The address of the shared sentinel. */
  const NIL: Ptr := 1

  datatype Color = Red | Black

  datatype Node = Node(key: Key, value: Value, parent: Ptr, left: Ptr, right: Ptr, color: Color)

  type Memory = map<Ptr, Node>

  datatype Item = Item(ptr: Ptr, key: Key, value: Value)

  datatype Tree = Leaf | Bin(l: Tree, n: Item, c: Color, r: Tree)

  /** The way from a position in the tree up to the root, innermost step first. */
  datatype Path =
    | Top
    | InLeft(n: Item, c: Color, r: Tree, up: Path)
    | InRight(l: Tree, n: Item, c: Color, up: Path)

  ghost function Plug(path: Path, t: Tree): Tree
  {
    match path
    case Top => t
    case InLeft(n, c, r, up) => Plug(up, Bin(t, n, c, r))
    case InRight(l, n, c, up) => Plug(up, Bin(l, n, c, t))
  }

  ghost function Depth(path: Path): nat
  {
    if path.Top? then 0 else 1 + Depth(path.up)
  }

  ghost function Nodes(t: Tree): set<Ptr>
  {
    if t.Leaf? then {} else Nodes(t.l) + {t.n.ptr} + Nodes(t.r)
  }

  ghost function PathNodes(path: Path): set<Ptr>
  {
    match path
    case Top => {}
    case InLeft(n, _, r, up) => {n.ptr} + Nodes(r) + PathNodes(up)
    case InRight(l, n, _, up) => {n.ptr} + Nodes(l) + PathNodes(up)
  }

  /** No node occurs twice. */
  ghost predicate Distinct(t: Tree)
  {
    t.Bin? ==>
      && t.n.ptr !in Nodes(t.l) && t.n.ptr !in Nodes(t.r) && Nodes(t.l) !! Nodes(t.r)
      && Distinct(t.l) && Distinct(t.r)
  }

  ghost predicate PathDistinct(path: Path)
  {
    match path
    case Top => true
    case InLeft(n, _, r, up) =>
      n.ptr !in Nodes(r) && n.ptr !in PathNodes(up) && Nodes(r) !! PathNodes(up) && Distinct(r) && PathDistinct(up)
    case InRight(l, n, _, up) =>
      n.ptr !in Nodes(l) && n.ptr !in PathNodes(up) && Nodes(l) !! PathNodes(up) && Distinct(l) && PathDistinct(up)
  }

  // ----- colours and black heights

  ghost function Col(t: Tree): Color
  {
    if t.Leaf? then Black else t.c
  }

  ghost function PathCol(path: Path): Color
  {
    if path.Top? then Black else path.c
  }

  /** No red node has a red child and every way down meets exactly h black nodes. */
  ghost predicate RB(t: Tree, h: nat)
  {
    match t
    case Leaf => h == 0
    case Bin(l, _, Red, r) => Col(l) == Black && Col(r) == Black && RB(l, h) && RB(r, h)
    case Bin(l, _, Black, r) => h > 0 && RB(l, h - 1) && RB(r, h - 1)
  }

  /** What a path must satisfy so that a tree of black height h fits into its hole. */
  ghost predicate PathRB(path: Path, h: nat)
  {
    match path
    case Top => true
    case InLeft(_, Red, r, up) => RB(r, h) && Col(r) == Black && !up.Top? && PathCol(up) == Black && PathRB(up, h)
    case InLeft(_, Black, r, up) => RB(r, h) && PathRB(up, h + 1)
    case InRight(l, _, Red, up) => RB(l, h) && Col(l) == Black && !up.Top? && PathCol(up) == Black && PathRB(up, h)
    case InRight(l, _, Black, up) => RB(l, h) && PathRB(up, h + 1)
  }

  ghost function BlackHeight(t: Tree): nat
  {
    if t.Leaf? then 0 else BlackHeight(t.l) + if t.c == Black then 1 else 0
  }

  /** A balanced whole tree: black root, no red-red edge, equal black counts. */
  ghost predicate Balanced(t: Tree)
  {
    Col(t) == Black && RB(t, BlackHeight(t))
  }

  lemma {:induction false} RBHeight(t: Tree, h: nat)
    requires RB(t, h)
    ensures BlackHeight(t) == h
  {
    if t.Bin? {
      RBHeight(t.l, if t.c == Red then h else h - 1);
    }
  }

  /** Filling a sound hole with a sound tree gives a balanced tree. */
  lemma {:induction false} PlugRB(path: Path, t: Tree, h: nat)
    requires RB(t, h) && PathRB(path, h)
    requires Col(t) == Black || (!path.Top? && PathCol(path) == Black)
    ensures Balanced(Plug(path, t))
    decreases path
  {
    match path
    case Top => RBHeight(t, h);
    case InLeft(n, c, r, up) => PlugRB(up, Bin(t, n, c, r), if c == Red then h else h + 1);
    case InRight(l, n, c, up) => PlugRB(up, Bin(l, n, c, t), if c == Red then h else h + 1);
  }

  /** Conversely every position of a balanced tree splits it into a sound hole and a sound tree. */
  lemma {:induction false} UnplugRB(path: Path, t: Tree) returns (h: nat)
    requires Balanced(Plug(path, t))
    ensures RB(t, h) && PathRB(path, h)
    ensures Col(t) == Black || (!path.Top? && PathCol(path) == Black)
    decreases path
  {
    match path
    case Top => h := BlackHeight(t);
    case InLeft(n, c, r, up) =>
      h := UnplugRB(up, Bin(t, n, c, r));
      h := if c == Red then h else h - 1;
    case InRight(l, n, c, up) =>
      h := UnplugRB(up, Bin(l, n, c, t));
      h := if c == Red then h else h - 1;
  }

  /** Where a leaf of a balanced tree was, a red node keeps the black counts. */
  lemma RedLeaf(path: Path, n: Item) returns (h: nat)
    requires Balanced(Plug(path, Leaf))
    ensures RB(Bin(Leaf, n, Red, Leaf), h) && PathRB(path, h)
  {
    h := UnplugRB(path, Leaf);
  }

  ghost function Side(path: Path): Tree
    requires !path.Top?
  {
    if path.InLeft? then path.r else path.l
  }

  lemma Sibling(path: Path, h: nat)
    requires PathRB(path, h) && !path.Top?
    ensures RB(Side(path), h) && PathRB(path.up, if path.c == Red then h else h + 1)
    ensures path.c == Red ==> Col(Side(path)) == Black && !path.up.Top? && PathCol(path.up) == Black
    ensures h > 0 ==> Side(path).Bin?
    ensures var s := Side(path);
            s.Bin? ==> var k := if s.c == Red then h else h - 1; k >= 0 && RB(s.l, k) && RB(s.r, k)
  {
  }

  /** Under a red parent: the parent's sibling subtree is black, the grandparent exists and is black. */
  lemma RedParent(path: Path, h: nat)
    requires PathRB(path, h) && PathCol(path) == Red
    ensures !path.up.Top? && path.up.c == Black
    ensures RB(Side(path), h) && Col(Side(path)) == Black && RB(Side(path.up), h) && PathRB(path.up.up, h + 1)
  {
    assert PathRB(path.up, h);
  }

  // ----- the in-order sequence

  ghost function Inorder(t: Tree): seq<Item>
  {
    if t.Leaf? then [] else Inorder(t.l) + [t.n] + Inorder(t.r)
  }

  /** The nodes before the hole. */
  ghost function Before(path: Path): seq<Item>
  {
    match path
    case Top => []
    case InLeft(_, _, _, up) => Before(up)
    case InRight(l, n, _, up) => Before(up) + Inorder(l) + [n]
  }

  /** The nodes after the hole. */
  ghost function After(path: Path): seq<Item>
  {
    match path
    case Top => []
    case InLeft(n, _, r, up) => [n] + Inorder(r) + After(up)
    case InRight(_, _, _, up) => After(up)
  }

  lemma Regroup<T>(a: seq<T>, b: seq<T>, c: seq<T>, d: seq<T>, e: seq<T>)
    ensures a + (b + c + d) + e == a + b + (c + d + e)
    ensures a + (b + c + d) + e == (a + b + c) + d + e
    ensures a + (b + c + d) + e == (a + b) + c + (d + e)
  {
  }

  lemma {:induction false} PlugInorder(path: Path, t: Tree)
    ensures Inorder(Plug(path, t)) == Before(path) + Inorder(t) + After(path)
    decreases path
  {
    match path
    case Top =>
    case InLeft(n, c, r, up) =>
      PlugInorder(up, Bin(t, n, c, r));
      Regroup(Before(up), Inorder(t), [n], Inorder(r), After(up));
    case InRight(l, n, c, up) =>
      PlugInorder(up, Bin(l, n, c, t));
      Regroup(Before(up), Inorder(l), [n], Inorder(t), After(up));
  }

  /** The in-order sequence around the node in focus. */
  lemma FocusInorder(path: Path, t: Tree)
    requires t.Bin?
    ensures Inorder(Plug(path, t)) == (Before(path) + Inorder(t.l)) + [t.n] + (Inorder(t.r) + After(path))
  {
    PlugInorder(path, t);
    Regroup(Before(path), Inorder(t.l), [t.n], Inorder(t.r), After(path));
  }

  lemma {:induction false} PlugNodes(path: Path, t: Tree)
    ensures Nodes(Plug(path, t)) == PathNodes(path) + Nodes(t)
    decreases path
  {
    if !path.Top? {
      PlugNodes(path.up, if path.InLeft? then Bin(t, path.n, path.c, path.r) else Bin(path.l, path.n, path.c, t));
    }
  }

  lemma {:induction false} PlugBin(path: Path, t: Tree)
    requires t.Bin?
    ensures Plug(path, t).Bin?
    decreases path
  {
    if !path.Top? {
      PlugBin(path.up, if path.InLeft? then Bin(t, path.n, path.c, path.r) else Bin(path.l, path.n, path.c, t));
    }
  }

  lemma InorderOne(n: Item)
    ensures Inorder(Leaf) == [] && Inorder(Bin(Leaf, n, Red, Leaf)) == [n]
  {
  }

  lemma PlugSameInorder(path: Path, t: Tree, t': Tree)
    requires Inorder(t) == Inorder(t')
    ensures Inorder(Plug(path, t)) == Inorder(Plug(path, t'))
  {
    PlugInorder(path, t);
    PlugInorder(path, t');
  }

  ghost function Ptrs(s: seq<Item>): set<Ptr>
  {
    set it | it in s :: it.ptr
  }

  lemma PtrsConcat(a: seq<Item>, n: Item, b: seq<Item>)
    ensures Ptrs(a + [n] + b) == Ptrs(a) + {n.ptr} + Ptrs(b)
    ensures Ptrs(a + b) == Ptrs(a) + Ptrs(b)
  {
    var s, s0 := a + [n] + b, a + b;
    forall p
      ensures p in Ptrs(s) <==> p in Ptrs(a) + {n.ptr} + Ptrs(b)
      ensures p in Ptrs(s0) <==> p in Ptrs(a) + Ptrs(b)
    {
      assert forall it :: it in s <==> it in a || it == n || it in b;
      assert forall it :: it in s0 <==> it in a || it in b;
      assert n in s;
    }
  }

  lemma {:induction false} InorderNodes(t: Tree)
    ensures Nodes(t) == Ptrs(Inorder(t))
  {
    if t.Bin? {
      InorderNodes(t.l);
      InorderNodes(t.r);
      PtrsConcat(Inorder(t.l), t.n, Inorder(t.r));
    }
  }

  // ----- depth

  ghost function Height(t: Tree): nat
  {
    if t.Leaf? then 0 else 1 + if Height(t.l) > Height(t.r) then Height(t.l) else Height(t.r)
  }

  ghost function Pow2(e: nat): nat
  {
    if e == 0 then 1 else 2 * Pow2(e - 1)
  }

  lemma {:induction false} HeightBound(t: Tree, h: nat)
    requires RB(t, h)
    ensures Height(t) <= 2 * h + if Col(t) == Red then 1 else 0
  {
    if t.Bin? {
      var h' := if t.c == Red then h else h - 1;
      HeightBound(t.l, h');
      HeightBound(t.r, h');
    }
  }

  lemma {:induction false} SizeBound(t: Tree, h: nat)
    requires RB(t, h)
    ensures |Inorder(t)| + 1 >= Pow2(h)
  {
    if t.Bin? {
      var h' := if t.c == Red then h else h - 1;
      SizeBound(t.l, h');
      SizeBound(t.r, h');
    }
  }

  lemma {:induction false} Pow2Monotone(a: nat, b: nat)
    requires a <= b
    ensures Pow2(a) <= Pow2(b)
    decreases b
  {
    if a < b {
      Pow2Monotone(a, b - 1);
    }
  }

  lemma {:induction false} Pow2Double(h: nat)
    ensures Pow2(2 * h) == Pow2(h) * Pow2(h)
  {
    if h > 0 {
      Pow2Double(h - 1);
      assert Pow2(2 * h) == 4 * Pow2(2 * (h - 1));
    }
  }

  /** Height at most 2 * log2(size + 1): two to the height is at most (size + 1) squared. */
  lemma LogarithmicHeight(t: Tree)
    requires Balanced(t)
    ensures Pow2(Height(t)) <= (|Inorder(t)| + 1) * (|Inorder(t)| + 1)
  {
    var h, n := BlackHeight(t), |Inorder(t)| + 1;
    HeightBound(t, h);
    SizeBound(t, h);
    Pow2Monotone(Height(t), 2 * h);
    Pow2Double(h);
    MulMonotone(Pow2(h), n);
  }

  lemma MulMonotone(a: nat, b: nat)
    requires a <= b
    ensures a * a <= b * b
  {
    assert a * a <= a * b <= b * b;
  }

  // ----- memory: cells that hold a tree

  /** The pointer a tree hangs by. */
  ghost function Ref(t: Tree): Ptr
  {
    if t.Leaf? then NIL else t.n.ptr
  }

  /** The node above the hole. */
  ghost function Above(path: Path): Ptr
  {
    if path.Top? then NIL else path.n.ptr
  }

  ghost function CellOf(n: Item, c: Color, p: Ptr, l: Ptr, r: Ptr): Node
  {
    Node(n.key, n.value, p, l, r, c)
  }

  ghost predicate Holds(m: Memory, n: Item, c: Color, p: Ptr, l: Ptr, r: Ptr)
  {
    n.ptr in m && m[n.ptr] == CellOf(n, c, p, l, r)
  }

  /** m holds the tree t under the parent p: child links, mirrored parent links, colours, keys. */
  ghost predicate Fits(m: Memory, t: Tree, p: Ptr)
  {
    t.Bin? ==>
      && Holds(m, t.n, t.c, p, Ref(t.l), Ref(t.r))
      && Fits(m, t.l, t.n.ptr) && Fits(m, t.r, t.n.ptr)
  }

  /** m holds everything around the hole, in which `child` hangs. */
  ghost predicate FitsPath(m: Memory, path: Path, child: Ptr, root: Ptr)
  {
    match path
    case Top => root == child
    case InLeft(n, c, r, up) =>
      && Holds(m, n, c, Above(up), child, Ref(r))
      && Fits(m, r, n.ptr) && FitsPath(m, up, n.ptr, root)
    case InRight(l, n, c, up) =>
      && Holds(m, n, c, Above(up), Ref(l), child)
      && Fits(m, l, n.ptr) && FitsPath(m, up, n.ptr, root)
  }

  /** m is exactly the tree Plug(path, t), seen from the end of path. */
  ghost predicate Zip(m: Memory, path: Path, t: Tree, root: Ptr)
  {
    && NIL !in Nodes(t) && NIL !in PathNodes(path)
    && Distinct(t) && PathDistinct(path) && Nodes(t) !! PathNodes(path)
    && Fits(m, t, Above(path))
    && FitsPath(m, path, Ref(t), root)
  }

  ghost predicate Agree(m: Memory, m': Memory, s: set<Ptr>)
  {
    forall p :: p in s && p in m ==> p in m' && m'[p] == m[p]
  }

  lemma {:induction false} FitsFrame(m: Memory, m': Memory, t: Tree, p: Ptr)
    requires Fits(m, t, p) && Agree(m, m', Nodes(t))
    ensures Fits(m', t, p)
  {
    if t.Bin? {
      FitsFrame(m, m', t.l, t.n.ptr);
      FitsFrame(m, m', t.r, t.n.ptr);
    }
  }

  lemma {:induction false} FitsPathFrame(m: Memory, m': Memory, path: Path, child: Ptr, root: Ptr)
    requires FitsPath(m, path, child, root) && Agree(m, m', PathNodes(path))
    ensures FitsPath(m', path, child, root)
  {
    match path
    case Top =>
    case InLeft(n, _, r, up) =>
      FitsFrame(m, m', r, n.ptr);
      FitsPathFrame(m, m', up, n.ptr, root);
    case InRight(l, n, _, up) =>
      FitsFrame(m, m', l, n.ptr);
      FitsPathFrame(m, m', up, n.ptr, root);
  }

  /** Moving the focus one step up or down changes nothing. */
  lemma ZipUp(m: Memory, path: Path, t: Tree, root: Ptr)
    requires !path.Top?
    ensures Zip(m, path, t, root) <==>
            Zip(m, path.up, if path.InLeft? then Bin(t, path.n, path.c, path.r) else Bin(path.l, path.n, path.c, t), root)
  {
  }

  /** Every focus on a tree is the tree as a whole. */
  lemma {:induction false} ZipPlug(m: Memory, path: Path, t: Tree, root: Ptr)
    ensures Zip(m, path, t, root) <==> Zip(m, Top, Plug(path, t), root)
    decreases path
  {
    if !path.Top? {
      ZipUp(m, path, t, root);
      ZipPlug(m, path.up, if path.InLeft? then Bin(t, path.n, path.c, path.r) else Bin(path.l, path.n, path.c, t), root);
    }
  }

  /** m is exactly the tree t hanging from root. */
  ghost predicate Whole(m: Memory, t: Tree, root: Ptr)
  {
    Zip(m, Top, t, root)
  }

  /** What the cells around a position hold: the node in focus, the one above it and its sibling. */
  lemma Look(m: Memory, path: Path, t: Tree, root: Ptr)
    requires Whole(m, Plug(path, t), root)
    ensures t.Bin? ==> t.n.ptr != NIL && Holds(m, t.n, t.c, Above(path), Ref(t.l), Ref(t.r))
    ensures t.Bin? ==> (t.l.Bin? ==> Ref(t.l) != NIL) && (t.r.Bin? ==> Ref(t.r) != NIL)
    ensures path.InLeft? ==> path.n.ptr != NIL && Holds(m, path.n, path.c, Above(path.up), Ref(t), Ref(path.r))
    ensures path.InRight? ==> path.n.ptr != NIL && Holds(m, path.n, path.c, Above(path.up), Ref(path.l), Ref(t))
    ensures !path.Top? ==> var s := Side(path);
                           && (t.Bin? ==> Ref(t) != Ref(s) && Ref(t) != path.n.ptr)
                           && (s.Bin? ==> Ref(t) != Ref(s) && s.n.ptr != NIL && Holds(m, s.n, s.c, path.n.ptr, Ref(s.l), Ref(s.r)))
    ensures path.Top? ==> root == Ref(t)
    ensures !path.Top? ==> root != Ref(t)
  {
    ZipPlug(m, path, t, root);
    RootOnPath(m, path, Ref(t), root);
  }

  lemma {:induction false} RootOnPath(m: Memory, path: Path, child: Ptr, root: Ptr)
    requires FitsPath(m, path, child, root)
    ensures path.Top? ==> root == child
    ensures !path.Top? ==> root in PathNodes(path)
    decreases path
  {
    if !path.Top? {
      RootOnPath(m, path.up, path.n.ptr, root);
    }
  }

  /** Everything else unchanged, the tree t now hangs under p'. */
  lemma Reparented(m: Memory, m': Memory, t: Tree, p: Ptr, p': Ptr)
    requires Fits(m, t, p) && Distinct(t)
    requires t.Bin? ==> Holds(m', t.n, t.c, p', Ref(t.l), Ref(t.r))
    requires Agree(m, m', Nodes(t) - {Ref(t)})
    ensures Fits(m', t, p')
  {
    if t.Bin? {
      FitsFrame(m, m', t.l, t.n.ptr);
      FitsFrame(m, m', t.r, t.n.ptr);
    }
  }

  /** The slot above the hole (or the root pointer) now holds child'. */
  ghost predicate Rehung(m': Memory, path: Path, child': Ptr, root: Ptr, root': Ptr)
  {
    match path
    case Top => root' == child'
    case InLeft(n, c, r, up) => root' == root && Holds(m', n, c, Above(up), child', Ref(r))
    case InRight(l, n, c, up) => root' == root && Holds(m', n, c, Above(up), Ref(l), child')
  }

  lemma RehungFits(m: Memory, m': Memory, path: Path, child: Ptr, child': Ptr, root: Ptr, root': Ptr)
    requires FitsPath(m, path, child, root) && PathDistinct(path)
    requires Rehung(m', path, child', root, root') && Agree(m, m', PathNodes(path) - {Above(path)})
    ensures FitsPath(m', path, child', root')
  {
    match path
    case Top =>
    case InLeft(n, _, r, up) =>
      FitsFrame(m, m', r, n.ptr);
      FitsPathFrame(m, m', up, n.ptr, root);
    case InRight(l, n, _, up) =>
      FitsFrame(m, m', l, n.ptr);
      FitsPathFrame(m, m', up, n.ptr, root);
  }

  // ----- rotations

  ghost function RotL(t: Tree): Tree
    requires t.Bin? && t.r.Bin?
  {
    Bin(Bin(t.l, t.n, t.c, t.r.l), t.r.n, t.r.c, t.r.r)
  }

  ghost function RotR(t: Tree): Tree
    requires t.Bin? && t.l.Bin?
  {
    Bin(t.l.l, t.l.n, t.l.c, Bin(t.l.r, t.n, t.c, t.r))
  }

  lemma RotInorder(a: Tree, x: Item, b: Tree, y: Item, d: Tree, c1: Color, c2: Color, c3: Color, c4: Color)
    ensures Inorder(Bin(Bin(a, x, c1, b), y, c2, d)) == Inorder(Bin(a, x, c3, Bin(b, y, c4, d)))
  {
    Regroup(Inorder(a) + [x], Inorder(b), [y], Inorder(d), []);
  }

  lemma RotDistinct(a: Tree, x: Item, b: Tree, y: Item, d: Tree, cx: Color, cy: Color)
    ensures var t, t' := Bin(a, x, cx, Bin(b, y, cy, d)), Bin(Bin(a, x, cx, b), y, cy, d);
            Nodes(t) == Nodes(t') && (Distinct(t) <==> Distinct(t'))
  {
    var r, l := Bin(b, y, cy, d), Bin(a, x, cx, b);
    assert Nodes(r) == Nodes(b) + {y.ptr} + Nodes(d) && Nodes(l) == Nodes(a) + {x.ptr} + Nodes(b);
    assert Distinct(r) <==> y.ptr !in Nodes(b) && y.ptr !in Nodes(d) && Nodes(b) !! Nodes(d) && Distinct(b) && Distinct(d);
    assert Distinct(l) <==> x.ptr !in Nodes(a) && x.ptr !in Nodes(b) && Nodes(a) !! Nodes(b) && Distinct(a) && Distinct(b);
  }

  /** The effect of a left rotation at x on the links is a left rotation of the tree. */
  lemma RotatedLeft(m: Memory, m': Memory, path: Path, a: Tree, x: Item, b: Tree, y: Item, d: Tree, cx: Color, cy: Color,
                    root: Ptr, root': Ptr)
    requires Zip(m, path, Bin(a, x, cx, Bin(b, y, cy, d)), root)
    requires Holds(m', x, cx, y.ptr, Ref(a), Ref(b)) && Holds(m', y, cy, Above(path), x.ptr, Ref(d))
    requires b.Bin? ==> Holds(m', b.n, b.c, x.ptr, Ref(b.l), Ref(b.r))
    requires Rehung(m', path, y.ptr, root, root')
    requires forall p :: p in m && p !in {x.ptr, y.ptr, Ref(b), Above(path)} ==> p in m' && m'[p] == m[p]
    ensures Zip(m', path, Bin(Bin(a, x, cx, b), y, cy, d), root')
  {
    var r := Bin(b, y, cy, d);
    assert Fits(m, r, x.ptr) && Distinct(r);
    FitsFrame(m, m', a, x.ptr);
    Reparented(m, m', b, y.ptr, x.ptr);
    FitsFrame(m, m', d, y.ptr);
    RehungFits(m, m', path, x.ptr, y.ptr, root, root');
    RotDistinct(a, x, b, y, d, cx, cy);
  }

  lemma RotatedRight(m: Memory, m': Memory, path: Path, a: Tree, x: Item, b: Tree, y: Item, d: Tree, cx: Color, cy: Color,
                     root: Ptr, root': Ptr)
    requires Zip(m, path, Bin(Bin(a, x, cx, b), y, cy, d), root)
    requires Holds(m', y, cy, x.ptr, Ref(b), Ref(d)) && Holds(m', x, cx, Above(path), Ref(a), y.ptr)
    requires b.Bin? ==> Holds(m', b.n, b.c, y.ptr, Ref(b.l), Ref(b.r))
    requires Rehung(m', path, x.ptr, root, root')
    requires forall p :: p in m && p !in {x.ptr, y.ptr, Ref(b), Above(path)} ==> p in m' && m'[p] == m[p]
    ensures Zip(m', path, Bin(a, x, cx, Bin(b, y, cy, d)), root')
  {
    var l := Bin(a, x, cx, b);
    assert Fits(m, l, y.ptr) && Distinct(l);
    FitsFrame(m, m', d, y.ptr);
    Reparented(m, m', b, x.ptr, y.ptr);
    FitsFrame(m, m', a, x.ptr);
    RehungFits(m, m', path, y.ptr, x.ptr, root, root');
    RotDistinct(a, x, b, y, d, cx, cy);
  }

  /** Recolouring the node in focus. */
  lemma Recolored(m: Memory, m': Memory, path: Path, t: Tree, c: Color, root: Ptr)
    requires Zip(m, path, t, root) && t.Bin?
    requires m' == m[t.n.ptr := m[t.n.ptr].(color := c)]
    ensures Zip(m', path, t.(c := c), root)
  {
    FitsFrame(m, m', t.l, t.n.ptr);
    FitsFrame(m, m', t.r, t.n.ptr);
    FitsPathFrame(m, m', path, t.n.ptr, root);
  }

  /** Hanging a fresh node into an empty slot. */
  lemma Attached(m: Memory, m': Memory, path: Path, z: Item, root: Ptr, root': Ptr)
    requires Zip(m, path, Leaf, root) && z.ptr !in PathNodes(path) && z.ptr != NIL
    requires Holds(m', z, Red, Above(path), NIL, NIL) && Rehung(m', path, z.ptr, root, root')
    requires forall p :: p in m && p !in {z.ptr, Above(path)} ==> p in m' && m'[p] == m[p]
    ensures Zip(m', path, Bin(Leaf, z, Red, Leaf), root')
  {
    RehungFits(m, m', path, NIL, z.ptr, root, root');
  }

  lemma WholeFrame(m: Memory, m': Memory, t: Tree, root: Ptr)
    requires Whole(m, t, root) && Agree(m, m', Nodes(t))
    ensures Whole(m', t, root)
  {
    FitsFrame(m, m', t, NIL);
  }

  lemma {:induction false} FreshExists(s: set<Ptr>)
    ensures exists p :: p != NULL && p !in s
  {
    var bound := UpperBound(s + {NULL});
    assert bound !in s && bound != NULL;
  }

  lemma {:induction false} UpperBound(s: set<Ptr>) returns (b: Ptr)
    ensures forall p :: p in s ==> p < b
    decreases s
  {
    if p :| p in s {
      b := UpperBound(s - {p});
      b := if p < b then b else p + 1;
      assert s == (s - {p}) + {p};
    } else {
      b := 0;
    }
  }

  // ----- order

  /** The comparison function orders the keys in the three-way style of C. Different keys may
      compare equal. */
  ghost predicate TotalOrder(compare: (Key, Key) -> int)
  {
    && (forall a :: compare(a, a) == 0)
    && (forall a, b :: compare(a, b) < 0 <==> compare(b, a) > 0)
    && (forall a, b, c :: compare(a, b) < 0 && compare(b, c) <= 0 ==> compare(a, c) < 0)
    && (forall a, b, c :: compare(a, b) <= 0 && compare(b, c) < 0 ==> compare(a, c) < 0)
  }

  ghost predicate Ascending(s: seq<Item>, compare: (Key, Key) -> int)
  {
    forall i, j :: 0 <= i < j < |s| ==> compare(s[i].key, s[j].key) < 0
  }

  ghost predicate AllBelow(s: seq<Item>, key: Key, compare: (Key, Key) -> int)
  {
    forall i :: 0 <= i < |s| ==> compare(s[i].key, key) < 0
  }

  ghost predicate AllAbove(s: seq<Item>, key: Key, compare: (Key, Key) -> int)
  {
    forall i :: 0 <= i < |s| ==> compare(key, s[i].key) < 0
  }

  lemma Less(a: Key, b: Key, compare: (Key, Key) -> int)
    requires TotalOrder(compare)
    ensures a == b ==> compare(a, b) == 0
    ensures compare(a, b) < 0 <==> compare(b, a) > 0
    ensures compare(a, b) == 0 <==> compare(b, a) == 0
  {
    assert compare(b, a) < 0 <==> compare(a, b) > 0;
  }

  lemma Transitive(a: Key, b: Key, c: Key, compare: (Key, Key) -> int)
    requires TotalOrder(compare) && compare(a, b) <= 0 && compare(b, c) <= 0 && (compare(a, b) < 0 || compare(b, c) < 0)
    ensures compare(a, c) < 0
  {
  }

  lemma AscendingParts(a: seq<Item>, n: Item, b: seq<Item>, compare: (Key, Key) -> int)
    requires Ascending(a + [n] + b, compare)
    ensures Ascending(a + b, compare) && AllBelow(a, n.key, compare) && AllAbove(b, n.key, compare)
  {
    var s, s0 := a + [n] + b, a + b;
    assert s[|a|] == n;
    forall i, j | 0 <= i < j < |s0|
      ensures compare(s0[i].key, s0[j].key) < 0
    {
      var i', j' := if i < |a| then i else i + 1, if j < |a| then j else j + 1;
      assert s0[i] == s[i'] && s0[j] == s[j'];
    }
    forall i | 0 <= i < |b|
      ensures compare(n.key, b[i].key) < 0
    {
      assert s[|a| + 1 + i] == b[i];
    }
    forall i | 0 <= i < |a|
      ensures compare(a[i].key, n.key) < 0
    {
      assert s[i] == a[i];
    }
  }

  lemma AscendingJoin(a: seq<Item>, n: Item, b: seq<Item>, compare: (Key, Key) -> int)
    requires Ascending(a + b, compare) && AllBelow(a, n.key, compare) && AllAbove(b, n.key, compare)
    ensures Ascending(a + [n] + b, compare)
  {
    var s, s0 := a + [n] + b, a + b;
    assert s[|a|] == n;
    forall i, j | 0 <= i < j < |s|
      ensures compare(s[i].key, s[j].key) < 0
    {
      if i == |a| {
        assert s[j] == b[j - |a| - 1];
      } else if j != |a| {
        var i', j' := if i < |a| then i else i - 1, if j < |a| then j else j - 1;
        assert s0[i'] == s[i] && s0[j'] == s[j];
      }
    }
  }

  /** The position (path, t) is where key belongs: everything before the hole is smaller, everything after larger. */
  ghost predicate Around(path: Path, key: Key, compare: (Key, Key) -> int)
  {
    AllBelow(Before(path), key, compare) && AllAbove(After(path), key, compare)
  }

  /** Comparing with the node in focus tells which way to go down. */
  lemma Descend(path: Path, t: Tree, key: Key, compare: (Key, Key) -> int)
    requires TotalOrder(compare) && t.Bin? && Around(path, key, compare) && Ascending(Inorder(Plug(path, t)), compare)
    ensures compare(key, t.n.key) < 0 ==> Around(InLeft(t.n, t.c, t.r, path), key, compare)
    ensures compare(key, t.n.key) > 0 ==> Around(InRight(t.l, t.n, t.c, path), key, compare)
  {
    hide TotalOrder;
    FocusInorder(path, t);
    var a, b := Before(path) + Inorder(t.l), Inorder(t.r) + After(path);
    AscendingParts(a, t.n, b, compare);
    Less(t.n.key, key, compare);
    if compare(key, t.n.key) < 0 {
      assert After(InLeft(t.n, t.c, t.r, path)) == [t.n] + b;
      forall i | 0 <= i < |b|
        ensures compare(key, b[i].key) < 0
      {
        Transitive(key, t.n.key, b[i].key, compare);
      }
    } else if compare(key, t.n.key) > 0 {
      assert Before(InRight(t.l, t.n, t.c, path)) == a + [t.n];
      forall i | 0 <= i < |a|
        ensures compare(a[i].key, key) < 0
      {
        Transitive(a[i].key, t.n.key, key, compare);
      }
    }
  }

  ghost predicate HasKey(s: seq<Item>, k: Key)
  {
    exists i :: 0 <= i < |s| && s[i].key == k
  }

  ghost predicate KeysDiffer(s: seq<Item>)
  {
    forall i, j :: 0 <= i < j < |s| ==> s[i].key != s[j].key
  }

  lemma AscendingDiffer(s: seq<Item>, compare: (Key, Key) -> int)
    requires TotalOrder(compare) && Ascending(s, compare)
    ensures KeysDiffer(s)
  {
    hide TotalOrder;
    forall i, j | 0 <= i < j < |s|
      ensures s[i].key != s[j].key
    {
      Less(s[i].key, s[j].key, compare);
    }
  }

  /** The entries of an ascending sequence as a finite map. */
  ghost function Entries(s: seq<Item>): map<Key, Value>
  {
    if s == [] then map[] else Entries(s[..|s| - 1])[s[|s| - 1].key := s[|s| - 1].value]
  }

  lemma {:induction false} EntriesAt(s: seq<Item>)
    requires KeysDiffer(s)
    ensures forall k :: k in Entries(s) <==> HasKey(s, k)
    ensures forall i :: 0 <= i < |s| ==> s[i].key in Entries(s) && Entries(s)[s[i].key] == s[i].value
    ensures |Entries(s)| == |s|
  {
    if s != [] {
      var k := |s| - 1;
      var s0 := s[..k];
      EntriesAt(s0);
      assert forall i :: 0 <= i < k ==> s0[i] == s[i];
      assert !HasKey(s0, s[k].key);
      forall q
        ensures q in Entries(s) <==> HasKey(s, q)
      {
        if HasKey(s0, q) {
          var i :| 0 <= i < k && s0[i].key == q;
          assert s[i].key == q;
        } else if HasKey(s, q) {
          var i :| 0 <= i < |s| && s[i].key == q;
          assert i == k || s0[i].key == q;
        }
        assert s[k].key == q ==> HasKey(s, q);
      }
    }
  }

  lemma EntriesExtensional(s: seq<Item>, e: map<Key, Value>)
    requires KeysDiffer(s)
    requires forall k :: k in e ==> HasKey(s, k)
    requires forall i :: 0 <= i < |s| ==> s[i].key in e && e[s[i].key] == s[i].value
    ensures Entries(s) == e
  {
    EntriesAt(s);
    forall k
      ensures k in e <==> k in Entries(s)
      ensures k in e ==> Entries(s)[k] == e[k]
    {
      if HasKey(s, k) {
        var i :| 0 <= i < |s| && s[i].key == k;
      }
    }
  }

  /** The key that an entry equal to the given key is stored under, or that key if there is none. */
  ghost function Slot(e: map<Key, Value>, key: Key, compare: (Key, Key) -> int): Key
  {
    if exists k :: k in e && compare(key, k) == 0 then var k :| k in e && compare(key, k) == 0; k else key
  }

  /** Where no two keys compare equal it is the key itself. */
  lemma SlotExact(e: map<Key, Value>, key: Key, compare: (Key, Key) -> int)
    requires forall a, b :: compare(a, b) == 0 ==> a == b
    ensures Slot(e, key, compare) == key
  {
  }

  /** In a search tree there is at most one entry equal to a key. */
  lemma SlotOf(s: seq<Item>, i: nat, key: Key, compare: (Key, Key) -> int)
    requires TotalOrder(compare) && Ascending(s, compare) && i < |s| && compare(key, s[i].key) == 0
    ensures s[i].key in Entries(s) && Entries(s)[s[i].key] == s[i].value && Slot(Entries(s), key, compare) == s[i].key
  {
    hide TotalOrder, Ascending, Entries;
    AscendingDiffer(s, compare);
    EntriesAt(s);
    var k := Slot(Entries(s), key, compare);
    assert k in Entries(s) && compare(key, k) == 0;
    var j :| 0 <= j < |s| && s[j].key == k;
    if j != i {
      AscendingEqual(s, if i < j then i else j, if i < j then j else i, key, compare);
    }
  }

  /** Two entries of a search tree do not both compare equal to a key. */
  lemma AscendingEqual(s: seq<Item>, i: nat, j: nat, key: Key, compare: (Key, Key) -> int)
    requires TotalOrder(compare) && Ascending(s, compare) && i < j < |s|
    ensures compare(key, s[i].key) != 0 || compare(key, s[j].key) != 0
  {
    hide TotalOrder;
    Less(key, s[i].key, compare);
    Less(key, s[j].key, compare);
    if compare(key, s[i].key) == 0 && compare(key, s[j].key) == 0 {
      Transitive(key, s[i].key, s[j].key, compare);
    }
  }

  /** The node in focus is the entry of every key that compares equal to its own. */
  lemma FocusSlot(path: Path, t: Tree, key: Key, compare: (Key, Key) -> int)
    requires TotalOrder(compare) && t.Bin? && Ascending(Inorder(Plug(path, t)), compare) && compare(key, t.n.key) == 0
    ensures var e := Entries(Inorder(Plug(path, t)));
            t.n.key in e && e[t.n.key] == t.n.value && Slot(e, key, compare) == t.n.key
  {
    hide TotalOrder, Ascending, Entries, Slot;
    FocusInorder(path, t);
    var i := |Before(path) + Inorder(t.l)|;
    assert Inorder(Plug(path, t))[i] == t.n;
    SlotOf(Inorder(Plug(path, t)), i, key, compare);
  }

  /** A key that belongs into an empty slot is not an entry, and none compares equal to it. */
  lemma FocusAbsent(path: Path, key: Key, compare: (Key, Key) -> int)
    requires TotalOrder(compare) && Around(path, key, compare) && KeysDiffer(Inorder(Plug(path, Leaf)))
    ensures var e := Entries(Inorder(Plug(path, Leaf))); key !in e && Slot(e, key, compare) == key
  {
    hide TotalOrder;
    var s := Inorder(Plug(path, Leaf));
    PlugInorder(path, Leaf);
    EntriesAt(s);
    assert s == Before(path) + After(path);
    forall i | 0 <= i < |s|
      ensures s[i].key != key && compare(key, s[i].key) != 0
    {
      assert s[i] == if i < |Before(path)| then Before(path)[i] else After(path)[i - |Before(path)|];
      Less(s[i].key, key, compare);
      Less(key, s[i].key, compare);
    }
    hide Entries;
    forall k | k in Entries(s)
      ensures compare(key, k) != 0
    {
      var i :| 0 <= i < |s| && s[i].key == k;
    }
  }

  /** Adding an item between its neighbours adds one entry; no other entry changes. */
  lemma EntriesInsert(a: seq<Item>, n: Item, b: seq<Item>)
    requires KeysDiffer(a + [n] + b)
    ensures KeysDiffer(a + b) && n.key !in Entries(a + b)
    ensures Entries(a + [n] + b) == Entries(a + b)[n.key := n.value]
  {
    var s, s0 := a + [n] + b, a + b;
    assert s[|a|] == n;
    forall i | 0 <= i < |s0|
      ensures s0[i].key != n.key
      ensures forall j :: i < j < |s0| ==> s0[i].key != s0[j].key
    {
      var i' := if i < |a| then i else i + 1;
      assert s0[i] == s[i'];
      forall j | i < j < |s0|
        ensures s0[i].key != s0[j].key
      {
        assert s0[j] == s[if j < |a| then j else j + 1];
      }
    }
    EntriesAt(s0);
    assert !HasKey(s0, n.key);
    var e := Entries(s0)[n.key := n.value];
    forall i | 0 <= i < |s|
      ensures s[i].key in e && e[s[i].key] == s[i].value
    {
      if i != |a| {
        assert s[i] == s0[if i < |a| then i else i - 1];
      }
    }
    forall k | k in e
      ensures HasKey(s, k)
    {
      if k == n.key {
        assert s[|a|].key == k;
      } else {
        assert HasKey(s0, k);
        var i :| 0 <= i < |s0| && s0[i].key == k;
        assert s[if i < |a| then i else i + 1].key == k;
      }
    }
    EntriesExtensional(s, e);
  }

  /** What an insertion does to the nodes, the order and the entries of a tree. */
  lemma InsertedContents(t: Tree, t': Tree, a: seq<Item>, n: Item, b: seq<Item>, compare: (Key, Key) -> int)
    requires TotalOrder(compare) && Ascending(Inorder(t), compare)
    requires Inorder(t) == a + b && Inorder(t') == a + [n] + b
    requires AllBelow(a, n.key, compare) && AllAbove(b, n.key, compare)
    ensures Ascending(Inorder(t'), compare) && Nodes(t') == Nodes(t) + {n.ptr}
    ensures n.key !in Entries(Inorder(t)) && Entries(Inorder(t')) == Entries(Inorder(t))[n.key := n.value]
  {
    hide *;
    AscendingJoin(a, n, b, compare);
    AscendingDiffer(a + [n] + b, compare);
    EntriesInsert(a, n, b);
    InorderNodes(t);
    InorderNodes(t');
    PtrsConcat(a, n, b);
  }

  /** A new node hung into the slot where its key belongs. */
  lemma HungContents(path: Path, n: Item, t': Tree, compare: (Key, Key) -> int)
    requires TotalOrder(compare) && Ascending(Inorder(Plug(path, Leaf)), compare) && Around(path, n.key, compare)
    requires Inorder(t') == Inorder(Plug(path, Bin(Leaf, n, Red, Leaf)))
    ensures var t := Plug(path, Leaf);
            && Ascending(Inorder(t'), compare) && Nodes(t') == Nodes(t) + {n.ptr} && |Inorder(t')| == |Inorder(t)| + 1
            && n.key !in Entries(Inorder(t)) && Entries(Inorder(t')) == Entries(Inorder(t))[n.key := n.value]
  {
    hide TotalOrder, Ascending, Entries, Nodes, Plug, Inorder;
    PlugInorder(path, Leaf);
    PlugInorder(path, Bin(Leaf, n, Red, Leaf));
    InorderOne(n);
    InsertedContents(Plug(path, Leaf), t', Before(path), n, After(path), compare);
  }

  /** What a removal does to them. */
  lemma RemovedContents(t: Tree, t': Tree, a: seq<Item>, n: Item, b: seq<Item>, compare: (Key, Key) -> int)
    requires TotalOrder(compare) && Ascending(Inorder(t), compare) && Distinct(t)
    requires Inorder(t) == a + [n] + b && Inorder(t') == a + b
    ensures Ascending(Inorder(t'), compare) && Nodes(t') == Nodes(t) - {n.ptr}
    ensures n.key in Entries(Inorder(t)) && Entries(Inorder(t')) == Entries(Inorder(t)) - {n.key}
  {
    hide *;
    AscendingParts(a, n, b, compare);
    assert Nodes(t') == Nodes(t) - {n.ptr} by {
      InorderNodes(t);
      InorderNodes(t');
      PtrsConcat(a, n, b);
      PtrsOnce(t, a, n, b);
    }
    AscendingDiffer(a + [n] + b, compare);
    EntriesInsert(a, n, b);
    assert Entries(a + b)[n.key := n.value] - {n.key} == Entries(a + b);
  }

  /** In a tree without repeated nodes a node occurs once in the in-order sequence. */
  lemma {:induction false} PtrsOnce(t: Tree, a: seq<Item>, n: Item, b: seq<Item>)
    requires Distinct(t) && Inorder(t) == a + [n] + b
    ensures n.ptr !in Ptrs(a) && n.ptr !in Ptrs(b)
  {
    var s := Inorder(t);
    PtrsDiffer(t);
    assert s[|a|] == n;
    forall it | it in a
      ensures it.ptr != n.ptr
    {
      var i :| 0 <= i < |a| && a[i] == it;
      assert s[i] == it;
    }
    forall it | it in b
      ensures it.ptr != n.ptr
    {
      var i :| 0 <= i < |b| && b[i] == it;
      assert s[|a| + 1 + i] == it;
    }
  }

  lemma {:induction false} PtrsDiffer(t: Tree)
    requires Distinct(t)
    ensures forall i, j :: 0 <= i < j < |Inorder(t)| ==> Inorder(t)[i].ptr != Inorder(t)[j].ptr
  {
    if t.Bin? {
      PtrsDiffer(t.l);
      PtrsDiffer(t.r);
      InorderNodes(t.l);
      InorderNodes(t.r);
      var s, k := Inorder(t), |Inorder(t.l)|;
      forall i, j | 0 <= i < j < |s|
        ensures s[i].ptr != s[j].ptr
      {
        assert i < k ==> s[i] == Inorder(t.l)[i] && s[i].ptr in Nodes(t.l);
        assert i > k ==> s[i] == Inorder(t.r)[i - k - 1];
        assert j < k ==> s[j] == Inorder(t.l)[j];
        assert j > k ==> s[j] == Inorder(t.r)[j - k - 1] && s[j].ptr in Nodes(t.r);
      }
    }
  }

  // ----- erasure

  ghost function Blacken(t: Tree): Tree
  {
    if t.Leaf? then Leaf else t.(c := Black)
  }

  /** One black node short: t has h black nodes on every way down once a red root is discounted. */
  ghost predicate Short(t: Tree, h: nat)
  {
    if Col(t) == Red then RB(Blacken(t), h + 1) else RB(t, h)
  }

  /** The path followed by another one further out. */
  ghost function Cat(inner: Path, outer: Path): Path
  {
    match inner
    case Top => outer
    case InLeft(n, c, r, up) => InLeft(n, c, r, Cat(up, outer))
    case InRight(l, n, c, up) => InRight(l, n, c, Cat(up, outer))
  }

  lemma {:induction false} PlugCat(inner: Path, outer: Path, t: Tree)
    ensures Plug(Cat(inner, outer), t) == Plug(outer, Plug(inner, t))
    decreases inner
  {
    if !inner.Top? {
      PlugCat(inner.up, outer, if inner.InLeft? then Bin(t, inner.n, inner.c, inner.r) else Bin(inner.l, inner.n, inner.c, t));
    }
  }

  /** Only left turns: the way to the smallest node. */
  ghost predicate Spine(path: Path)
  {
    path.Top? || (path.InLeft? && Spine(path.up))
  }

  lemma {:induction false} SpineBefore(path: Path)
    requires Spine(path)
    ensures Before(path) == []
  {
    if !path.Top? {
      SpineBefore(path.up);
    }
  }

  lemma {:induction false} PlugDistinct(path: Path, t: Tree)
    ensures Distinct(Plug(path, t)) <==> Distinct(t) && PathDistinct(path) && Nodes(t) !! PathNodes(path)
    decreases path
  {
    if !path.Top? {
      PlugDistinct(path.up, if path.InLeft? then Bin(t, path.n, path.c, path.r) else Bin(path.l, path.n, path.c, t));
    }
  }

  /** Whose item stands at a place on the path does not matter for balance. */
  lemma {:induction false} PathRBCat(inner: Path, l: Tree, z: Item, y: Item, c: Color, outer: Path, h: nat)
    requires PathRB(Cat(inner, InRight(l, z, c, outer)), h)
    ensures PathRB(Cat(inner, InRight(l, y, c, outer)), h)
    ensures PathCol(Cat(inner, InRight(l, y, c, outer))) == PathCol(Cat(inner, InRight(l, z, c, outer)))
    decreases inner
  {
    if !inner.Top? {
      PathRBCat(inner.up, l, z, y, c, outer, if inner.c == Red then h else h + 1);
    }
  }

  /** Removing a node with an empty side: either the tree stays balanced or its other side is one short. */
  lemma UnlinkRB(path: Path, t: Tree, other: Tree) returns (h: nat)
    requires t.Bin? && Balanced(Plug(path, t))
    requires (t.l.Leaf? && other == t.r) || (t.r.Leaf? && other == t.l)
    ensures t.c == Red ==> Balanced(Plug(path, other))
    ensures t.c == Black ==> PathRB(path, h + 1) && Short(other, h)
  {
    h := UnplugRB(path, t);
    if t.c == Red {
      PlugRB(path, other, h);
    } else {
      h := h - 1;
    }
  }

  /** The last colour change of the fix-up restores balance. */
  lemma BlackenRB(path: Path, t: Tree, h: nat)
    requires PathRB(path, h + 1) && Short(t, h)
    requires path.Top? || Col(t) == Red
    ensures Balanced(Plug(path, Blacken(t)))
  {
    if Col(t) == Red {
      PlugRB(path, Blacken(t), h + 1);
    } else {
      RBHeight(t, h);
    }
  }

  lemma PlugBlacken(path: Path, t: Tree)
    ensures Inorder(Plug(path, Blacken(t))) == Inorder(Plug(path, t))
  {
    PlugSameInorder(path, t, Blacken(t));
  }

  lemma WholeBlackened(m: Memory, path: Path, t: Tree, root: Ptr)
    requires Whole(m, Plug(path, t), root) && NIL in m && m[NIL].color == Black
    ensures Ref(t) in m
    ensures Whole(m[Ref(t) := m[Ref(t)].(color := Black)], Plug(path, Blacken(t)), root)
  {
    ZipPlug(m, path, t, root);
    if t.Bin? {
      Recolored(m, m[Ref(t) := m[Ref(t)].(color := Black)], path, t, Black, root);
      ZipPlug(m[Ref(t) := m[Ref(t)].(color := Black)], path, Blacken(t), root);
    } else {
      assert m[NIL := m[NIL].(color := Black)] == m;
    }
  }

  /** The pieces left over while the successor y takes the place of z: the path to z, the left
      subtree l still under z, and the right subtree r already under y. */
  ghost predicate Detached(m: Memory, path: Path, l: Tree, z: Item, c: Color, y: Item, r: Tree, root: Ptr)
  {
    && FitsPath(m, path, z.ptr, root) && PathDistinct(path) && NIL !in PathNodes(path)
    && Distinct(Bin(l, y, c, r)) && NIL !in Nodes(Bin(l, y, c, r)) && Nodes(Bin(l, y, c, r)) !! PathNodes(path)
    && z.ptr != NIL && z.ptr !in PathNodes(path) && z.ptr !in Nodes(Bin(l, y, c, r))
    && z.ptr in m && m[z.ptr].parent == Above(path) && m[z.ptr].left == Ref(l) && m[z.ptr].color == c
    && y.ptr in m && m[y.ptr].key == y.key && m[y.ptr].value == y.value && m[y.ptr].right == Ref(r)
    && Fits(m, l, z.ptr) && Fits(m, r, y.ptr)
  }

  /** The successor is the right child itself. */
  lemma DetachedNear(m: Memory, m': Memory, path: Path, l: Tree, z: Item, c: Color, y: Item, cy: Color, yr: Tree, root: Ptr)
    requires Zip(m, path, Bin(l, z, c, Bin(Leaf, y, cy, yr)), root)
    requires Ref(yr) in m && m' == m[Ref(yr) := m[Ref(yr)].(parent := y.ptr)]
    ensures Detached(m', path, l, z, c, y, yr, root)
  {
    var r := Bin(Leaf, y, cy, yr);
    assert Fits(m, r, z.ptr) && Distinct(r) && Nodes(r) == {y.ptr} + Nodes(yr);
    FitsFrame(m, m', l, z.ptr);
    FitsFrame(m, m', yr, y.ptr);
    FitsPathFrame(m, m', path, z.ptr, root);
  }

  /** The successor y was deeper: yr took its place in r, giving r', and r' was hung under y. */
  lemma DetachedFar(m: Memory, m': Memory, path: Path, l: Tree, z: Item, c: Color, y: Item, r': Tree, root: Ptr)
    requires Zip(m, path, Bin(l, z, c, r'), root) && r'.Bin?
    requires y.ptr != NIL && y.ptr !in PathNodes(path) && y.ptr !in Nodes(Bin(l, z, c, r'))
    requires y.ptr in m && m[y.ptr].key == y.key && m[y.ptr].value == y.value
    requires m' == m[y.ptr := m[y.ptr].(right := Ref(r'))][Ref(r') := CellOf(r'.n, r'.c, y.ptr, Ref(r'.l), Ref(r'.r))]
    ensures Detached(m', path, l, z, c, y, r', root)
  {
    FitsFrame(m, m', l, z.ptr);
    Reparented(m, m', r', z.ptr, y.ptr);
    FitsPathFrame(m, m', path, z.ptr, root);
  }

  /** y hangs in z's slot and has taken over z's left subtree and colour. */
  lemma Spliced(m: Memory, m': Memory, path: Path, l: Tree, z: Item, c: Color, y: Item, r: Tree, root: Ptr, root': Ptr)
    requires Detached(m, path, l, z, c, y, r, root) && l.Bin?
    requires FitsPath(m', path, y.ptr, root')
    requires Holds(m', y, c, Above(path), Ref(l), Ref(r)) && Holds(m', l.n, l.c, y.ptr, Ref(l.l), Ref(l.r))
    requires forall p :: p in m && p !in PathNodes(path) && p != y.ptr && p != Ref(l) ==> p in m' && m'[p] == m[p]
    ensures Zip(m', path, Bin(l, y, c, r), root')
  {
    Reparented(m, m', l, z.ptr, y.ptr);
    FitsFrame(m, m', r, y.ptr);
  }

  /** The place of y in the tree, and what is left when its right subtree moves up into it. */
  lemma SuccessorPlace(path: Path, t: Tree, spine: Path, yt: Tree)
    requires t.Bin? && yt.Bin? && t.r == Plug(spine, yt) && Distinct(Plug(path, t)) && NIL !in Nodes(Plug(path, t))
    ensures var full, t' := Cat(spine, InRight(t.l, t.n, t.c, path)), Bin(t.l, t.n, t.c, Plug(spine, yt.r));
            && Plug(full, yt) == Plug(path, t) && Plug(full, yt.r) == Plug(path, t')
            && yt.n.ptr != NIL && yt.n.ptr !in PathNodes(path) && yt.n.ptr !in Nodes(t')
            && (!spine.Top? ==> spine.n.ptr != t.n.ptr)
    ensures Ref(yt.r) == NIL || Ref(yt.r) in Nodes(Plug(spine, yt.r))
    ensures !spine.Top? ==> Plug(spine, yt.r).Bin? && Ref(Plug(spine, yt.r)) != Ref(yt.r) && Ref(Plug(spine, yt.r)) != NIL
  {
    var outer := InRight(t.l, t.n, t.c, path);
    var full := Cat(spine, outer);
    PlugCat(spine, outer, yt);
    PlugCat(spine, outer, yt.r);
    PlugDistinct(full, yt);
    PlugNodes(full, yt);
    PlugNodes(full, yt.r);
    PlugNodes(path, Bin(t.l, t.n, t.c, Plug(spine, yt.r)));
    PlugNodes(spine, yt.r);
    CatNodes(spine, outer);
    if !spine.Top? {
      PlugTop(spine, yt.r);
    }
  }

  lemma {:induction false} CatNodes(inner: Path, outer: Path)
    ensures PathNodes(Cat(inner, outer)) == PathNodes(inner) + PathNodes(outer)
    ensures PathDistinct(Cat(inner, outer)) ==> PathNodes(inner) !! PathNodes(outer)
  {
    if !inner.Top? {
      CatNodes(inner.up, outer);
    }
  }

  lemma {:induction false} PlugTop(path: Path, t: Tree)
    requires !path.Top?
    ensures Plug(path, t).Bin? && Ref(Plug(path, t)) in PathNodes(path)
    decreases path
  {
    if !path.up.Top? {
      PlugTop(path.up, if path.InLeft? then Bin(t, path.n, path.c, path.r) else Bin(path.l, path.n, path.c, t));
    }
  }

  lemma WholeDistinct(m: Memory, t: Tree, root: Ptr)
    requires Whole(m, t, root)
    ensures Distinct(t) && NIL !in Nodes(t)
  {
  }

  lemma PlugStep(path: Path, t: Tree)
    requires t.Bin?
    ensures Plug(InRight(t.l, t.n, t.c, path), t.r) == Plug(path, t)
    ensures Plug(InLeft(t.n, t.c, t.r, path), t.l) == Plug(path, t)
  {
  }

  lemma UnlinkInorder(path: Path, t: Tree, other: Tree)
    requires t.Bin? && ((t.l.Leaf? && other == t.r) || (t.r.Leaf? && other == t.l))
    ensures Inorder(Plug(path, t)) == (Before(path) + Inorder(t.l)) + [t.n] + (Inorder(t.r) + After(path))
    ensures Inorder(Plug(path, other)) == (Before(path) + Inorder(t.l)) + (Inorder(t.r) + After(path))
  {
    FocusInorder(path, t);
    PlugInorder(path, other);
    Regroup(Before(path), Inorder(t.l), [], Inorder(t.r), After(path));
    assert Inorder(t.l) + [] + Inorder(t.r) == Inorder(other);
    assert Before(path) + Inorder(t.l) + [] == Before(path) + Inorder(t.l);
  }

  lemma SuccessorInorder(path: Path, t: Tree, spine: Path, yt: Tree)
    requires t.Bin? && t.r == Plug(spine, yt) && Spine(spine) && yt.Bin? && yt.l.Leaf?
    ensures Inorder(Plug(path, t)) == (Before(path) + Inorder(t.l)) + [t.n] + (Inorder(t.r) + After(path))
    ensures Inorder(Plug(Cat(spine, InRight(t.l, yt.n, t.c, path)), yt.r))
         == (Before(path) + Inorder(t.l)) + (Inorder(t.r) + After(path))
  {
    FocusInorder(path, t);
    PlugCat(spine, InRight(t.l, yt.n, t.c, path), yt.r);
    var t' := Bin(t.l, yt.n, t.c, Plug(spine, yt.r));
    FocusInorder(path, t');
    Shift(Before(path) + Inorder(t.l), [yt.n], Inorder(t'.r), After(path));
    SpineInorder(spine, yt);
  }

  /** The smallest node comes first. */
  lemma SpineInorder(spine: Path, yt: Tree)
    requires Spine(spine) && yt.Bin? && yt.l.Leaf?
    ensures Inorder(Plug(spine, yt)) == [yt.n] + Inorder(Plug(spine, yt.r))
  {
    SpineBefore(spine);
    PlugInorder(spine, yt);
    PlugInorder(spine, yt.r);
    Shift([], [yt.n], Inorder(yt.r), After(spine));
  }

  lemma Shift<T>(a: seq<T>, b: seq<T>, c: seq<T>, d: seq<T>)
    ensures a + b + (c + d) == a + ((b + c) + d)
  {
  }

  /** What is left after the successor moved up is balanced, or one black node short below it. */
  lemma SuccessorRB(path: Path, t: Tree, spine: Path, yt: Tree) returns (h: nat)
    requires t.Bin? && t.r == Plug(spine, yt) && yt.Bin? && yt.l.Leaf? && Balanced(Plug(path, t))
    ensures var full := Cat(spine, InRight(t.l, yt.n, t.c, path));
            && (yt.c == Red ==> Balanced(Plug(full, yt.r)))
            && (yt.c == Black ==> PathRB(full, h + 1) && Short(yt.r, h))
  {
    var outer, outer' := InRight(t.l, t.n, t.c, path), InRight(t.l, yt.n, t.c, path);
    PlugCat(spine, outer, yt);
    h := UnplugRB(Cat(spine, outer), yt);
    PathRBCat(spine, t.l, t.n, yt.n, t.c, path, h);
    if yt.c == Red {
      PlugRB(Cat(spine, outer'), yt.r, h);
    } else {
      h := h - 1;
    }
  }

  lemma SameNodes(t: Tree, t': Tree)
    requires Inorder(t) == Inorder(t')
    ensures Nodes(t) == Nodes(t')
  {
    InorderNodes(t);
    InorderNodes(t');
  }

  // ----- positions

  /** Every node of a tree can be put in focus. */
  lemma {:induction false} Locate(path: Path, t: Tree, p: Ptr) returns (path': Path, t': Tree)
    requires p in Nodes(t)
    ensures Plug(path', t') == Plug(path, t) && t'.Bin? && t'.n.ptr == p
    decreases t
  {
    if p == t.n.ptr {
      path', t' := path, t;
    } else if p in Nodes(t.l) {
      path', t' := Locate(InLeft(t.n, t.c, t.r, path), t.l, p);
    } else {
      path', t' := Locate(InRight(t.l, t.n, t.c, path), t.r, p);
    }
  }

  ghost predicate PtrsUnique(s: seq<Item>)
  {
    forall i, j :: 0 <= i < j < |s| ==> s[i].ptr != s[j].ptr
  }

  /** The node after p in the order of s, or the sentinel. */
  ghost function NextOf(s: seq<Item>, p: Ptr): Ptr
  {
    if s == [] then NIL
    else if s[0].ptr == p then (if |s| > 1 then s[1].ptr else NIL)
    else NextOf(s[1..], p)
  }

  /** The node before p in the order of s, or the sentinel. */
  ghost function PrevOf(s: seq<Item>, p: Ptr): Ptr
  {
    if |s| < 2 then NIL
    else if s[1].ptr == p then s[0].ptr
    else PrevOf(s[1..], p)
  }

  lemma {:induction false} NextAt(s: seq<Item>, i: nat)
    requires PtrsUnique(s) && i < |s|
    ensures NextOf(s, s[i].ptr) == if i + 1 < |s| then s[i + 1].ptr else NIL
  {
    if i > 0 {
      assert s[1..][i - 1] == s[i];
      NextAt(s[1..], i - 1);
    }
  }

  lemma {:induction false} PrevAt(s: seq<Item>, i: nat)
    requires PtrsUnique(s) && i < |s|
    ensures PrevOf(s, s[i].ptr) == if i > 0 then s[i - 1].ptr else NIL
    decreases |s|
  {
    if i > 1 {
      assert s[1..][i - 1] == s[i];
      PrevAt(s[1..], i - 1);
    } else if i == 0 && |s| >= 2 {
      PrevAbsent(s[1..], s[0].ptr);
    }
  }

  lemma {:induction false} PrevAbsent(s: seq<Item>, p: Ptr)
    requires forall i :: 0 <= i < |s| ==> s[i].ptr != p
    ensures PrevOf(s, p) == NIL
  {
    if |s| >= 2 {
      assert forall i :: 0 <= i < |s[1..]| ==> s[1..][i] == s[i + 1];
      PrevAbsent(s[1..], p);
    }
  }

  /** Going back undoes going forward between nodes of the tree, and the other way round. */
  lemma PrevUndoesNext(t: Tree, p: Ptr)
    requires Distinct(t) && NIL !in Nodes(t) && p in Nodes(t)
    ensures NextOf(Inorder(t), p) != NIL ==> PrevOf(Inorder(t), NextOf(Inorder(t), p)) == p
    ensures PrevOf(Inorder(t), p) != NIL ==> NextOf(Inorder(t), PrevOf(Inorder(t), p)) == p
  {
    var s := Inorder(t);
    PtrsDiffer(t);
    InorderNodes(t);
    var it :| it in s && it.ptr == p;
    var i :| 0 <= i < |s| && s[i] == it;
    NextAt(s, i);
    PrevAt(s, i);
    if i + 1 < |s| {
      PrevAt(s, i + 1);
    }
    if i > 0 {
      NextAt(s, i - 1);
    }
  }

  /** The neighbours of the node in focus. */
  lemma FocusNeighbours(path: Path, t: Tree)
    requires t.Bin? && Distinct(Plug(path, t))
    ensures var s, after, before := Inorder(Plug(path, t)), Inorder(t.r) + After(path), Before(path) + Inorder(t.l);
            && NextOf(s, t.n.ptr) == (if after == [] then NIL else after[0].ptr)
            && PrevOf(s, t.n.ptr) == (if before == [] then NIL else before[|before| - 1].ptr)
  {
    var s, k := Inorder(Plug(path, t)), |Before(path) + Inorder(t.l)|;
    FocusInorder(path, t);
    PtrsDiffer(Plug(path, t));
    assert s[k] == t.n;
    NextAt(s, k);
    PrevAt(s, k);
  }

  /** Only right turns: the way to the largest node. */
  ghost predicate RightSpine(path: Path)
  {
    path.Top? || (path.InRight? && RightSpine(path.up))
  }

  lemma {:induction false} RightSpineAfter(path: Path)
    requires RightSpine(path)
    ensures After(path) == []
  {
    if !path.Top? {
      RightSpineAfter(path.up);
    }
  }

  /** The largest node comes last. */
  lemma RightSpineInorder(spine: Path, t: Tree)
    requires RightSpine(spine) && t.Bin? && t.r.Leaf?
    ensures var s := Inorder(Plug(spine, t)); s != [] && s[|s| - 1] == t.n
  {
    RightSpineAfter(spine);
    FocusInorder(spine, t);
  }

  /** What the memory holds for the i-th node in key order. */
  lemma ItemCell(m: Memory, t: Tree, root: Ptr, i: nat)
    requires Whole(m, t, root) && i < |Inorder(t)|
    ensures var n := Inorder(t)[i];
            && n.ptr in m && m[n.ptr].key == n.key && m[n.ptr].value == n.value
            && n.ptr in Nodes(t) && n.ptr != NIL
            && NextOf(Inorder(t), n.ptr) == if i + 1 < |Inorder(t)| then Inorder(t)[i + 1].ptr else NIL
  {
    var s := Inorder(t);
    InorderNodes(t);
    assert s[i] in s && s[i].ptr in Ptrs(s);
    var path, t' := Locate(Top, t, s[i].ptr);
    Look(m, path, t', root);
    FocusInorder(path, t');
    PtrsDiffer(t);
    NextAt(s, i);
    assert s[|Before(path) + Inorder(t'.l)|] == t'.n;
  }

  lemma Traversed(s: seq<Item>, keys: seq<Key>, compare: (Key, Key) -> int)
    requires TotalOrder(compare) && Ascending(s, compare)
    requires |keys| == |s| && forall i :: 0 <= i < |s| ==> keys[i] == s[i].key
    ensures |keys| == |Entries(s)|
    ensures forall i, j :: 0 <= i < j < |keys| ==> compare(keys[i], keys[j]) < 0
    ensures forall k :: k in keys <==> k in Entries(s)
  {
    hide TotalOrder;
    assert |keys| == |Entries(s)| && forall k :: k in keys <==> k in Entries(s) by {
      hide Ascending, Entries;
      AscendingDiffer(s, compare);
      EntriesAt(s);
      forall k
        ensures k in keys <==> HasKey(s, k)
      {
        if k in keys {
          var i :| 0 <= i < |keys| && keys[i] == k;
          assert s[i].key == k;
        }
      }
    }
  }

  // ----- assigning a value

  ghost function Assigned(t: Tree, value: Value): Tree
    requires t.Bin?
  {
    t.(n := t.n.(value := value))
  }

  lemma AssignedFits(m: Memory, path: Path, t: Tree, value: Value, root: Ptr)
    requires Whole(m, Plug(path, t), root) && t.Bin?
    ensures t.n.ptr in m
    ensures Whole(m[t.n.ptr := m[t.n.ptr].(value := value)], Plug(path, Assigned(t, value)), root)
  {
    ZipPlug(m, path, t, root);
    var m' := m[t.n.ptr := m[t.n.ptr].(value := value)];
    FitsFrame(m, m', t.l, t.n.ptr);
    FitsFrame(m, m', t.r, t.n.ptr);
    FitsPathFrame(m, m', path, t.n.ptr, root);
    ZipPlug(m', path, Assigned(t, value), root);
  }

  lemma AssignedContents(path: Path, t: Tree, value: Value, compare: (Key, Key) -> int)
    requires TotalOrder(compare) && t.Bin? && Ascending(Inorder(Plug(path, t)), compare) && Balanced(Plug(path, t))
    ensures var t' := Plug(path, Assigned(t, value));
            && Balanced(t') && Nodes(t') == Nodes(Plug(path, t)) && Ascending(Inorder(t'), compare)
            && |Inorder(t')| == |Inorder(Plug(path, t))|
            && Entries(Inorder(t')) == Entries(Inorder(Plug(path, t)))[t.n.key := value]
  {
    hide TotalOrder;
    var a, b, n' := Before(path) + Inorder(t.l), Inorder(t.r) + After(path), t.n.(value := value);
    var h := UnplugRB(path, t);
    PlugRB(path, Assigned(t, value), h);
    PlugNodes(path, t);
    PlugNodes(path, Assigned(t, value));
    FocusInorder(path, t);
    FocusInorder(path, Assigned(t, value));
    AscendingParts(a, t.n, b, compare);
    AscendingJoin(a, n', b, compare);
    AscendingDiffer(a + [t.n] + b, compare);
    AscendingDiffer(a + [n'] + b, compare);
    EntriesInsert(a, t.n, b);
    EntriesInsert(a, n', b);
  }
}
