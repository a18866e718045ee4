/** The token allocator of misc/json.c: blocks of slots, each block threading its free slots into a
    list through the slots themselves, and trees of tokens given back slot by slot. */
module JsonSlab {
  const TOKENS_PER_BLOCK := 4096

  /** Where a token lives: a slot of a block. */
  datatype Addr = Null | At(block: nat, index: nat)

  datatype Token = Token(kind: int, child: Addr, sibling: Addr, parent: Addr)

  /** A slot is a union: of a token in use, or of the index of the next free slot. */
  datatype Slot = Free(next: int) | Used(token: Token)

  const NONE := -1

  datatype Block = Block(slots: seq<Slot>, free: int, used: nat)

  predicate IsFull(b: Block)
  {
    b.used == |b.slots|
  }

  predicate IsEmpty(b: Block)
  {
    b.used == 0
  }

  // ----- one block

  /** From head, the next-links of the slots run through exactly the indices of the chain. */
  ghost predicate Links(slots: seq<Slot>, head: int, chain: seq<nat>)
    decreases chain
  {
    if chain == [] then head == NONE
    else
      && head == chain[0] && head < |slots| && slots[head].Free?
      && Links(slots, slots[head].next, chain[1..])
  }

  ghost predicate NoRepeats<T>(s: seq<T>)
  {
    s != [] ==> s[0] !in s[1..] && NoRepeats(s[1..])
  }

  lemma {:induction false} NoRepeatsParts<T>(a: seq<T>, b: seq<T>)
    requires NoRepeats(a + b)
    ensures NoRepeats(a) && NoRepeats(b) && forall x :: x in a ==> x !in b
  {
    if a == [] {
      assert a + b == b;
    } else {
      assert (a + b)[1..] == a[1..] + b;
      NoRepeatsParts(a[1..], b);
      assert a == [a[0]] + a[1..];
    }
  }

  lemma NoRepeatsMore<T>(x: T, s: seq<T>)
    requires NoRepeats(s) && x !in s
    ensures NoRepeats([x] + s)
  {
    assert ([x] + s)[1..] == s;
  }

  /** The chain holds each free slot once, and with the used count makes up the capacity. */
  ghost predicate Sound(b: Block, chain: seq<nat>)
  {
    && Links(b.slots, b.free, chain) && NoRepeats(chain)
    && (forall i :: i in chain ==> i < |b.slots|)
    && (forall i :: 0 <= i < |b.slots| ==> (b.slots[i].Free? <==> i in chain))
    && |chain| + b.used == |b.slots|
  }

  lemma {:induction false} LinksFrame(slots: seq<Slot>, slots': seq<Slot>, head: int, chain: seq<nat>)
    requires Links(slots, head, chain) && |slots'| == |slots|
    requires forall i :: i in chain && i < |slots| ==> slots'[i] == slots[i]
    ensures Links(slots', head, chain)
    decreases chain
  {
    if chain != [] {
      LinksFrame(slots, slots', slots[head].next, chain[1..]);
    }
  }

  lemma HasRoom(b: Block, chain: seq<nat>)
    requires Sound(b, chain) && !IsFull(b)
    ensures chain != []
  {
  }

  lemma TakeSound(b: Block, chain: seq<nat>, token: Token)
    requires Sound(b, chain) && chain != []
    ensures b.free == chain[0] && b.free < |b.slots| && b.slots[b.free].Free?
    ensures Sound(Block(b.slots[b.free := Used(token)], b.slots[b.free].next, b.used + 1), chain[1..])
  {
    var slots' := b.slots[b.free := Used(token)];
    LinksFrame(b.slots, slots', b.slots[b.free].next, chain[1..]);
    assert chain == [chain[0]] + chain[1..];
    assert chain[0] !in chain[1..];
    assert forall i :: i in chain <==> i == chain[0] || i in chain[1..];
    assert Links(slots', b.slots[b.free].next, chain[1..]);
    assert NoRepeats(chain[1..]);
  }

  lemma GiveSound(b: Block, chain: seq<nat>, i: nat)
    requires Sound(b, chain) && i < |b.slots| && b.slots[i].Used?
    ensures b.used > 0 && Sound(Block(b.slots[i := Free(b.free)], i, b.used - 1), [i] + chain)
  {
    var slots' := b.slots[i := Free(b.free)];
    assert i !in chain;
    LinksFrame(b.slots, slots', b.free, chain);
    assert ([i] + chain)[1..] == chain;
    NoRepeatsMore(i, chain);
    Fewer(chain, i, |b.slots|);
  }

  /** Distinct indices below n that miss one are fewer than n. */
  lemma Fewer(chain: seq<nat>, i: nat, n: nat)
    requires NoRepeats(chain) && i !in chain && i < n && forall j :: j in chain ==> j < n
    ensures |chain| < n
  {
    SetOfSeq(chain);
    SubsetSize(Elements(chain), Below(n) - {i});
  }

  ghost function Below(n: nat): (r: set<nat>)
    ensures |r| == n && forall j: nat :: j in r <==> j < n
  {
    if n == 0 then {} else Below(n - 1) + {n - 1}
  }

  ghost function Elements(s: seq<nat>): set<nat>
  {
    set j | j in s
  }

  lemma {:induction false} SetOfSeq(s: seq<nat>)
    requires NoRepeats(s)
    ensures |Elements(s)| == |s|
  {
    if s != [] {
      SetOfSeq(s[1..]);
      assert s == [s[0]] + s[1..];
      assert Elements(s) == {s[0]} + Elements(s[1..]);
    }
  }

  lemma {:induction false} SubsetSize<T>(a: set<T>, b: set<T>)
    requires a <= b
    ensures |a| <= |b|
  {
    if x :| x in a {
      SubsetSize(a - {x}, b - {x});
    }
  }

  /** So the used count of a sound block counts its slots in use. */
  lemma UsedCounts(b: Block, chain: seq<nat>)
    requires Sound(b, chain)
    ensures b.used == |set i | 0 <= i < |b.slots| && b.slots[i].Used?|
  {
    var free, used := Elements(chain), set i | 0 <= i < |b.slots| && b.slots[i].Used?;
    SetOfSeq(chain);
    assert Below(|b.slots|) == free + used && free !! used;
  }

  lemma UnusedFree(b: Block, chain: seq<nat>)
    requires Sound(b, chain) && b.used == 0
    ensures forall i :: 0 <= i < |b.slots| ==> b.slots[i].Free?
  {
    UsedCounts(b, chain);
    var used := set i | 0 <= i < |b.slots| && b.slots[i].Used?;
    assert forall i :: 0 <= i < |b.slots| && b.slots[i].Used? ==> i in used;
  }

  ghost function UpFrom(lo: nat, hi: nat): (r: seq<nat>)
    requires lo <= hi
    ensures |r| == hi - lo && NoRepeats(r) && forall i :: i in r <==> lo <= i < hi
    decreases hi - lo
  {
    if lo == hi then [] else [lo] + UpFrom(lo + 1, hi)
  }

  lemma {:induction false} Threaded(slots: seq<Slot>, i: nat)
    requires i <= |slots|
    requires forall k :: i <= k < |slots| ==> slots[k] == Free(if k + 1 < |slots| then k + 1 else NONE)
    ensures Links(slots, if i < |slots| then i else NONE, UpFrom(i, |slots|))
    decreases |slots| - i
  {
    if i < |slots| {
      Threaded(slots, i + 1);
      assert UpFrom(i, |slots|)[1..] == UpFrom(i + 1, |slots|);
    }
  }

  /** memory_block_create: every slot points to the next one, the last to none. */
  method CreateBlock(capacity: nat) returns (b: Block, ghost chain: seq<nat>)
    requires capacity > 0
    ensures Sound(b, chain) && |b.slots| == capacity && b.used == 0
  {
    var slots := seq(capacity, _ => Free(NONE));
    for i := 0 to capacity - 1
      invariant |slots| == capacity
      invariant forall k :: 0 <= k < i ==> slots[k] == Free(k + 1)
    {
      slots := slots[i := Free(i + 1)];
    }
    slots := slots[capacity - 1 := Free(NONE)];
    b := Block(slots, 0, 0);
    chain := UpFrom(0, capacity);
    Threaded(slots, 0);
  }

  // ----- the manager

  ghost predicate InUse(blocks: map<nat, Block>, a: Addr)
  {
    a.At? && a.block in blocks && a.index < |blocks[a.block].slots| && blocks[a.block].slots[a.index].Used?
  }

  ghost function TokenAt(blocks: map<nat, Block>, a: Addr): Token
    requires InUse(blocks, a)
  {
    blocks[a.block].slots[a.index].token
  }

  /** Outside the addresses of a set the two memories hold the same tokens in use. */
  ghost predicate SameBut(blocks: map<nat, Block>, blocks': map<nat, Block>, changed: set<Addr>)
  {
    forall a :: a !in changed ==>
      (InUse(blocks, a) <==> InUse(blocks', a)) && (InUse(blocks, a) ==> TokenAt(blocks', a) == TokenAt(blocks, a))
  }

  ghost predicate SoundAll(blocks: map<nat, Block>, chains: map<nat, seq<nat>>)
  {
    && chains.Keys == blocks.Keys
    && forall id :: id in blocks ==> Sound(blocks[id], chains[id])
  }

  lemma SoundOne(blocks: map<nat, Block>, chains: map<nat, seq<nat>>, id: nat, b: Block, chain: seq<nat>)
    requires SoundAll(blocks, chains) && Sound(b, chain)
    ensures SoundAll(blocks[id := b], chains[id := chain])
  {
    hide Sound;
  }

  lemma SameButOne(blocks: map<nat, Block>, a: Addr, b: Block)
    requires a.At? && a.block in blocks && |b.slots| == |blocks[a.block].slots|
    requires forall i :: 0 <= i < |b.slots| && i != a.index ==> b.slots[i] == blocks[a.block].slots[i]
    ensures SameBut(blocks, blocks[a.block := b], {a})
  {
  }

  lemma SameButNew(blocks: map<nat, Block>, id: nat, b: Block)
    requires id !in blocks && forall i :: 0 <= i < |b.slots| ==> b.slots[i].Free?
    ensures SameBut(blocks, blocks[id := b], {})
  {
  }

  lemma SameButThen(blocks: map<nat, Block>, blocks1: map<nat, Block>, blocks2: map<nat, Block>, s: set<Addr>, t: set<Addr>)
    requires SameBut(blocks, blocks1, s) && SameBut(blocks1, blocks2, t)
    ensures SameBut(blocks, blocks2, s + t)
  {
  }

  /** Blocks were dropped, all of them without a token in use. */
  ghost predicate Dropped(blocks: map<nat, Block>, blocks': map<nat, Block>)
  {
    && (forall id :: id in blocks' ==> id in blocks && blocks'[id] == blocks[id])
    && (forall id :: id in blocks && id !in blocks' ==> IsEmpty(blocks[id]))
  }

  lemma DroppedNone(blocks: map<nat, Block>)
    ensures Dropped(blocks, blocks)
  {
  }

  lemma DroppedOne(blocks: map<nat, Block>, blocks': map<nat, Block>, id: nat)
    requires Dropped(blocks, blocks') && id in blocks' && IsEmpty(blocks'[id])
    ensures Dropped(blocks, blocks' - {id})
  {
  }

  /** So the tokens in use are the same as before. */
  lemma DroppedKeeps(blocks: map<nat, Block>, blocks': map<nat, Block>, chains: map<nat, seq<nat>>)
    requires Dropped(blocks, blocks') && SoundAll(blocks, chains)
    ensures SameBut(blocks, blocks', {})
  {
    hide Sound;
    forall a | InUse(blocks, a)
      ensures a.block in blocks'
    {
      if a.block !in blocks' {
        UnusedFree(blocks[a.block], chains[a.block]);
      }
    }
  }

  lemma SoundDropped(blocks: map<nat, Block>, chains: map<nat, seq<nat>>, id: nat)
    requires SoundAll(blocks, chains)
    ensures SoundAll(blocks - {id}, chains - {id})
  {
    hide Sound;
  }

  lemma NoRepeatsLess<T>(s: seq<T>, i: nat)
    requires NoRepeats(s) && i < |s|
    ensures NoRepeats(s[..i] + s[i + 1..])
    ensures forall x :: x in s[..i] + s[i + 1..] <==> x in s && x != s[i]
  {
    assert s == [s[0]] + s[1..];
    if i == 0 {
      assert s[..0] + s[1..] == s[1..];
    } else {
      var tl := s[1..][..i - 1] + s[1..][i..];
      NoRepeatsLess(s[1..], i - 1);
      Cut(s, i);
      NoRepeatsMore(s[0], tl);
    }
  }

  lemma Cut<T>(s: seq<T>, i: nat)
    requires 0 < i < |s|
    ensures s[..i] + s[i + 1..] == [s[0]] + (s[1..][..i - 1] + s[1..][i..])
  {
  }

  /** The tokens reachable from one by child and sibling links. */
  datatype Tree = Leaf | Node(a: Addr, child: Tree, sibling: Tree)

  ghost function Root(t: Tree): Addr
  {
    if t.Leaf? then Null else t.a
  }

  /** The addresses of a tree, a token before its children and its children before its siblings. */
  ghost function Nodes(t: Tree): seq<Addr>
  {
    if t.Leaf? then [] else [t.a] + Nodes(t.child) + Nodes(t.sibling)
  }

  ghost predicate Fits(blocks: map<nat, Block>, t: Tree)
  {
    t.Node? ==>
      && InUse(blocks, t.a)
      && TokenAt(blocks, t.a).child == Root(t.child) && TokenAt(blocks, t.a).sibling == Root(t.sibling)
      && Fits(blocks, t.child) && Fits(blocks, t.sibling)
  }

  /** The slots given are free and every other slot is as it was. */
  ghost predicate Freed(blocks: map<nat, Block>, blocks': map<nat, Block>, given: seq<Addr>)
  {
    && blocks'.Keys == blocks.Keys && (forall a :: a in given ==> !InUse(blocks', a))
    && forall a :: a !in given ==>
         (InUse(blocks, a) <==> InUse(blocks', a)) && (InUse(blocks, a) ==> TokenAt(blocks', a) == TokenAt(blocks, a))
  }

  lemma FreedOne(blocks: map<nat, Block>, a: Addr, b: Block)
    requires InUse(blocks, a) && a.index < |b.slots| == |blocks[a.block].slots| && b.slots[a.index].Free?
    requires forall i :: 0 <= i < |b.slots| && i != a.index ==> b.slots[i] == blocks[a.block].slots[i]
    ensures Freed(blocks, blocks[a.block := b], [a])
  {
  }

  lemma FreedThen(blocks: map<nat, Block>, blocks1: map<nat, Block>, blocks2: map<nat, Block>, s: seq<Addr>, t: seq<Addr>)
    requires Freed(blocks, blocks1, s) && Freed(blocks1, blocks2, t)
    ensures Freed(blocks, blocks2, s + t)
  {
    hide InUse, TokenAt;
  }

  lemma {:induction false} FitsFrame(blocks: map<nat, Block>, blocks': map<nat, Block>, t: Tree, given: seq<Addr>)
    requires Fits(blocks, t) && Freed(blocks, blocks', given)
    requires forall a :: a in given ==> a !in Nodes(t)
    ensures Fits(blocks', t)
  {
    if t.Node? {
      assert Nodes(t)[0] == t.a;
      FitsFrame(blocks, blocks', t.child, given);
      FitsFrame(blocks, blocks', t.sibling, given);
    }
  }

  lemma NodeParts(blocks: map<nat, Block>, t: Tree)
    requires t.Node? && Fits(blocks, t) && NoRepeats(Nodes(t))
    ensures InUse(blocks, t.a) && Fits(blocks, t.child) && Fits(blocks, t.sibling)
    ensures TokenAt(blocks, t.a).child == Root(t.child) && TokenAt(blocks, t.a).sibling == Root(t.sibling)
    ensures Nodes(t) == [t.a] + Nodes(t.child) + Nodes(t.sibling) && NoRepeats(Nodes(t.child)) && NoRepeats(Nodes(t.sibling))
    ensures forall a :: a in [t.a] ==> a !in Nodes(t.child) && a !in Nodes(t.sibling)
    ensures forall a :: a in Nodes(t.child) ==> a !in Nodes(t.sibling)
  {
    var c, s := Nodes(t.child), Nodes(t.sibling);
    NoRepeatsParts([t.a] + c, s);
    NoRepeatsParts([t.a], c);
    assert t.a in [t.a] + c && t.a in [t.a];
    assert forall a :: a in c ==> a in [t.a] + c;
  }

  /** A free list after slots are given back in order: each goes to the front of its block's list. */
  ghost function Pushed(chain: seq<nat>, id: nat, given: seq<Addr>): seq<nat>
    decreases given
  {
    if given == [] then chain
    else Pushed(if given[0].At? && given[0].block == id then [given[0].index] + chain else chain, id, given[1..])
  }

  lemma {:induction false} PushedMore(chain: seq<nat>, id: nat, a: seq<Addr>, b: seq<Addr>)
    ensures Pushed(chain, id, a + b) == Pushed(Pushed(chain, id, a), id, b)
    decreases a
  {
    if a == [] {
      assert a + b == b;
    } else {
      var chain' := if a[0].At? && a[0].block == id then [a[0].index] + chain else chain;
      assert (a + b)[1..] == a[1..] + b;
      PushedMore(chain', id, a[1..], b);
    }
  }

  ghost function CountIn(given: seq<Addr>, id: nat): nat
  {
    if given == [] then 0 else (if given[0].At? && given[0].block == id then 1 else 0) + CountIn(given[1..], id)
  }

  lemma {:induction false} PushedLength(chain: seq<nat>, id: nat, given: seq<Addr>)
    ensures |Pushed(chain, id, given)| == |chain| + CountIn(given, id)
    decreases given
  {
    if given != [] {
      PushedLength(if given[0].At? && given[0].block == id then [given[0].index] + chain else chain, id, given[1..]);
    }
  }

  /** Conservation: giving back lowers a block's used count by the number of its slots given back. */
  lemma GivenCounts(b: Block, b': Block, id: nat, chains: map<nat, seq<nat>>, chains': map<nat, seq<nat>>, given: seq<Addr>)
    requires id in chains && Given(chains, chains', given)
    requires Sound(b, chains[id]) && Sound(b', chains'[id]) && |b'.slots| == |b.slots|
    ensures b'.used + CountIn(given, id) == b.used
  {
    PushedLength(chains[id], id, given);
  }

  /** What giving back does to the free lists of all blocks. */
  ghost predicate Given(chains: map<nat, seq<nat>>, chains': map<nat, seq<nat>>, given: seq<Addr>)
  {
    chains'.Keys == chains.Keys && forall id :: id in chains ==> chains'[id] == Pushed(chains[id], id, given)
  }

  lemma GivenOne(chains: map<nat, seq<nat>>, a: Addr)
    requires a.At? && a.block in chains
    ensures Given(chains, chains[a.block := [a.index] + chains[a.block]], [a])
  {
    forall id | id in chains
      ensures Pushed(chains[id], id, [a]) == if a.block == id then [a.index] + chains[id] else chains[id]
    {
      assert [a][1..] == [];
    }
  }

  lemma GivenThen(chains: map<nat, seq<nat>>, chains1: map<nat, seq<nat>>, chains2: map<nat, seq<nat>>, s: seq<Addr>, t: seq<Addr>)
    requires Given(chains, chains1, s) && Given(chains1, chains2, t)
    ensures Given(chains, chains2, s + t)
  {
    forall id | id in chains
      ensures chains2[id] == Pushed(chains[id], id, s + t)
    {
      PushedMore(chains[id], id, s, t);
    }
  }

  class Manager {
    var blocks: map<nat, Block>   // the blocks by address
    var list: seq<nat>            // the linked list of blocks, newest first
    var current: int              // the cached block, or NONE
    var nextId: nat
    var calls: nat                // calls of DestroyEmptyBlocks since its last sweep
    ghost var chains: map<nat, seq<nat>>

    ghost predicate Valid()
      reads this
    {
      && SoundAll(blocks, chains)
      && NoRepeats(list) && (forall id :: id in blocks <==> id in list)
      && (current != NONE ==> current >= 0 && current in blocks)
      && (forall id :: id in blocks ==> id < nextId)
    }

    constructor ()
      ensures Valid() && blocks == map[]
    {
      blocks, list, current, nextId, calls, chains := map[], [], NONE, 0, 0, map[];
    }

    /** memory_block_alloc_slot and __init_token on the block id. */
    method TakeSlot(id: nat, kind: int) returns (a: Addr)
      requires Valid() && id in blocks && !IsFull(blocks[id])
      modifies this
      ensures Valid() && list == old(list) && current == old(current) && nextId == old(nextId)
      ensures !old(InUse(blocks, a)) && InUse(blocks, a) && TokenAt(blocks, a) == Token(kind, Null, Null, Null)
      ensures a.block == id && old(chains)[id] == [a.index] + chains[id]
      ensures SameBut(old(blocks), blocks, {a})
    {
      hide Sound, SameBut, NoRepeats;
      var b := blocks[id];
      ghost var chain := chains[id];
      HasRoom(b, chain);
      TakeSound(b, chain, Token(kind, Null, Null, Null));
      var index := b.free;
      b := b.(free := b.slots[index].next, used := b.used + 1);
      b := b.(slots := b.slots[index := Used(Token(kind, Null, Null, Null))]);
      a := At(id, index);
      SoundOne(blocks, chains, id, b, chain[1..]);
      SameButOne(blocks, a, b);
      hide SoundAll;
      blocks, chains := blocks[id := b], chains[id := chain[1..]];
    }

    /** json_token_alloc: the cached block, else the first block with room, else a new block. */
    method Alloc(kind: int) returns (a: Addr)
      requires Valid()
      modifies this
      ensures Valid()
      ensures !old(InUse(blocks, a)) && InUse(blocks, a) && TokenAt(blocks, a) == Token(kind, Null, Null, Null)
      ensures SameBut(old(blocks), blocks, {a})
      ensures a.block in old(blocks) ==> blocks.Keys == old(blocks.Keys)
      ensures a.block !in old(blocks) ==> forall id :: id in old(blocks) ==> IsFull(old(blocks)[id])
    {
      if current != NONE && !IsFull(blocks[current]) {
        a := TakeSlot(current, kind);
        return;
      }
      hide SoundAll, SameBut, NoRepeats;
      for i := 0 to |list|
        invariant Valid() && unchanged(this)
        invariant forall k :: 0 <= k < i ==> IsFull(blocks[list[k]])
      {
        if !IsFull(blocks[list[i]]) {
          current := list[i];
          a := TakeSlot(list[i], kind);
          return;
        }
      }
      ghost var before := blocks;
      AddBlock();
      label Grown:
      a := TakeSlot(current, kind);
      SameButThen(before, old@Grown(blocks), blocks, {}, {a});
    }

    /** A new block goes to the front of the list and into the cache. */
    method AddBlock()
      requires Valid()
      modifies this
      ensures Valid() && current == old(nextId) && blocks.Keys == old(blocks.Keys) + {current} && current !in old(blocks)
      ensures !IsFull(blocks[current]) && SameBut(old(blocks), blocks, {})
    {
      hide Sound, SoundAll, SameBut, NoRepeats;
      var b, chain := CreateBlock(TOKENS_PER_BLOCK);
      UnusedFree(b, chain);
      SoundOne(blocks, chains, nextId, b, chain);
      SameButNew(blocks, nextId, b);
      NoRepeatsMore(nextId, list);
      blocks, chains := blocks[nextId := b], chains[nextId := chain];
      list, current, nextId := [nextId] + list, nextId, nextId + 1;
    }

    /** memory_block_free_slot. */
    method GiveSlot(a: Addr)
      requires Valid() && InUse(blocks, a)
      modifies this
      ensures Valid() && list == old(list) && current == old(current) && nextId == old(nextId)
      ensures Freed(old(blocks), blocks, [a])
      ensures Given(old(chains), chains, [a])
    {
      hide Sound, NoRepeats, Freed, Given;
      var b := blocks[a.block];
      ghost var chain := chains[a.block];
      GiveSound(b, chain, a.index);
      b := b.(slots := b.slots[a.index := Free(b.free)]);
      b := b.(free := a.index, used := b.used - 1);
      SoundOne(blocks, chains, a.block, b, [a.index] + chain);
      FreedOne(blocks, a, b);
      hide SoundAll;
      GivenOne(chains, a);
      blocks, chains := blocks[a.block := b], chains[a.block := [a.index] + chain];
    }

    /** Links are written into tokens in use. */
    method SetToken(a: Addr, token: Token)
      requires Valid() && InUse(blocks, a)
      modifies this
      ensures Valid() && chains == old(chains) && blocks.Keys == old(blocks.Keys)
      ensures InUse(blocks, a) && TokenAt(blocks, a) == token && SameBut(old(blocks), blocks, {a})
    {
      var b := blocks[a.block];
      var b' := b.(slots := b.slots[a.index := Used(token)]);
      LinksFrame(b.slots, b'.slots, b.free, chains[a.block]);
      SoundOne(blocks, chains, a.block, b', chains[a.block]);
      SameButOne(blocks, a, b');
      hide Sound, SoundAll, SameBut;
      assert chains[a.block := chains[a.block]] == chains;
      blocks := blocks[a.block := b'];
    }

    /** __free_token_tree gives back the tokens of a tree, each exactly once, and no other. */
    method FreeTree(root: Addr, ghost t: Tree)
      requires Valid() && root == Root(t) && Fits(blocks, t) && NoRepeats(Nodes(t))
      modifies this
      ensures Valid() && Freed(old(blocks), blocks, Nodes(t)) && Given(old(chains), chains, Nodes(t))
      ensures list == old(list) && current == old(current)
      decreases t
    {
      if root == Null {
        return;
      }
      NodeParts(blocks, t);
      hide Valid, Fits, NoRepeats, Given, Nodes, Freed;
      var token := blocks[root.block].slots[root.index].token;
      GiveSlot(root);
      FitsFrame(old(blocks), blocks, t.child, [root]);
      FitsFrame(old(blocks), blocks, t.sibling, [root]);
      ghost var chains1, blocks1 := chains, blocks;
      FreeTree(token.child, t.child);
      FitsFrame(blocks1, blocks, t.sibling, Nodes(t.child));
      FreedThen(old(blocks), blocks1, blocks, [root], Nodes(t.child));
      GivenThen(old(chains), chains1, chains, [root], Nodes(t.child));
      ghost var chains2, blocks2 := chains, blocks;
      FreeTree(token.sibling, t.sibling);
      FreedThen(old(blocks), blocks2, blocks, [root] + Nodes(t.child), Nodes(t.sibling));
      GivenThen(old(chains), chains2, chains, [root] + Nodes(t.child), Nodes(t.sibling));
    }

    /** Drops the block at place i of the list, which has no token in use. */
    method DropBlock(i: nat)
      requires Valid() && i < |list| && IsEmpty(blocks[list[i]])
      modifies this
      ensures Valid() && list == old(list[..i] + list[i + 1..]) && calls == old(calls)
      ensures blocks == old(blocks) - {old(list)[i]}
      ensures current == if old(current == list[i]) then NONE else old(current)
    {
      hide Sound, NoRepeats;
      var id := list[i];
      SoundDropped(blocks, chains, id);
      NoRepeatsLess(list, i);
      hide SoundAll;
      list := list[..i] + list[i + 1..];
      if current == id {
        current := NONE;
      }
      blocks, chains := blocks - {id}, chains - {id};
    }

    /** json_manager_destroy_empty_blocks: every thousandth call drops the blocks without a token
        in use, and forgets the cached block if it is one of them. No token in use is lost. */
    method DestroyEmptyBlocks() returns (freed: nat)
      requires Valid()
      modifies this
      ensures Valid() && Dropped(old(blocks), blocks) && freed + |list| == |old(list)|
      ensures old(calls) + 1 < 1000 ==> blocks == old(blocks) && calls == old(calls) + 1
      ensures old(calls) + 1 >= 1000 ==> calls == 0 && forall id :: id in blocks ==> !IsEmpty(blocks[id])
    {
      hide SoundAll, NoRepeats, Dropped;
      DroppedNone(blocks);
      calls := calls + 1;
      freed := 0;
      if calls < 1000 {
        return;
      }
      calls := 0;
      var i := 0;
      while i < |list|
        invariant i <= |list| && calls == 0 && freed + |list| == |old(list)|
        invariant Valid() && Dropped(old(blocks), blocks)
        invariant forall k :: 0 <= k < i ==> !IsEmpty(blocks[list[k]])
        decreases |list| - i
      {
        if IsEmpty(blocks[list[i]]) {
          DroppedOne(old(blocks), blocks, list[i]);
          DropBlock(i);
          freed := freed + 1;
        } else {
          i := i + 1;
        }
      }
    }
  }
}
