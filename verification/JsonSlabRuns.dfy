/** Whole runs of the token allocator of misc/json.c, as seen by the owner of the tokens: tokens are
    named by the order in which they were handed out, and linked by those names. */
module JsonSlabRuns {
  import opened Common
  import opened JsonSlab

  datatype Entry = Entry(kind: int, child: Option<nat>, sibling: Option<nat>, parent: Option<nat>)

  /** A tree of names by child and sibling links. */
  datatype Names = NoName | Name(n: nat, child: Names, sibling: Names)

  datatype Op = OpAlloc(kind: int) | OpLink(n: nat, entry: Entry) | OpFree(tree: Names) | OpSweep

  /** How many tokens were handed out, and what those still in use hold. */
  datatype Client = Client(count: nat, live: map<nat, Entry>)

  function TopName(t: Names): Option<nat>
  {
    if t.NoName? then None else Some(t.n)
  }

  ghost function NamesOf(t: Names): seq<nat>
  {
    if t.NoName? then [] else [t.n] + NamesOf(t.child) + NamesOf(t.sibling)
  }

  ghost predicate Linked(live: map<nat, Entry>, t: Names)
  {
    t.Name? ==>
      && t.n in live && live[t.n].child == TopName(t.child) && live[t.n].sibling == TopName(t.sibling)
      && Linked(live, t.child) && Linked(live, t.sibling)
  }

  ghost predicate Known(e: Entry, count: nat)
  {
    && (e.child.Some? ==> e.child.value < count) && (e.sibling.Some? ==> e.sibling.value < count)
    && (e.parent.Some? ==> e.parent.value < count)
  }

  /** Tokens in use are linked to tokens that were handed out; a tree given back is one the links
      make, and has no token twice. */
  ghost predicate Possible(c: Client, op: Op)
  {
    match op
    case OpAlloc(_) => true
    case OpLink(n, e) => n in c.live && Known(e, c.count)
    case OpFree(t) => Linked(c.live, t) && NoRepeats(NamesOf(t))
    case OpSweep => true
  }

  ghost function Done(c: Client, op: Op): Client
  {
    match op
    case OpAlloc(kind) => Client(c.count + 1, c.live[c.count := Entry(kind, None, None, None)])
    case OpLink(n, e) => c.(live := c.live[n := e])
    case OpFree(t) => c.(live := map n | n in c.live && n !in NamesOf(t) :: c.live[n])
    case OpSweep => c
  }

  ghost function DoneAll(c: Client, ops: seq<Op>): Client
  {
    if ops == [] then c else Done(DoneAll(c, ops[..|ops| - 1]), ops[|ops| - 1])
  }

  ghost predicate PossibleAll(c: Client, ops: seq<Op>)
  {
    forall k :: 0 <= k < |ops| ==> Possible(DoneAll(c, ops[..k]), ops[k])
  }

  // ----- names and addresses

  function Place(o: Option<nat>, at: seq<Addr>): Addr
  {
    if o.Some? && o.value < |at| then at[o.value] else Null
  }

  function Real(e: Entry, at: seq<Addr>): Token
  {
    Token(e.kind, Place(e.child, at), Place(e.sibling, at), Place(e.parent, at))
  }

  ghost predicate Owned(a: Addr, at: seq<Addr>, live: map<nat, Entry>)
  {
    exists n :: n in live && n < |at| && at[n] == a
  }

  /** The tokens in use are where they were handed out and hold what was last written. */
  ghost predicate Held(blocks: map<nat, Block>, at: seq<Addr>, c: Client)
  {
    && |at| == c.count && (forall n :: n in c.live ==> n < c.count && Known(c.live[n], c.count))
    && (forall n :: n in c.live ==> InUse(blocks, at[n]) && TokenAt(blocks, at[n]) == Real(c.live[n], at))
  }

  ghost predicate Apart(at: seq<Addr>, live: map<nat, Entry>)
  {
    forall n, k :: n in live && k in live && n < |at| && k < |at| && at[n] == at[k] ==> n == k
  }

  ghost predicate Complete(blocks: map<nat, Block>, at: seq<Addr>, live: map<nat, Entry>)
  {
    forall a :: InUse(blocks, a) ==> Owned(a, at, live)
  }

  /** Every token in use is where it was handed out and holds what was last written, no two share a
      slot, and no other slot is taken. */
  ghost predicate Represents(blocks: map<nat, Block>, at: seq<Addr>, c: Client)
  {
    Held(blocks, at, c) && Apart(at, c.live) && Complete(blocks, at, c.live)
  }

  lemma RealMore(e: Entry, at: seq<Addr>, a: Addr)
    requires Known(e, |at|)
    ensures Real(e, at + [a]) == Real(e, at)
  {
  }

  /** A token handed out. */
  lemma Allocated(blocks: map<nat, Block>, blocks': map<nat, Block>, at: seq<Addr>, c: Client, a: Addr, kind: int)
    requires Represents(blocks, at, c) && SameBut(blocks, blocks', {a})
    requires !InUse(blocks, a) && InUse(blocks', a) && TokenAt(blocks', a) == Token(kind, Null, Null, Null)
    ensures Represents(blocks', at + [a], Done(c, OpAlloc(kind)))
  {
    hide InUse, TokenAt, Apart, Complete, SameBut, Done, Known, Real;
    AllocatedHeld(blocks, blocks', at, c, a, kind);
    AllocatedApart(blocks, at, c, a, kind);
    AllocatedComplete(blocks, blocks', at, c, a, kind);
  }

  lemma AllocatedHeld(blocks: map<nat, Block>, blocks': map<nat, Block>, at: seq<Addr>, c: Client, a: Addr, kind: int)
    requires Held(blocks, at, c) && SameBut(blocks, blocks', {a})
    requires !InUse(blocks, a) && InUse(blocks', a) && TokenAt(blocks', a) == Token(kind, Null, Null, Null)
    ensures Held(blocks', at + [a], Done(c, OpAlloc(kind)))
  {
    hide InUse, TokenAt, Known, Real;
    var at', c' := at + [a], Done(c, OpAlloc(kind));
    forall n | n in c'.live
      ensures n < c'.count && Known(c'.live[n], c'.count)
      ensures InUse(blocks', at'[n]) && TokenAt(blocks', at'[n]) == Real(c'.live[n], at')
    {
      if n < c.count {
        assert n in c.live && at'[n] == at[n] != a;
        RealMore(c.live[n], at, a);
        KnownMore(c.live[n], c.count);
      } else {
        NewEntry(kind, at', c'.count);
      }
    }
  }

  lemma AllocatedApart(blocks: map<nat, Block>, at: seq<Addr>, c: Client, a: Addr, kind: int)
    requires Held(blocks, at, c) && Apart(at, c.live) && !InUse(blocks, a)
    ensures Apart(at + [a], Done(c, OpAlloc(kind)).live)
  {
    hide InUse, TokenAt, Known, Real;
    var at', live' := at + [a], Done(c, OpAlloc(kind)).live;
    forall n, k | n in live' && k in live' && n < k < |at'|
      ensures at'[n] != at'[k]
    {
      assert n in c.live && at'[n] == at[n] != a;
      assert k < c.count ==> k in c.live && at'[k] == at[k];
    }
  }

  lemma AllocatedComplete(blocks: map<nat, Block>, blocks': map<nat, Block>, at: seq<Addr>, c: Client, a: Addr, kind: int)
    requires |at| == c.count && Complete(blocks, at, c.live) && SameBut(blocks, blocks', {a})
    ensures Complete(blocks', at + [a], Done(c, OpAlloc(kind)).live)
  {
    hide InUse, TokenAt;
    var at', live' := at + [a], Done(c, OpAlloc(kind)).live;
    forall x | InUse(blocks', x)
      ensures Owned(x, at', live')
    {
      if x == a {
        assert at'[c.count] == a;
      } else {
        assert Owned(x, at, c.live);
        var n :| n in c.live && n < |at| && at[n] == x;
        assert at'[n] == x;
      }
    }
  }

  lemma KnownMore(e: Entry, count: nat)
    requires Known(e, count)
    ensures Known(e, count + 1)
  {
  }

  lemma NewEntry(kind: int, at: seq<Addr>, count: nat)
    ensures Known(Entry(kind, None, None, None), count) && Real(Entry(kind, None, None, None), at) == Token(kind, Null, Null, Null)
  {
  }

  /** Links written. */
  lemma Written(blocks: map<nat, Block>, blocks': map<nat, Block>, at: seq<Addr>, c: Client, n: nat, e: Entry)
    requires Represents(blocks, at, c) && n in c.live && Known(e, c.count) && SameBut(blocks, blocks', {at[n]})
    requires InUse(blocks', at[n]) && TokenAt(blocks', at[n]) == Real(e, at)
    ensures Represents(blocks', at, Done(c, OpLink(n, e)))
  {
    hide InUse, TokenAt, Known, Real;
    hide Complete;
    var c' := Done(c, OpLink(n, e));
    assert c'.live.Keys == c.live.Keys;
    forall k | k in c.live && k != n
      ensures at[k] != at[n]
    {
    }
    assert Held(blocks', at, c');
    CompleteFewer(blocks, blocks', at, c.live, c'.live, {});
  }

  /** Slots no longer in use belonged to the names gone. */
  lemma CompleteFewer(blocks: map<nat, Block>, blocks': map<nat, Block>, at: seq<Addr>, live: map<nat, Entry>, live': map<nat, Entry>,
                      gone: set<nat>)
    requires Complete(blocks, at, live) && (forall n :: n in live && n !in gone ==> n in live')
    requires forall x :: InUse(blocks', x) ==> InUse(blocks, x)
    requires forall n :: n in gone && n < |at| ==> !InUse(blocks', at[n])
    ensures Complete(blocks', at, live')
  {
    hide InUse;
    forall x | InUse(blocks', x)
      ensures Owned(x, at, live')
    {
      assert Owned(x, at, live);
      var n :| n in live && n < |at| && at[n] == x;
      assert n in live';
    }
  }

  ghost function Placed(t: Names, at: seq<Addr>): Tree
  {
    if t.NoName? then Leaf else Node(Place(Some(t.n), at), Placed(t.child, at), Placed(t.sibling, at))
  }

  /** The tree of names stands in the blocks, node by node. */
  lemma {:induction false} PlacedFits(blocks: map<nat, Block>, at: seq<Addr>, c: Client, t: Names)
    requires Represents(blocks, at, c) && Linked(c.live, t)
    ensures Fits(blocks, Placed(t, at)) && Root(Placed(t, at)) == Place(TopName(t), at)
    ensures |Nodes(Placed(t, at))| == |NamesOf(t)|
    ensures forall k :: 0 <= k < |NamesOf(t)| ==> NamesOf(t)[k] in c.live && Nodes(Placed(t, at))[k] == at[NamesOf(t)[k]]
    decreases t
  {
    hide InUse, TokenAt, Known, Complete, Apart;
    if t.Name? {
      assert at[t.n] == Place(Some(t.n), at);
      PlacedFits(blocks, at, c, t.child);
      PlacedFits(blocks, at, c, t.sibling);
    }
  }

  lemma {:induction false} NoRepeatsAt<T>(s: seq<T>)
    ensures NoRepeats(s) <==> forall i, j :: 0 <= i < j < |s| ==> s[i] != s[j]
  {
    if s != [] {
      NoRepeatsAt(s[1..]);
      if NoRepeats(s) {
        forall i, j | 0 <= i < j < |s|
          ensures s[i] != s[j]
        {
          assert s[j] == s[1..][j - 1];
          if i > 0 {
            assert s[i] == s[1..][i - 1];
          }
        }
      }
      if forall i, j :: 0 <= i < j < |s| ==> s[i] != s[j] {
        forall i, j | 0 <= i < j < |s[1..]|
          ensures s[1..][i] != s[1..][j]
        {
          assert s[1..][i] == s[i + 1] && s[1..][j] == s[j + 1];
        }
      }
    }
  }

  lemma PlacedOnce(blocks: map<nat, Block>, at: seq<Addr>, c: Client, t: Names)
    requires Represents(blocks, at, c) && Linked(c.live, t) && NoRepeats(NamesOf(t))
    ensures NoRepeats(Nodes(Placed(t, at)))
    ensures forall n :: n in c.live ==> (at[n] in Nodes(Placed(t, at)) <==> n in NamesOf(t))
  {
    hide InUse, TokenAt, Known, NoRepeats, Fits, Nodes, NamesOf, Complete, Real;
    PlacedFits(blocks, at, c, t);
    NoRepeatsAt(NamesOf(t));
    NoRepeatsAt(Nodes(Placed(t, at)));
    forall n | n in c.live
      ensures at[n] in Nodes(Placed(t, at)) <==> n in NamesOf(t)
    {
      if n in NamesOf(t) {
        var k :| 0 <= k < |NamesOf(t)| && NamesOf(t)[k] == n;
        assert Nodes(Placed(t, at))[k] == at[n];
      }
    }
  }

  /** A tree given back. */
  lemma GivenBack(blocks: map<nat, Block>, blocks': map<nat, Block>, at: seq<Addr>, c: Client, t: Names)
    requires Represents(blocks, at, c) && Possible(c, OpFree(t)) && Freed(blocks, blocks', Nodes(Placed(t, at)))
    ensures Represents(blocks', at, Done(c, OpFree(t)))
  {
    hide InUse, TokenAt, Known, NoRepeats, Linked, Nodes, NamesOf, Placed, Real, Complete, Freed;
    PlacedOnce(blocks, at, c, t);
    GivenHeld(blocks, blocks', at, c, Nodes(Placed(t, at)), NamesOf(t));
    var gone := set n | n in c.live && n in NamesOf(t);
    GivenSlots(blocks, blocks', at, Nodes(Placed(t, at)), gone);
    CompleteFewer(blocks, blocks', at, c.live, Done(c, OpFree(t)).live, gone);
  }

  lemma GivenHeld(blocks: map<nat, Block>, blocks': map<nat, Block>, at: seq<Addr>, c: Client, given: seq<Addr>, names: seq<nat>)
    requires Held(blocks, at, c) && Freed(blocks, blocks', given)
    requires forall n :: n in c.live ==> n < |at| && (at[n] in given <==> n in names)
    ensures Held(blocks', at, c.(live := map n | n in c.live && n !in names :: c.live[n]))
  {
    hide InUse, TokenAt, Known, Real;
  }

  lemma GivenSlots(blocks: map<nat, Block>, blocks': map<nat, Block>, at: seq<Addr>, given: seq<Addr>, gone: set<nat>)
    requires Freed(blocks, blocks', given) && forall n :: n in gone ==> n < |at| && at[n] in given
    ensures forall x :: InUse(blocks', x) ==> InUse(blocks, x)
    ensures forall n :: n in gone && n < |at| ==> !InUse(blocks', at[n])
  {
    hide InUse, TokenAt;
  }

  /** Empty blocks dropped. */
  lemma Swept(blocks: map<nat, Block>, blocks': map<nat, Block>, at: seq<Addr>, c: Client)
    requires Represents(blocks, at, c) && SameBut(blocks, blocks', {})
    ensures Represents(blocks', at, c)
  {
    hide InUse, TokenAt, Known, Real, Owned;
  }

  // ----- runs

  method Perform(m: Manager, op: Op, at0: seq<Addr>, ghost c: Client) returns (at: seq<Addr>)
    requires m.Valid() && Represents(m.blocks, at0, c) && Possible(c, op)
    modifies m
    ensures m.Valid() && Represents(m.blocks, at, Done(c, op)) && at0 <= at
  {
    hide Represents, SameBut, Freed, SoundAll, Done;
    at := at0;
    match op
    case OpAlloc(kind) =>
      var a := m.Alloc(kind);
      Allocated(old(m.blocks), m.blocks, at0, c, a, kind);
      at := at + [a];
    case OpLink(n, e) =>
      LiveAt(m.blocks, at, c, n);
      m.SetToken(at[n], Real(e, at));
      Written(old(m.blocks), m.blocks, at, c, n, e);
    case OpFree(t) =>
      PlacedFits(m.blocks, at, c, t);
      PlacedOnce(m.blocks, at, c, t);
      m.FreeTree(Place(TopName(t), at), Placed(t, at));
      GivenBack(old(m.blocks), m.blocks, at, c, t);
    case OpSweep =>
      var _ := m.DestroyEmptyBlocks();
      DroppedKeeps(old(m.blocks), m.blocks, old(m.chains));
      Swept(old(m.blocks), m.blocks, at, c);
      SweptClient(c);
  }

  lemma LiveAt(blocks: map<nat, Block>, at: seq<Addr>, c: Client, n: nat)
    requires Represents(blocks, at, c) && n in c.live
    ensures n < |at| && InUse(blocks, at[n])
  {
  }

  lemma SweptClient(c: Client)
    ensures Done(c, OpSweep) == c
  {
  }

  /** Any run of allocations, link updates, frees of trees and sweeps: afterwards exactly the tokens
      not given back are in use, each in its own slot and with what was last written into it. */
  method Run(m: Manager, ops: seq<Op>, at0: seq<Addr>, ghost c: Client) returns (at: seq<Addr>)
    requires m.Valid() && Represents(m.blocks, at0, c) && PossibleAll(c, ops)
    modifies m
    ensures m.Valid() && Represents(m.blocks, at, DoneAll(c, ops)) && at0 <= at
  {
    hide Represents, Possible, Done;
    at := at0;
    for k := 0 to |ops|
      invariant m.Valid() && Represents(m.blocks, at, DoneAll(c, ops[..k])) && at0 <= at
    {
      assert ops[..k + 1][..k] == ops[..k];
      at := Perform(m, ops[k], at, DoneAll(c, ops[..k]));
    }
    assert ops[..|ops|] == ops;
  }

  /** A new allocator stands for an owner without tokens. */
  lemma NothingYet()
    ensures Represents(map[], [], Client(0, map[]))
  {
  }
}
