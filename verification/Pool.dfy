/** The per-thread connection pool of a database host: any number of threads take turns, one atomic
    step at a time, through dbinstance (framework/database/dbquery.c) with its compare-and-swap
    spin lock and its two critical sections. */
module Pool {
  import opened Common

  datatype Conn = Conn(id: nat, thread: int)

  /** Where a thread stands in dbinstance. */
  datatype Pc =
    | Idle
    | Lock1                          // spinning for the first critical section
    | Find(j: nat)                   // holding the lock, at element j of the array
    | Unlock1(found: Option<Conn>)
    | Create                         // no lock held
    | Lock2(c: Conn)                 // spinning for the second critical section
    | ReadSize(c: Conn)              // holding the lock, about to append
    | Write(c: Conn, n: nat)         // ... at the place read before
    | Unlock2(c: Conn)
    | Check(c: Conn)                 // is the connection active, can it be opened again?
    | Done(c: Conn)                  // returned to the caller

  datatype State = State(locked: bool, conns: seq<Conn>, nextId: nat, pcs: map<int, Pc>)

  /** Holding the lock. */
  predicate Critical(pc: Pc)
  {
    pc.Find? || pc.Unlock1? || pc.ReadSize? || pc.Write? || pc.Unlock2?
  }

  function Goto(s: State, t: int, pc: Pc): State
  {
    s.(pcs := s.pcs[t := pc])
  }

  /** The next step of thread t; ok is the outcome of opening a connection, where that is tried. */
  function Step(s: State, t: int, ok: bool): State
    requires t in s.pcs
  {
    match s.pcs[t]
    case Idle => Goto(s, t, Lock1)
    case Lock1 => if s.locked then s else Goto(s.(locked := true), t, Find(0))
    case Find(j) =>
      if j >= |s.conns| then Goto(s, t, Unlock1(None))
      else if s.conns[j].thread == t then Goto(s, t, Unlock1(Some(s.conns[j])))
      else Goto(s, t, Find(j + 1))
    case Unlock1(found) => Goto(s.(locked := false), t, if found.None? then Create else Check(found.value))
    case Create => if ok then Goto(s.(nextId := s.nextId + 1), t, Lock2(Conn(s.nextId, t))) else Goto(s, t, Idle)
    case Lock2(c) => if s.locked then s else Goto(s.(locked := true), t, ReadSize(c))
    case ReadSize(c) => Goto(s, t, Write(c, |s.conns|))
    case Write(c, n) => Goto(s.(conns := (if n <= |s.conns| then s.conns[..n] else s.conns) + [c]), t, Unlock2(c))
    case Unlock2(c) => Goto(s.(locked := false), t, Check(c))
    case Check(c) => Goto(s, t, if ok then Done(c) else Idle)
    case Done(c) => Goto(s, t, Idle)
  }

  /** A schedule: which thread moves, and the outcome it meets. */
  datatype Move = Move(t: int, ok: bool)

  ghost function Run(s: State, moves: seq<Move>): State
  {
    if moves == [] then s
    else
      var m := moves[|moves| - 1];
      var s' := Run(s, moves[..|moves| - 1]);
      if m.t in s'.pcs then Step(s', m.t, m.ok) else s'
  }

  ghost function Start(threads: set<int>): State
  {
    State(false, [], 0, map t | t in threads :: Idle)
  }

  // ----- the invariant

  ghost predicate Has(conns: seq<Conn>, t: int)
  {
    exists i :: 0 <= i < |conns| && conns[i].thread == t
  }

  /** What a thread at pc can rely on, whatever the others do. */
  ghost predicate Local(conns: seq<Conn>, t: int, pc: Pc)
  {
    match pc
    case Idle => true
    case Lock1 => true
    case Find(j) => j <= |conns| && forall i :: 0 <= i < j ==> conns[i].thread != t
    case Unlock1(found) => if found.None? then !Has(conns, t) else found.value in conns && found.value.thread == t
    case Create => !Has(conns, t)
    case Lock2(c) => !Has(conns, t) && c.thread == t
    case ReadSize(c) => !Has(conns, t) && c.thread == t
    case Write(c, n) => !Has(conns, t) && c.thread == t && n == |conns|
    case Unlock2(c) => c in conns && c.thread == t
    case Check(c) => c in conns && c.thread == t
    case Done(c) => c in conns && c.thread == t
  }

  ghost predicate OnePerThread(conns: seq<Conn>)
  {
    forall i, j :: 0 <= i < j < |conns| ==> conns[i].thread != conns[j].thread
  }

  ghost predicate Exclusive(s: State)
  {
    && (forall t, u :: t in s.pcs && u in s.pcs && Critical(s.pcs[t]) && Critical(s.pcs[u]) ==> t == u)
    && (s.locked <==> exists t :: t in s.pcs && Critical(s.pcs[t]))
  }

  ghost predicate Inv(s: State)
  {
    Exclusive(s) && OnePerThread(s.conns) && forall t :: t in s.pcs ==> Local(s.conns, t, s.pcs[t])
  }

  /** The lock keeps the two critical sections apart. */
  lemma StepExclusive(s: State, t: int, ok: bool)
    requires Exclusive(s) && t in s.pcs
    ensures Exclusive(Step(s, t, ok))
  {
    var s' := Step(s, t, ok);
    assert t in s'.pcs && forall u :: u in s'.pcs && u != t ==> u in s.pcs && s'.pcs[u] == s.pcs[u];
    if Critical(s.pcs[t]) && !Critical(s'.pcs[t]) {
      assert forall u :: u in s'.pcs ==> !Critical(s'.pcs[u]);
    } else if Critical(s'.pcs[t]) && !Critical(s.pcs[t]) {
      assert forall u :: u in s.pcs ==> !Critical(s.pcs[u]);
    } else {
      assert Critical(s.pcs[t]) <==> Critical(s'.pcs[t]);
      assert forall u :: u in s.pcs <==> u in s'.pcs;
      assert forall u :: u in s.pcs ==> (Critical(s.pcs[u]) <==> Critical(s'.pcs[u]));
    }
  }

  /** An append by one thread disturbs no other thread that is outside the critical sections. */
  lemma LocalAppend(conns: seq<Conn>, c: Conn, t: int, pc: Pc)
    requires Local(conns, t, pc) && c.thread != t && !Critical(pc)
    ensures Local(conns + [c], t, pc)
  {
    var conns' := conns + [c];
    if Has(conns', t) {
      var i :| 0 <= i < |conns'| && conns'[i].thread == t;
      assert conns[i].thread == t;
    }
    assert forall d :: d in conns ==> d in conns';
  }

  lemma StepLocal(s: State, t: int, ok: bool)
    requires Inv(s) && t in s.pcs
    ensures var s' := Step(s, t, ok);
            OnePerThread(s'.conns) && s.conns <= s'.conns && forall u :: u in s'.pcs ==> Local(s'.conns, u, s'.pcs[u])
  {
    var s' := Step(s, t, ok);
    assert Local(s.conns, t, s.pcs[t]);
    if s.pcs[t].Write? {
      var c := s.pcs[t].c;
      assert s'.conns == s.conns + [c];
      assert s'.conns[|s.conns|] == c;
      forall u | u in s'.pcs && u != t
        ensures Local(s'.conns, u, s'.pcs[u])
      {
        LocalAppend(s.conns, c, u, s.pcs[u]);
      }
    } else {
      assert s'.conns == s.conns;
      assert Local(s.conns, t, s'.pcs[t]);
    }
  }

  /** Every interleaving keeps the invariant. */
  lemma {:induction false} RunInv(s: State, moves: seq<Move>)
    requires Inv(s)
    ensures Inv(Run(s, moves)) && s.conns <= Run(s, moves).conns
    decreases |moves|
  {
    if moves != [] {
      var k := |moves| - 1;
      RunInv(s, moves[..k]);
      var s', m := Run(s, moves[..k]), moves[k];
      if m.t in s'.pcs {
        StepExclusive(s', m.t, m.ok);
        StepLocal(s', m.t, m.ok);
      }
    }
  }

  /** From the start, in every interleaving of any number of threads: at most one thread is in a
      critical section, the host holds at most one connection per thread, and a thread that got a
      connection got its own, one of the host's. */
  lemma PoolSafe(threads: set<int>, moves: seq<Move>)
    ensures var s := Run(Start(threads), moves);
            && (forall t, u :: t in s.pcs && u in s.pcs && Critical(s.pcs[t]) && Critical(s.pcs[u]) ==> t == u)
            && (forall i, j :: 0 <= i < j < |s.conns| ==> s.conns[i].thread != s.conns[j].thread)
            && (forall t :: t in s.pcs && s.pcs[t].Done? ==> s.pcs[t].c.thread == t && s.pcs[t].c in s.conns)
  {
    RunInv(Start(threads), moves);
    var s := Run(Start(threads), moves);
    forall t | t in s.pcs && s.pcs[t].Done?
      ensures s.pcs[t].c.thread == t && s.pcs[t].c in s.conns
    {
      assert Local(s.conns, t, s.pcs[t]);
    }
  }

  /** A thread gets the same connection whenever it asks. */
  lemma SameConnection(threads: set<int>, moves: seq<Move>, more: seq<Move>, t: int)
    requires var s := Run(Start(threads), moves); t in s.pcs && s.pcs[t].Done?
    requires var s' := Run(Run(Start(threads), moves), more); t in s'.pcs && s'.pcs[t].Done?
    ensures Run(Run(Start(threads), moves), more).pcs[t] == Run(Start(threads), moves).pcs[t]
  {
    var s := Run(Start(threads), moves);
    RunInv(Start(threads), moves);
    RunInv(s, more);
    var s' := Run(s, more);
    var c, c' := s.pcs[t].c, s'.pcs[t].c;
    assert Local(s.conns, t, s.pcs[t]) && Local(s'.conns, t, s'.pcs[t]);
    var i :| 0 <= i < |s.conns| && s.conns[i] == c;
    var j :| 0 <= j < |s'.conns| && s'.conns[j] == c';
    assert s'.conns[i] == c;
    assert i == j;
  }

  // ----- what a call returns

  /** The identifiers given out so far are below the next one. */
  ghost predicate Below(s: State)
  {
    && (forall i :: 0 <= i < |s.conns| ==> s.conns[i].id < s.nextId)
    && (forall t :: t in s.pcs ==> PcBelow(s.pcs[t], s.nextId))
  }

  ghost predicate PcBelow(pc: Pc, n: nat)
  {
    match pc
    case Lock2(c) => c.id < n
    case ReadSize(c) => c.id < n
    case Write(c, _) => c.id < n
    case _ => true
  }

  lemma StepBelow(s: State, t: int, ok: bool)
    requires Below(s) && t in s.pcs
    ensures Below(Step(s, t, ok))
  {
    assert PcBelow(s.pcs[t], s.nextId);
    var s' := Step(s, t, ok);
    forall u | u in s'.pcs
      ensures PcBelow(s'.pcs[u], s'.nextId)
    {
      assert u != t ==> PcBelow(s.pcs[u], s.nextId);
    }
  }

  lemma {:induction false} RunBelow(s: State, moves: seq<Move>)
    requires Below(s)
    ensures Below(Run(s, moves))
    decreases |moves|
  {
    if moves != [] {
      var k := |moves| - 1;
      RunBelow(s, moves[..k]);
      if moves[k].t in Run(s, moves[..k]).pcs {
        StepBelow(Run(s, moves[..k]), moves[k].t, moves[k].ok);
      }
    }
  }

  /** Thread t moves n times with one outcome, and no other thread moves. */
  ghost function Alone(t: int, n: nat, ok: bool): seq<Move>
  {
    seq(n, _ => Move(t, ok))
  }

  lemma {:induction false} RunMore(s: State, a: seq<Move>, b: seq<Move>)
    ensures Run(s, a + b) == Run(Run(s, a), b)
    decreases |b|
  {
    if b == [] {
      assert a + b == a;
    } else {
      assert (a + b)[..|a + b| - 1] == a + b[..|b| - 1];
      RunMore(s, a, b[..|b| - 1]);
    }
  }

  lemma AloneOnce(s: State, t: int, n: nat, ok: bool)
    requires t in s.pcs
    ensures Run(s, Alone(t, n + 1, ok)) == Run(Step(s, t, ok), Alone(t, n, ok))
  {
    var one := [Move(t, ok)];
    assert Alone(t, n + 1, ok) == one + Alone(t, n, ok);
    RunMore(s, one, Alone(t, n, ok));
    assert one[..0] == [] && Run(s, []) == s;
  }

  lemma AloneNone(s: State, t: int, ok: bool)
    ensures Run(s, Alone(t, 0, ok)) == s
  {
  }

  /** The search passes the connections of other threads. */
  lemma {:induction false} FindsAt(s: State, t: int, j: nat, k: nat, n: nat, ok: bool)
    requires t in s.pcs && s.pcs[t] == Find(j) && j + k <= |s.conns| && forall i :: j <= i < j + k ==> s.conns[i].thread != t
    ensures Run(s, Alone(t, k + n, ok)) == Run(Goto(s, t, Find(j + k)), Alone(t, n, ok))
    decreases k
  {
    hide Run;
    if k == 0 {
      assert Goto(s, t, Find(j)) == s;
    } else {
      AloneOnce(s, t, k - 1 + n, ok);
      var s1 := Goto(s, t, Find(j + 1));
      assert Step(s, t, ok) == s1;
      FindsAt(s1, t, j + 1, k - 1, n, ok);
      assert Goto(s1, t, Find(j + k)) == Goto(s, t, Find(j + k));
    }
  }

  /** Into the first critical section and up to place k of the array. */
  lemma Enters(s: State, t: int, k: nat, n: nat, ok: bool)
    requires t in s.pcs && s.pcs[t] == Idle && !s.locked && k <= |s.conns| && forall i :: 0 <= i < k ==> s.conns[i].thread != t
    ensures Run(s, Alone(t, k + 2 + n, ok)) == Run(Goto(s.(locked := true), t, Find(k)), Alone(t, n, ok))
  {
    hide Run;
    var s1, s2 := Goto(s, t, Lock1), Goto(s.(locked := true), t, Find(0));
    AloneOnce(s, t, k + 1 + n, ok);
    AloneOnce(s1, t, k + n, ok);
    assert Step(s1, t, ok) == s2;
    FindsAt(s2, t, 0, k, n, ok);
    assert Goto(s2, t, Find(k)) == Goto(s.(locked := true), t, Find(k));
  }

  /** One move of t, and then n more. */
  lemma Hop(s: State, s': State, t: int, n: nat, ok: bool)
    requires t in s.pcs && Step(s, t, ok) == s'
    ensures Run(s, Alone(t, n + 1, ok)) == Run(s', Alone(t, n, ok)) && (n == 0 ==> Run(s, Alone(t, n + 1, ok)) == s')
  {
    hide Run, Step;
    AloneOnce(s, t, n, ok);
    AloneNone(s', t, ok);
  }

  lemma GotoTwice(s: State, t: int, pc: Pc, pc': Pc)
    ensures Goto(Goto(s, t, pc), t, pc') == Goto(s, t, pc') && Goto(s, t, pc).pcs[t] == pc
    ensures t in s.pcs ==> Goto(s, t, s.pcs[t]) == s
  {
    assert s.pcs[t := pc][t := pc'] == s.pcs[t := pc'];
  }

  /** The moves of t in the first critical section, at the place where its search ends. */
  lemma FirstSection(s: State, t: int, k: nat, ok: bool)
    requires !s.locked && k <= |s.conns| && (k < |s.conns| ==> s.conns[k].thread == t)
    ensures var found := if k < |s.conns| then Some(s.conns[k]) else None;
            var in1 := s.(locked := true);
            && Step(Goto(in1, t, Find(k)), t, ok) == Goto(in1, t, Unlock1(found))
            && Step(Goto(in1, t, Unlock1(found)), t, ok) == Goto(s, t, if found.None? then Create else Check(found.value))
  {
    var found := if k < |s.conns| then Some(s.conns[k]) else None;
    var in1 := s.(locked := true);
    GotoTwice(in1, t, Find(k), Unlock1(found));
    GotoTwice(in1.(locked := false), t, Unlock1(found), if found.None? then Create else Check(found.value));
    assert in1.(locked := false) == s;
  }

  lemma CheckStep(s: State, t: int, c: Conn, ok: bool)
    ensures Step(Goto(s, t, Check(c)), t, ok) == Goto(s, t, if ok then Done(c) else Idle)
  {
    GotoTwice(s, t, Check(c), if ok then Done(c) else Idle);
  }

  lemma CreateStep(s: State, t: int, ok: bool)
    requires t in s.pcs && s.pcs[t] == Idle
    ensures Step(Goto(s, t, Create), t, ok)
         == if ok then Goto(s.(nextId := s.nextId + 1), t, Lock2(Conn(s.nextId, t))) else s
  {
    GotoTwice(s, t, Create, Idle);
    GotoTwice(s.(nextId := s.nextId + 1), t, Create, Lock2(Conn(s.nextId, t)));
  }

  /** The moves of t in the second critical section. */
  lemma SecondSection(s: State, t: int, c: Conn, ok: bool)
    requires !s.locked
    ensures var in2 := s.(locked := true);
            var grown := in2.(conns := s.conns + [c]);
            && Step(Goto(s, t, Lock2(c)), t, ok) == Goto(in2, t, ReadSize(c))
            && Step(Goto(in2, t, ReadSize(c)), t, ok) == Goto(in2, t, Write(c, |s.conns|))
            && Step(Goto(in2, t, Write(c, |s.conns|)), t, ok) == Goto(grown, t, Unlock2(c))
            && Step(Goto(grown, t, Unlock2(c)), t, ok) == Goto(s.(conns := s.conns + [c]), t, Check(c))
  {
    var in2 := s.(locked := true);
    var grown := in2.(conns := s.conns + [c]);
    GotoTwice(in2, t, Lock2(c), ReadSize(c));
    GotoTwice(in2, t, ReadSize(c), Write(c, |s.conns|));
    assert s.conns[..|s.conns|] == s.conns;
    GotoTwice(grown, t, Write(c, |s.conns|), Unlock2(c));
    GotoTwice(grown.(locked := false), t, Unlock2(c), Check(c));
  }

  lemma InGoto(s: State, t: int, pc: Pc)
    ensures t in Goto(s, t, pc).pcs
  {
  }

  /** A thread that has a connection, at place i, gets it in i + 5 moves of its own if it is active
      or can be opened again, and nothing else changes. */
  lemma CallFinds(s: State, t: int, i: nat, ok: bool)
    requires OnePerThread(s.conns) && t in s.pcs && s.pcs[t] == Idle && !s.locked && i < |s.conns| && s.conns[i].thread == t
    ensures Run(s, Alone(t, i + 5, ok)) == Goto(s, t, if ok then Done(s.conns[i]) else Idle)
  {
    hide Run, Step, Goto, Alone;
    var c, in1 := s.conns[i], s.(locked := true);
    Enters(s, t, i, 3, ok);
    FirstSection(s, t, i, ok);
    CheckStep(s, t, c, ok);
    InGoto(in1, t, Find(i));
    Hop(Goto(in1, t, Find(i)), Goto(in1, t, Unlock1(Some(c))), t, 2, ok);
    InGoto(in1, t, Unlock1(Some(c)));
    Hop(Goto(in1, t, Unlock1(Some(c))), Goto(s, t, Check(c)), t, 1, ok);
    InGoto(s, t, Check(c));
    Hop(Goto(s, t, Check(c)), Goto(s, t, if ok then Done(c) else Idle), t, 0, ok);
  }

  /** A thread without a connection, up to the outcome of creating one. */
  lemma CallCreates(s: State, t: int, ok: bool)
    requires t in s.pcs && s.pcs[t] == Idle && !s.locked && !Has(s.conns, t)
    ensures Run(s, Alone(t, |s.conns| + 5, ok))
         == if ok then Goto(s.(nextId := s.nextId + 1), t, Lock2(Conn(s.nextId, t))) else s
  {
    hide Run, Step, Goto, Alone;
    var k, in1 := |s.conns|, s.(locked := true);
    Enters(s, t, k, 3, ok);
    FirstSection(s, t, k, ok);
    CreateStep(s, t, ok);
    InGoto(in1, t, Find(k));
    Hop(Goto(in1, t, Find(k)), Goto(in1, t, Unlock1(None)), t, 2, ok);
    InGoto(in1, t, Unlock1(None));
    Hop(Goto(in1, t, Unlock1(None)), Goto(s, t, Create), t, 1, ok);
    InGoto(s, t, Create);
    Hop(Goto(s, t, Create), Step(Goto(s, t, Create), t, ok), t, 0, ok);
  }

  /** From there, through the second critical section. */
  lemma CallAppends(s: State, t: int, c: Conn, ok: bool)
    requires !s.locked
    ensures Run(Goto(s, t, Lock2(c)), Alone(t, 5, ok)) == Goto(s.(conns := s.conns + [c]), t, if ok then Done(c) else Idle)
  {
    hide Run, Step, Goto, Alone;
    var in2, out := s.(locked := true), s.(conns := s.conns + [c]);
    var grown := in2.(conns := s.conns + [c]);
    SecondSection(s, t, c, ok);
    CheckStep(out, t, c, ok);
    InGoto(s, t, Lock2(c));
    Hop(Goto(s, t, Lock2(c)), Goto(in2, t, ReadSize(c)), t, 4, ok);
    InGoto(in2, t, ReadSize(c));
    Hop(Goto(in2, t, ReadSize(c)), Goto(in2, t, Write(c, |s.conns|)), t, 3, ok);
    InGoto(in2, t, Write(c, |s.conns|));
    Hop(Goto(in2, t, Write(c, |s.conns|)), Goto(grown, t, Unlock2(c)), t, 2, ok);
    InGoto(grown, t, Unlock2(c));
    Hop(Goto(grown, t, Unlock2(c)), Goto(out, t, Check(c)), t, 1, ok);
    InGoto(out, t, Check(c));
    Hop(Goto(out, t, Check(c)), Goto(out, t, if ok then Done(c) else Idle), t, 0, ok);
  }

  lemma {:induction false} Reached(threads: set<int>, moves: seq<Move>)
    ensures Inv(Run(Start(threads), moves)) && Below(Run(Start(threads), moves))
  {
    RunInv(Start(threads), moves);
    RunBelow(Start(threads), moves);
  }

  /** What dbinstance gives a thread that calls it when the lock is free, in every state the threads
      can bring the pool to. Its own connection if it has one, which stays in the pool whether it can
      be used or not. */
  lemma CallFindsOwn(threads: set<int>, moves: seq<Move>, t: int, i: nat, active: bool)
    requires var s := Run(Start(threads), moves);
             t in s.pcs && s.pcs[t] == Idle && !s.locked && i < |s.conns| && s.conns[i].thread == t
    ensures var s := Run(Start(threads), moves);
            Run(s, Alone(t, i + 5, active)) == s.(pcs := s.pcs[t := if active then Done(s.conns[i]) else Idle])
  {
    Reached(threads, moves);
    hide Run, Alone;
    CallFinds(Run(Start(threads), moves), t, i, active);
  }

  /** Otherwise, if one can be created, a new one, which is then the last of the pool, whether it can
      be used or not; and if none can be created, nothing, and the pool is as before. */
  lemma CallCreatesOne(threads: set<int>, moves: seq<Move>, t: int, active: bool)
    requires var s := Run(Start(threads), moves); t in s.pcs && s.pcs[t] == Idle && !s.locked && !Has(s.conns, t)
    ensures var s := Run(Start(threads), moves);
            var c := Conn(s.nextId, t);
            && (forall i :: 0 <= i < |s.conns| ==> s.conns[i].id != c.id)
            && Run(s, Alone(t, |s.conns| + 5, true) + Alone(t, 5, active))
                 == State(false, s.conns + [c], s.nextId + 1, s.pcs[t := if active then Done(c) else Idle])
            && Run(s, Alone(t, |s.conns| + 5, false)) == s
  {
    Reached(threads, moves);
    hide Run, Alone, Inv;
    var s := Run(Start(threads), moves);
    var s1 := s.(nextId := s.nextId + 1);
    CallCreates(s, t, true);
    CallCreates(s, t, false);
    RunMore(s, Alone(t, |s.conns| + 5, true), Alone(t, 5, active));
    CallAppends(s1, t, Conn(s.nextId, t), active);
  }
}
