/**
 The UDP half of connectx as a concurrent protocol: any number of callers share a local
 2-tuple and use SO_REUSEADDR 1 -> 0 -> 1 as a lock around "is my cookie on top?".
 Every system call is one atomic step and steps of different callers interleave freely.
 */
module Connectx {
  import opened Basics
  import opened UdpKernel

  /** Where a caller of _connectx_udp stands: the system call it has just returned from. */
  datatype Pc =
    | Fresh       // socket() only
    | Reusable    // SO_REUSEADDR=1 set
    | Bound       // bind() succeeded
    | Locked      // SO_REUSEADDR=0 set: critical section entered
    | Passed      // lookup answered with our own cookie
    | Rejected    // lookup answered with someone else
    | Dissolved   // AF_UNSPEC connect done after a rejection
    | Joined      // connect() done, lock still held
    | Done        // lock released after connecting
    | Raised      // OSError reported to the caller
    | Bystander   // a socket that never runs the protocol and never connects

  datatype Proc = Proc(pc: Pc, local: Addr, remote: Addr)

  datatype State = State(k: KState, procs: map<Cookie, Proc>)

  datatype Step =
    | Spawn(c: Cookie, local: Addr, remote: Addr)
    | Run(c: Cookie, keepBind: bool)
    | Exit(c: Cookie)
    | OpenBystander(c: Cookie)
    | BystanderReuse(c: Cookie, b: bool)
    | BystanderBind(c: Cookie, local: Addr)

  const InitState := State(KState(map[], 0), map[])

  predicate InCritical(pc: Pc) {
    pc in {Locked, Passed, Rejected, Dissolved, Joined}
  }

  function At(s: State, k: KState, c: Cookie, pc: Pc): State
    requires c in s.procs
  {
    State(k, s.procs[c := s.procs[c].(pc := pc)])
  }

  /** The next system call of caller c; None when it has none left. */
  function RunOne(s: State, c: Cookie, keepBind: bool): (next: Option<State>)
    requires c in s.procs && c in s.k.socks
    ensures next.Some? ==> c in next.value.procs && c in next.value.k.socks
  {
    var p := s.procs[c];
    match p.pc
    case Fresh => Some(At(s, SetReuse(s.k, c, true), c, Reusable))
    case Reusable =>
      if BindOk(s.k, c, p.local) then Some(At(s, Bind(s.k, c, p.local), c, Bound))
      else Some(At(s, s.k, c, Raised))
    case Bound => Some(At(s, SetReuse(s.k, c, false), c, Locked))
    case Locked =>
      Some(At(s, s.k, c, if OnTop(s.k, c, p.local, p.remote) then Passed else Rejected))
    case Passed => Some(At(s, Connect(s.k, c, p.remote), c, Joined))
    case Rejected => Some(At(s, Dissolve(s.k, c, keepBind), c, Dissolved))
    case Dissolved => Some(At(s, SetReuse(s.k, c, true), c, Raised))
    case Joined => Some(At(s, SetReuse(s.k, c, true), c, Done))
    case Done => None
    case Raised => None
    case Bystander => None
  }

  /** One atomic step of the whole system; None when the step is not possible. */
  function Next(s: State, step: Step): Option<State> {
    match step
    case Spawn(c, l, r) =>
      if c in s.procs then None
      else Some(State(Open(s.k, c), s.procs[c := Proc(Fresh, l, r)]))
    case Run(c, keepBind) =>
      if c in s.procs && c in s.k.socks then RunOne(s, c, keepBind) else None
    case Exit(c) =>
      if c in s.k.socks then Some(s.(k := Close(s.k, c))) else None
    case OpenBystander(c) =>
      if c in s.procs then None
      else Some(State(Open(s.k, c), s.procs[c := Proc(Bystander, Addr(0, 0), Addr(0, 0))]))
    case BystanderReuse(c, b) =>
      if c in s.procs && c in s.k.socks && s.procs[c].pc == Bystander
      then Some(s.(k := SetReuse(s.k, c, b))) else None
    case BystanderBind(c, l) =>
      if c in s.procs && c in s.k.socks && s.procs[c].pc == Bystander && BindOk(s.k, c, l)
      then Some(s.(k := Bind(s.k, c, l))) else None
  }

  /** A run: the states reached by a list of steps, each of which was possible. */
  ghost predicate IsRun(trace: seq<State>, steps: seq<Step>) {
    && |trace| == |steps| + 1
    && trace[0] == InitState
    && forall i :: 0 <= i < |steps| ==> Next(trace[i], steps[i]) == Some(trace[i + 1])
  }

  // ----- the inductive invariant

  /** What the kernel knows about a live socket agrees with where its caller stands. */
  predicate SockFits(p: Proc, x: Sock) {
    match p.pc
    case Fresh => x.local.None? && x.remote.None?
    case Reusable => x.local.None? && x.remote.None? && x.reuse
    case Bound => x.local == Some(p.local) && x.remote.None? && x.reuse
    case Locked => x.local == Some(p.local) && x.remote.None? && !x.reuse
    case Passed => x.local == Some(p.local) && x.remote.None? && !x.reuse
    case Rejected => x.local == Some(p.local) && x.remote.None? && !x.reuse
    case Dissolved => (x.local.None? || x.local == Some(p.local)) && x.remote.None? && !x.reuse
    case Joined => x.local == Some(p.local) && x.remote == Some(p.remote) && !x.reuse
    case Done => x.local == Some(p.local) && x.remote == Some(p.remote) && x.reuse
    case Raised => (x.local.None? || x.local == Some(p.local)) && x.remote.None? && x.reuse
    case Bystander => x.remote.None?
  }

  /** Socket d, if it shares c's 2-tuple, is an older unconnected bind or is connected to another peer. */
  predicate Below(s: State, c: Cookie, d: Cookie)
    requires c in s.procs && c in s.k.socks && d in s.k.socks
  {
    var x := s.k.socks[d];
    x.local == Some(s.procs[c].local) ==>
      if x.remote.None? then x.stamp < s.k.socks[c].stamp else x.remote != Some(s.procs[c].remote)
  }

  ghost predicate AllFit(s: State) {
    forall c :: c in s.k.socks ==> c in s.procs && SockFits(s.procs[c], s.k.socks[c])
  }

  /** A caller that passed the cookie test stays on top of its 2-tuple. */
  ghost predicate PassedStillTop(s: State)
    requires AllFit(s)
  {
    forall c, d :: c in s.k.socks && d in s.k.socks && d != c && s.procs[c].pc == Passed ==> Below(s, c, d)
  }

  predicate SameFourTuple(x: Sock, y: Sock) {
    x.local.Some? && x.remote.Some? && x.local == y.local && x.remote == y.remote
  }

  /** No two sockets are connected on the same 4-tuple. */
  ghost predicate OneOwner(k: KState) {
    forall c, d :: c in k.socks && d in k.socks && c != d ==> !SameFourTuple(k.socks[c], k.socks[d])
  }

  ghost predicate Inv(s: State) {
    StampsOk(s.k) && AllFit(s) && PassedStillTop(s) && OneOwner(s.k)
  }

  /** Only caller c and its socket may differ between the two states. */
  ghost predicate OnlyMoved(s: State, c: Cookie, s': State) {
    && c in s.procs && c in s.k.socks && c in s'.procs && c in s'.k.socks
    && s'.k.socks.Keys == s.k.socks.Keys && s'.procs.Keys == s.procs.Keys
    && (forall d :: d in s.k.socks && d != c ==> s'.k.socks[d] == s.k.socks[d])
    && (forall d :: d in s.procs && d != c ==> s'.procs[d] == s.procs[d])
    && s'.procs[c].local == s.procs[c].local && s'.procs[c].remote == s.procs[c].remote
  }

  lemma CallerMoves(s: State, c: Cookie, keepBind: bool, s': State)
    requires c in s.procs && c in s.k.socks && RunOne(s, c, keepBind) == Some(s')
    ensures OnlyMoved(s, c, s')
  {
  }

  lemma CallerFits(s: State, c: Cookie, keepBind: bool, s': State)
    requires AllFit(s) && c in s.procs && c in s.k.socks && RunOne(s, c, keepBind) == Some(s')
    ensures OnlyMoved(s, c, s') && AllFit(s')
    ensures s'.k.clock >= s.k.clock && s'.k.clock <= s.k.clock + 1
    ensures s'.k.socks[c].local.Some? ==>
              if s'.k.clock == s.k.clock
              then s.k.socks[c].local.Some? && s'.k.socks[c].stamp == s.k.socks[c].stamp
              else s'.k.socks[c].stamp == s.k.clock
  {
    CallerMoves(s, c, keepBind, s');
    assert SockFits(s.procs[c], s.k.socks[c]);
    assert SockFits(s'.procs[c], s'.k.socks[c]);
  }

  lemma CallerKeepsStamps(s: State, c: Cookie, keepBind: bool, s': State)
    requires StampsOk(s.k) && AllFit(s) && c in s.procs && c in s.k.socks && RunOne(s, c, keepBind) == Some(s')
    ensures StampsOk(s'.k)
  {
    CallerFits(s, c, keepBind, s');
  }

  /** The cookie test establishes that everyone else is below. */
  lemma TestPutsOthersBelow(s: State, c: Cookie, d: Cookie)
    requires Inv(s) && c in s.k.socks && d in s.k.socks && d != c && s.procs[c].pc == Locked
    requires OnTop(s.k, c, s.procs[c].local, s.procs[c].remote)
    ensures Below(s, c, d)
  {
    assert SockFits(s.procs[c], s.k.socks[c]);
    if Matches(s.k.socks[d], s.procs[c].local, s.procs[c].remote) {
      assert Above(s.k.socks[c], s.k.socks[d]);
    }
  }

  /** Two callers cannot both have passed the test on one 2-tuple. */
  lemma OnePassedPerTuple(s: State, c: Cookie, d: Cookie)
    requires Inv(s) && c in s.k.socks && d in s.k.socks && c != d
    requires s.procs[c].pc == Passed && s.procs[d].pc == Passed
    ensures s.procs[c].local != s.procs[d].local
  {
    assert SockFits(s.procs[c], s.k.socks[c]) && SockFits(s.procs[d], s.k.socks[d]);
    assert Below(s, c, d) && Below(s, d, c);
  }

  /** A step of d leaves d below a caller c that passed the test: a locked 2-tuple admits no new bind. */
  lemma MoverStaysBelow(s: State, c: Cookie, d: Cookie, keepBind: bool, s': State)
    requires Inv(s) && c in s.k.socks && d in s.k.socks && c != d && s.procs[c].pc == Passed
    requires RunOne(s, d, keepBind) == Some(s')
    ensures c in s'.procs && c in s'.k.socks && d in s'.k.socks && Below(s', c, d)
  {
    assert SockFits(s.procs[c], s.k.socks[c]) && SockFits(s.procs[d], s.k.socks[d]);
    assert Below(s, c, d);
    if s.procs[d].pc == Passed {
      OnePassedPerTuple(s, c, d);
    }
  }

  lemma CallerKeepsBelow(s: State, c: Cookie, keepBind: bool, s': State, a: Cookie, d: Cookie)
    requires Inv(s) && c in s.procs && c in s.k.socks && RunOne(s, c, keepBind) == Some(s') && OnlyMoved(s, c, s')
    requires a in s'.k.socks && d in s'.k.socks && d != a && a in s'.procs && s'.procs[a].pc == Passed
    ensures Below(s', a, d)
  {
    assert SockFits(s.procs[c], s.k.socks[c]);
    if a == c {
      TestPutsOthersBelow(s, c, d);
    } else if d == c {
      MoverStaysBelow(s, a, c, keepBind, s');
    } else {
      assert Below(s, a, d);
    }
  }

  lemma CallerKeepsApart(s: State, c: Cookie, keepBind: bool, s': State, a: Cookie, d: Cookie)
    requires Inv(s) && c in s.procs && c in s.k.socks && RunOne(s, c, keepBind) == Some(s') && OnlyMoved(s, c, s')
    requires a in s'.k.socks && d in s'.k.socks && a != d
    ensures !SameFourTuple(s'.k.socks[a], s'.k.socks[d])
  {
    assert SockFits(s.procs[c], s.k.socks[c]);
    if s.procs[c].pc == Passed && (a == c || d == c) {
      assert Below(s, c, if a == c then d else a);
    } else {
      assert !SameFourTuple(s.k.socks[a], s.k.socks[d]);
    }
  }

  lemma CallerKeepsInv(s: State, c: Cookie, keepBind: bool, s': State)
    requires Inv(s) && c in s.procs && c in s.k.socks && RunOne(s, c, keepBind) == Some(s')
    ensures Inv(s')
  {
    CallerFits(s, c, keepBind, s');
    CallerKeepsStamps(s, c, keepBind, s');
    forall a, d | a in s'.k.socks && d in s'.k.socks && d != a && s'.procs[a].pc == Passed
      ensures Below(s', a, d)
    {
      CallerKeepsBelow(s, c, keepBind, s', a, d);
    }
    forall a, d | a in s'.k.socks && d in s'.k.socks && a != d
      ensures !SameFourTuple(s'.k.socks[a], s'.k.socks[d])
    {
      CallerKeepsApart(s, c, keepBind, s', a, d);
    }
  }

  lemma BystanderFits(s: State, step: Step, s': State)
    requires StampsOk(s.k) && AllFit(s) && Next(s, step) == Some(s') && (step.BystanderReuse? || step.BystanderBind?)
    ensures OnlyMoved(s, step.c, s') && AllFit(s') && StampsOk(s'.k)
    ensures s'.k.socks[step.c].remote.None? && s'.procs == s.procs
  {
    assert SockFits(s.procs[step.c], s.k.socks[step.c]);
  }

  /** A bystander cannot bind a locked 2-tuple, so it stays below the caller that holds the lock. */
  lemma BystanderStaysBelow(s: State, step: Step, s': State, a: Cookie, d: Cookie)
    requires Inv(s) && Next(s, step) == Some(s') && (step.BystanderReuse? || step.BystanderBind?)
    requires OnlyMoved(s, step.c, s') && s'.procs == s.procs
    requires a in s'.k.socks && d in s'.k.socks && d != a && a in s'.procs && s'.procs[a].pc == Passed
    ensures Below(s', a, d)
  {
    assert Below(s, a, d) && SockFits(s.procs[a], s.k.socks[a]);
  }

  lemma BystanderKeepsInv(s: State, step: Step, s': State)
    requires Inv(s) && Next(s, step) == Some(s') && (step.BystanderReuse? || step.BystanderBind?)
    ensures Inv(s')
  {
    BystanderFits(s, step, s');
    forall a, d | a in s'.k.socks && d in s'.k.socks && d != a && s'.procs[a].pc == Passed
      ensures Below(s', a, d)
    {
      BystanderStaysBelow(s, step, s', a, d);
    }
    forall a, d | a in s'.k.socks && d in s'.k.socks && a != d
      ensures !SameFourTuple(s'.k.socks[a], s'.k.socks[d])
    {
      assert !SameFourTuple(s.k.socks[a], s.k.socks[d]);
    }
  }

  lemma ArrivalKeepsInv(s: State, step: Step, s': State)
    requires Inv(s) && Next(s, step) == Some(s') && (step.Spawn? || step.OpenBystander? || step.Exit?)
    ensures Inv(s')
  {
    var c := step.c;
    assert AllFit(s');
    forall a, d | a in s'.k.socks && d in s'.k.socks && d != a && s'.procs[a].pc == Passed
      ensures Below(s', a, d)
    {
      if a != c && d != c { assert Below(s, a, d); }
    }
    forall a, d | a in s'.k.socks && d in s'.k.socks && a != d
      ensures !SameFourTuple(s'.k.socks[a], s'.k.socks[d])
    {
      if a != c && d != c { assert !SameFourTuple(s.k.socks[a], s.k.socks[d]); }
    }
  }

  lemma StepKeepsInv(s: State, step: Step, s': State)
    requires Inv(s) && Next(s, step) == Some(s')
    ensures Inv(s')
  {
    match step
    case Run(c, keepBind) => CallerKeepsInv(s, c, keepBind, s');
    case BystanderReuse(_, _) => BystanderKeepsInv(s, step, s');
    case BystanderBind(_, _) => BystanderKeepsInv(s, step, s');
    case Spawn(_, _, _) => ArrivalKeepsInv(s, step, s');
    case OpenBystander(_) => ArrivalKeepsInv(s, step, s');
    case Exit(_) => ArrivalKeepsInv(s, step, s');
  }

  lemma {:induction false} RunKeepsInv(trace: seq<State>, steps: seq<Step>, i: nat)
    requires IsRun(trace, steps) && i < |trace|
    ensures Inv(trace[i])
  {
    if i > 0 {
      RunKeepsInv(trace, steps, i - 1);
      StepKeepsInv(trace[i - 1], steps[i - 1], trace[i]);
    }
  }

  // ----- what every interleaving guarantees

  /** Safety: in every reachable state at most one socket is connected on a 4-tuple. */
  lemma NoFourTupleShared(trace: seq<State>, steps: seq<Step>, i: nat, c: Cookie, d: Cookie, l: Addr, r: Addr)
    requires IsRun(trace, steps) && i < |trace|
    requires ConnectedOn(trace[i].k, c, l, r) && ConnectedOn(trace[i].k, d, l, r)
    ensures c == d
  {
    RunKeepsInv(trace, steps, i);
    if c != d {
      assert SameFourTuple(trace[i].k.socks[c], trace[i].k.socks[d]);
    }
  }

  /**
   Mutual exclusion: between the cookie test and connect() a caller is on top and holds the
   lock, no other socket can bind its 2-tuple, and no other caller for it has passed the test.
   */
  lemma PassedExcludesOthers(trace: seq<State>, steps: seq<Step>, i: nat, c: Cookie)
    requires IsRun(trace, steps) && i < |trace|
    requires c in trace[i].k.socks && c in trace[i].procs && trace[i].procs[c].pc == Passed
    ensures var s, l, r := trace[i], trace[i].procs[c].local, trace[i].procs[c].remote;
            && OnTop(s.k, c, l, r) && HoldsWithoutReuse(s.k, c, l)
            && (forall d :: d in s.k.socks && d != c ==> !BindOk(s.k, d, l))
            && (forall d :: d in s.k.socks && d != c && d in s.procs && s.procs[d].local == l ==>
                s.procs[d].pc != Passed)
  {
    var s := trace[i];
    RunKeepsInv(trace, steps, i);
    assert SockFits(s.procs[c], s.k.socks[c]);
    forall e | e in s.k.socks && e != c && Matches(s.k.socks[e], s.procs[c].local, s.procs[c].remote)
      ensures Above(s.k.socks[c], s.k.socks[e])
    {
      assert Below(s, c, e);
    }
    forall d | d in s.k.socks && d != c && d in s.procs && s.procs[d].local == s.procs[c].local
      ensures s.procs[d].pc != Passed
    {
      if s.procs[d].pc == Passed { OnePassedPerTuple(s, c, d); }
    }
  }

  /** The lock is never leaked: a 2-tuple is locked only by a caller inside the critical section or by a bystander. */
  lemma LockHasHolder(trace: seq<State>, steps: seq<Step>, i: nat, l: Addr)
    requires IsRun(trace, steps) && i < |trace|
    requires LockedTuple(trace[i].k, l)
    ensures exists c :: HoldsWithoutReuse(trace[i].k, c, l) && c in trace[i].procs
                        && (InCritical(trace[i].procs[c].pc) || trace[i].procs[c].pc == Bystander)
  {
    RunKeepsInv(trace, steps, i);
    var c :| HoldsWithoutReuse(trace[i].k, c, l);
    assert SockFits(trace[i].procs[c], trace[i].k.socks[c]);
  }

  /** While a socket owns the 4-tuple, the cookie test of every other caller for it fails. */
  lemma OwnerRejectsOthers(trace: seq<State>, steps: seq<Step>, i: nat, c: Cookie, d: Cookie, keepBind: bool)
    requires IsRun(trace, steps) && i < |trace|
    requires c in trace[i].k.socks && c in trace[i].procs && trace[i].procs[c].pc in {Joined, Done}
    requires d in trace[i].k.socks && d in trace[i].procs && trace[i].procs[d].pc == Locked
    requires trace[i].procs[d].local == trace[i].procs[c].local && trace[i].procs[d].remote == trace[i].procs[c].remote
    ensures RunOne(trace[i], d, keepBind) == Some(At(trace[i], trace[i].k, d, Rejected))
  {
    var s := trace[i];
    RunKeepsInv(trace, steps, i);
    assert SockFits(s.procs[c], s.k.socks[c]) && SockFits(s.procs[d], s.k.socks[d]);
    assert Matches(s.k.socks[c], s.procs[d].local, s.procs[d].remote) && !Above(s.k.socks[d], s.k.socks[c]);
  }

  /** d keeps c from the top: it is connected on the 4-tuple of c, or an unconnected bind newer than that of c. */
  predicate Blocks(s: State, c: Cookie, d: Cookie)
    requires c in s.procs && c in s.k.socks
  {
    && d in s.k.socks && d != c && s.k.socks[d].local == Some(s.procs[c].local)
    && if s.k.socks[d].remote.None? then s.k.socks[d].stamp > s.k.socks[c].stamp
       else s.k.socks[d].remote == Some(s.procs[c].remote)
  }

  /** The cookie test rejects a caller exactly when a socket on its 2-tuple blocks it. */
  lemma RejectedIffBlocked(trace: seq<State>, steps: seq<Step>, i: nat, c: Cookie, keepBind: bool)
    requires IsRun(trace, steps) && i < |trace|
    requires c in trace[i].k.socks && c in trace[i].procs && trace[i].procs[c].pc == Locked
    ensures RunOne(trace[i], c, keepBind) == Some(At(trace[i], trace[i].k, c, Rejected))
            <==> exists d :: Blocks(trace[i], c, d)
  {
    var s := trace[i];
    RunKeepsInv(trace, steps, i);
    assert SockFits(s.procs[c], s.k.socks[c]);
    if d :| Blocks(s, c, d) {
      assert Matches(s.k.socks[d], s.procs[c].local, s.procs[c].remote) && !Above(s.k.socks[c], s.k.socks[d]);
    }
    if !OnTop(s.k, c, s.procs[c].local, s.procs[c].remote) {
      var d :| d in s.k.socks && d != c && Matches(s.k.socks[d], s.procs[c].local, s.procs[c].remote)
               && !Above(s.k.socks[c], s.k.socks[d]);
      assert Blocks(s, c, d);
    }
    assert At(s, s.k, c, Rejected).procs[c].pc != At(s, s.k, c, Passed).procs[c].pc;
  }

  // ----- one caller on its own

  /** Caller c makes up to n system calls and nobody else moves. */
  ghost function RunAlone(s: State, c: Cookie, keepBind: bool, n: nat): State
    requires c in s.procs && c in s.k.socks
    decreases n
  {
    if n == 0 then s
    else
      match RunOne(s, c, keepBind)
      case None => s
      case Some(s') => RunAlone(s', c, keepBind, n - 1)
  }

  /** The kernel after the three calls that precede the cookie test. */
  function EnterCritical(k: KState, c: Cookie, l: Addr): KState
    requires c in k.socks
  {
    SetReuse(Bind(SetReuse(k, c, true), c, l), c, false)
  }

  predicate Unused(k: KState, c: Cookie) {
    c in k.socks && k.socks[c].local.None? && k.socks[c].remote.None?
  }

  lemma BindNeedsUnlocked(k: KState, c: Cookie, l: Addr)
    requires Unused(k, c)
    ensures BindOk(SetReuse(k, c, true), c, l) <==> !LockedTuple(k, l)
  {
    var k1 := SetReuse(k, c, true);
    if BindOk(k1, c, l) {
      forall d ensures !HoldsWithoutReuse(k, d, l) {
        if d in k.socks && d != c { assert d in k1.socks && k1.socks[d] == k.socks[d]; }
      }
    } else {
      var d :| d in k1.socks && d != c && k1.socks[d].local == Some(l) && !k1.socks[d].reuse;
      assert HoldsWithoutReuse(k, d, l);
    }
  }

  /** Having just bound, a lone caller is on top unless somebody is connected on the 4-tuple. */
  lemma TopUnlessConnected(k: KState, c: Cookie, l: Addr, r: Addr)
    requires StampsOk(k) && Unused(k, c)
    ensures StampsOk(EnterCritical(k, c, l))
    ensures OnTop(EnterCritical(k, c, l), c, l, r) <==> forall d :: !ConnectedOn(k, d, l, r)
  {
    var k3 := EnterCritical(k, c, l);
    assert forall d :: d in k.socks && d != c ==> d in k3.socks && k3.socks[d] == k.socks[d];
    if OnTop(k3, c, l, r) {
      forall d ensures !ConnectedOn(k, d, l, r) {
        if ConnectedOn(k, d, l, r) { assert d in k3.socks && Matches(k3.socks[d], l, r); }
      }
    } else {
      var d :| d in k3.socks && d != c && Matches(k3.socks[d], l, r) && !Above(k3.socks[c], k3.socks[d]);
      assert ConnectedOn(k, d, l, r);
    }
  }

  /** From inside the critical section: the test, then connect or dissolve, then the lock is released. */
  lemma RunFromLocked(s: State, c: Cookie, keepBind: bool)
    requires c in s.procs && s.procs[c].pc == Locked && c in s.k.socks
    ensures var l, r := s.procs[c].local, s.procs[c].remote;
            RunAlone(s, c, keepBind, 3).k ==
              if OnTop(s.k, c, l, r) then SetReuse(Connect(s.k, c, r), c, true)
              else SetReuse(Dissolve(s.k, c, keepBind), c, true)
  {
    var l, r := s.procs[c].local, s.procs[c].remote;
    var top := OnTop(s.k, c, l, r);
    var s4 := At(s, s.k, c, if top then Passed else Rejected);
    var s5 := if top then At(s4, Connect(s4.k, c, r), c, Joined) else At(s4, Dissolve(s4.k, c, keepBind), c, Dissolved);
    var s6 := At(s5, SetReuse(s5.k, c, true), c, if top then Done else Raised);
    assert RunAlone(s, c, keepBind, 3) == RunAlone(s4, c, keepBind, 2) == RunAlone(s5, c, keepBind, 1) == s6;
  }

  /** Up to the critical section. */
  lemma RunToLocked(s: State, c: Cookie, keepBind: bool)
    requires c in s.procs && s.procs[c].pc == Reusable && c in s.k.socks && BindOk(s.k, c, s.procs[c].local)
    ensures var s2 := At(s, Bind(s.k, c, s.procs[c].local), c, Bound);
            var s3 := At(s2, SetReuse(s2.k, c, false), c, Locked);
            RunAlone(s, c, keepBind, 5) == RunAlone(s3, c, keepBind, 3)
  {
    var s2 := At(s, Bind(s.k, c, s.procs[c].local), c, Bound);
    assert RunAlone(s, c, keepBind, 5) == RunAlone(s2, c, keepBind, 4);
  }

  /** What six uninterrupted system calls do. */
  lemma SoloRun(s: State, c: Cookie, keepBind: bool)
    requires c in s.procs && s.procs[c].pc == Fresh && Unused(s.k, c)
    ensures var l, r := s.procs[c].local, s.procs[c].remote;
            var k1, k3 := SetReuse(s.k, c, true), EnterCritical(s.k, c, l);
            RunAlone(s, c, keepBind, 6).k ==
              if !BindOk(k1, c, l) then k1
              else if OnTop(k3, c, l, r) then SetReuse(Connect(k3, c, r), c, true)
              else SetReuse(Dissolve(k3, c, keepBind), c, true)
  {
    var l := s.procs[c].local;
    var s1 := At(s, SetReuse(s.k, c, true), c, Reusable);
    assert RunAlone(s, c, keepBind, 6) == RunAlone(s1, c, keepBind, 5);
    if BindOk(s1.k, c, l) {
      RunToLocked(s1, c, keepBind);
      var s2 := At(s1, Bind(s1.k, c, l), c, Bound);
      RunFromLocked(At(s2, SetReuse(s2.k, c, false), c, Locked), c, keepBind);
    } else {
      assert RunAlone(s1, c, keepBind, 5) == At(s1, s1.k, c, Raised);
    }
  }

  /** Only the entry of c is replaced. */
  ghost predicate OthersKept(before: map<Cookie, Sock>, after: map<Cookie, Sock>, c: Cookie) {
    c in after && forall d :: d in after && d != c ==> d in before && after[d] == before[d]
  }

  /** The socket tables that a lone call can leave: not bound, connected, or rejected. */
  lemma EndTables(k: KState, c: Cookie, l: Addr, r: Addr, keepBind: bool)
    requires Unused(k, c)
    ensures var socks := SetReuse(k, c, true).socks;
            OthersKept(k.socks, socks, c) && socks[c].reuse && socks[c].remote.None?
    ensures SetReuse(Connect(EnterCritical(k, c, l), c, r), c, true).socks
            == k.socks[c := Sock(true, Some(l), k.clock, Some(r))]
    ensures var socks := SetReuse(Dissolve(EnterCritical(k, c, l), c, keepBind), c, true).socks;
            OthersKept(k.socks, socks, c) && socks[c].reuse && socks[c].remote.None?
  {
  }

  datatype Outcome = Success | EAddrInUse

  /** The kernel's socket table as the mutable object that system calls act on. */
  class Kernel {
    var socks: map<Cookie, Sock>
    var clock: nat

    constructor ()
      ensures K() == InitState.k
    {
      socks := map[];
      clock := 0;
    }

    ghost function K(): KState
      reads this
    {
      KState(socks, clock)
    }

    method SetReuseAddr(c: Cookie, b: bool)
      requires c in socks
      modifies this
      ensures K() == SetReuse(old(K()), c, b)
    {
      socks := socks[c := socks[c].(reuse := b)];
    }

    method TryBind(c: Cookie, l: Addr) returns (ok: bool)
      requires c in socks
      modifies this
      ensures ok == BindOk(old(K()), c, l)
      ensures K() == if ok then Bind(old(K()), c, l) else old(K())
    {
      ok := BindOk(KState(socks, clock), c, l);
      if ok {
        socks := socks[c := socks[c].(local := Some(l), stamp := clock)];
        clock := clock + 1;
      }
    }

    /** _netlink_udp_lookup: the cookie on top, if anything matches. */
    method Lookup(l: Addr, r: Addr) returns (top: Option<Cookie>)
      requires StampsOk(K())
      ensures top.Some? ==> OnTop(K(), top.value, l, r)
      ensures top.None? <==> forall c :: c in socks ==> !Matches(socks[c], l, r)
    {
      if c :| c in socks && OnTop(KState(socks, clock), c, l, r) {
        top := Some(c);
      } else {
        top := None;
        NoTopNoMatch(K(), l, r);
      }
    }

    method ConnectTo(c: Cookie, r: Addr)
      requires c in socks
      modifies this
      ensures K() == Connect(old(K()), c, r)
    {
      socks := socks[c := socks[c].(remote := Some(r))];
    }

    method ConnectUnspec(c: Cookie, keepBind: bool)
      requires c in socks
      modifies this
      ensures K() == Dissolve(old(K()), c, keepBind)
    {
      var s := socks[c].(remote := None);
      socks := socks[c := if keepBind then s else s.(local := None)];
    }

    /** From the cookie test to the release of the lock. */
    method TestAndConnect(c: Cookie, l: Addr, r: Addr, keepBind: bool) returns (mine: bool)
      requires StampsOk(K()) && c in socks && Matches(socks[c], l, r)
      modifies this
      ensures mine == OnTop(old(K()), c, l, r)
      ensures K() == SetReuse(if mine then Connect(old(K()), c, r) else Dissolve(old(K()), c, keepBind), c, true)
    {
      var top := Lookup(l, r);
      mine := top == Some(c);
      if !mine && OnTop(K(), c, l, r) { OnTopUnique(K(), c, top.value, l, r); }
      if mine {
        ConnectTo(c, r);
      } else {
        ConnectUnspec(c, keepBind);
      }
      SetReuseAddr(c, true);
    }

    /**
     _connectx_udp after the addresses are resolved, run without interleaving.  It makes the
     steps of the protocol, and succeeds exactly when nobody holds the 2-tuple locked and
     nobody is connected on the 4-tuple.
     */
    method ConnectxUdp(c: Cookie, l: Addr, r: Addr, keepBind: bool, ghost procs: map<Cookie, Proc>)
      returns (res: Outcome)
      requires StampsOk(K()) && c in socks && socks[c].local.None? && socks[c].remote.None?
      modifies this
      ensures c in socks
      ensures K() == RunAlone(State(old(K()), procs[c := Proc(Fresh, l, r)]), c, keepBind, 6).k
      ensures res == Success <==> !LockedTuple(old(K()), l) && forall d :: !ConnectedOn(old(K()), d, l, r)
      ensures res == Success ==> socks == old(socks)[c := Sock(true, Some(l), old(clock), Some(r))]
      ensures res == EAddrInUse ==> OthersKept(old(socks), socks, c) && socks[c].reuse && socks[c].remote.None?
    {
      ghost var k := K();
      BindNeedsUnlocked(k, c, l);
      TopUnlessConnected(k, c, l, r);
      SoloRun(State(k, procs[c := Proc(Fresh, l, r)]), c, keepBind);
      EndTables(k, c, l, r, keepBind);
      SetReuseAddr(c, true);
      var ok := TryBind(c, l);
      if !ok {
        return EAddrInUse;
      }
      SetReuseAddr(c, false);
      assert K() == EnterCritical(k, c, l);
      var mine := TestAndConnect(c, l, r, keepBind);
      if !mine {
        return EAddrInUse;
      }
      return Success;
    }
  }
}
