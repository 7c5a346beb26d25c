/**
 What the protocol of connectx guarantees to its callers beyond safety: somebody gets through,
 but a caller may be turned away by another one that asks for a different peer.
 */
module Progress {
  import opened Basics
  import opened UdpKernel
  import opened Connectx

  /**
   Exactly when a step can be taken: a socket may be opened under any new cookie and closed at any
   time, a caller goes on until it is done or has been turned away, and a bystander binds whenever the
   kernel lets it.
   */
  lemma StepsArePossible(s: State, c: Cookie, l: Addr, r: Addr, b: bool)
    ensures Next(s, Spawn(c, l, r)).Some? <==> c !in s.procs
    ensures Next(s, OpenBystander(c)).Some? <==> c !in s.procs
    ensures Next(s, Exit(c)).Some? <==> c in s.k.socks
    ensures Next(s, Run(c, b)).Some? <==>
            c in s.procs && c in s.k.socks && s.procs[c].pc !in {Done, Raised, Bystander}
    ensures Next(s, BystanderReuse(c, b)).Some? <==>
            c in s.procs && c in s.k.socks && s.procs[c].pc == Bystander
    ensures Next(s, BystanderBind(c, l)).Some? <==>
            && c in s.procs && c in s.k.socks && s.procs[c].pc == Bystander && s.k.socks[c].local == None
            && forall d :: d in s.k.socks && d != c && s.k.socks[d].local == Some(l) ==>
                 s.k.socks[d].reuse && s.k.socks[c].reuse
  {
  }

  /** What a new socket and the system calls of a bystander do to the socket table. */
  lemma BystanderSteps(s: State, c: Cookie, l: Addr, r: Addr, b: bool)
    ensures c !in s.procs ==>
              Next(s, Spawn(c, l, r)).value.k == KState(s.k.socks[c := Sock(false, None, 0, None)], s.k.clock)
              && Next(s, OpenBystander(c)).value.k == KState(s.k.socks[c := Sock(false, None, 0, None)], s.k.clock)
    ensures Next(s, BystanderReuse(c, b)).Some? ==>
              Next(s, BystanderReuse(c, b)).value.k == KState(s.k.socks[c := s.k.socks[c].(reuse := b)], s.k.clock)
    ensures Next(s, BystanderBind(c, l)).Some? ==>
              Next(s, BystanderBind(c, l)).value.k
              == KState(s.k.socks[c := s.k.socks[c].(local := Some(l), stamp := s.k.clock)], s.k.clock + 1)
  {
  }

  /** Closing a socket takes it out of the table and leaves the others; the rest of the state stays. */
  lemma ExitCloses(s: State, c: Cookie, d: Cookie)
    requires c in s.k.socks
    ensures Next(s, Exit(c)).Some?
    ensures var t := Next(s, Exit(c)).value;
            && t.procs == s.procs && t.k.clock == s.k.clock
            && (d in t.k.socks <==> d in s.k.socks && d != c)
            && (d in t.k.socks ==> t.k.socks[d] == s.k.socks[d])
  {
  }

  /** A caller for l that is connected, or about to unlock. */
  ghost predicate Through(s: State, c: Cookie, l: Addr) {
    c in s.procs && s.procs[c].local == l && s.procs[c].pc in {Joined, Done}
  }

  /** A caller for l on its way to the cookie test or past it, newer than every other bind on l. */
  ghost predicate Leads(s: State, c: Cookie, l: Addr) {
    && c in s.procs && c in s.k.socks && s.procs[c].local == l && s.procs[c].pc in {Bound, Locked, Passed}
    && forall d :: d in s.k.socks && d != c && s.k.socks[d].local == Some(l) ==>
         s.k.socks[d].stamp < s.k.socks[c].stamp
  }

  ghost predicate Alive(s: State, l: Addr) {
    (exists c :: Through(s, c, l)) || (exists c :: Leads(s, c, l))
  }

  /** Nobody who asked for l goes away, and no socket outside the protocol binds it. */
  predicate Undisturbed(s: State, step: Step, l: Addr) {
    && (step.Exit? && step.c in s.procs && s.procs[step.c].local == l ==> s.procs[step.c].pc == Bystander)
    && (step.BystanderBind? ==> step.local != l)
  }

  /** The caller that has just bound is newer than all others. */
  lemma BinderLeads(s: State, c: Cookie, keepBind: bool, s': State)
    requires Inv(s) && c in s.procs && c in s.k.socks && RunOne(s, c, keepBind) == Some(s') && s'.procs[c].pc == Bound
    ensures Leads(s', c, s.procs[c].local)
  {
  }

  /** The leader is not turned away while nobody is connected. */
  lemma LeaderPasses(s: State, c: Cookie, l: Addr)
    requires Inv(s) && Leads(s, c, l) && s.procs[c].pc == Locked
    ensures OnTop(s.k, c, l, s.procs[c].remote) || exists d :: Through(s, d, l)
  {
    assert SockFits(s.procs[c], s.k.socks[c]);
    if !OnTop(s.k, c, l, s.procs[c].remote) {
      var d :| d in s.k.socks && d != c && Matches(s.k.socks[d], l, s.procs[c].remote)
               && !Above(s.k.socks[c], s.k.socks[d]);
      assert SockFits(s.procs[d], s.k.socks[d]);
      assert Through(s, d, l);
    }
  }

  lemma ThroughStays(s: State, step: Step, s': State, c: Cookie, l: Addr)
    requires Next(s, step) == Some(s') && Through(s, c, l)
    ensures Through(s', c, l)
  {
  }

  /** A step of the leader itself. */
  lemma LeaderSteps(s: State, c: Cookie, keepBind: bool, s': State, l: Addr)
    requires Inv(s) && Leads(s, c, l) && RunOne(s, c, keepBind) == Some(s')
    ensures Alive(s', l)
  {
    if s.procs[c].pc == Locked && !OnTop(s.k, c, l, s.procs[c].remote) {
      LeaderPasses(s, c, l);
      var d :| Through(s, d, l);
      ThroughStays(s, Run(c, keepBind), s', d, l);
    } else if s.procs[c].pc == Passed {
      assert Through(s', c, l);
    } else {
      assert Leads(s', c, l);
    }
  }

  /** A step of another caller: either it binds l and takes the lead, or the leader keeps it. */
  lemma OtherSteps(s: State, c: Cookie, d: Cookie, keepBind: bool, s': State, l: Addr)
    requires Inv(s) && Leads(s, c, l) && d != c && d in s.procs && d in s.k.socks && RunOne(s, d, keepBind) == Some(s')
    ensures Alive(s', l)
  {
    if s'.procs[d].pc == Bound && s.procs[d].local == l {
      BinderLeads(s, d, keepBind, s');
    } else {
      CallerMoves(s, d, keepBind, s');
      if s'.k.socks[d].local == Some(l) { MoverKeepsStamp(s, d, keepBind, s', l); }
      LeadKept(s, c, d, s', l);
    }
  }

  /** A socket bound to l was bound to it before, or binds it now. */
  lemma MoverKeepsStamp(s: State, d: Cookie, keepBind: bool, s': State, l: Addr)
    requires d in s.procs && d in s.k.socks && RunOne(s, d, keepBind) == Some(s') && s'.k.socks[d].local == Some(l)
    ensures || (s'.procs[d].pc == Bound && s.procs[d].local == l)
            || (s.k.socks[d].local == Some(l) && s'.k.socks[d].stamp == s.k.socks[d].stamp)
  {
  }

  lemma LeadKept(s: State, c: Cookie, d: Cookie, s': State, l: Addr)
    requires Leads(s, c, l) && d != c && OnlyMoved(s, d, s')
    requires s'.k.socks[d].local == Some(l) ==>
               s.k.socks[d].local == Some(l) && s'.k.socks[d].stamp == s.k.socks[d].stamp
    ensures Leads(s', c, l)
  {
  }

  lemma OutsideSteps(s: State, c: Cookie, step: Step, s': State, l: Addr)
    requires Inv(s) && Leads(s, c, l) && Next(s, step) == Some(s') && !step.Run? && Undisturbed(s, step, l)
    ensures Leads(s', c, l)
  {
  }

  lemma StepKeepsAlive(s: State, step: Step, s': State, l: Addr)
    requires Inv(s) && Alive(s, l) && Next(s, step) == Some(s') && Undisturbed(s, step, l)
    ensures Alive(s', l)
  {
    if c :| Through(s, c, l) {
      ThroughStays(s, step, s', c, l);
    } else {
      var c :| Leads(s, c, l);
      match step
      case Run(d, keepBind) =>
        if d == c { LeaderSteps(s, c, keepBind, s', l); } else { OtherSteps(s, c, d, keepBind, s', l); }
      case _ => OutsideSteps(s, c, step, s', l);
    }
  }

  /** Step j is a bind to l by a caller. */
  predicate Binds(trace: seq<State>, steps: seq<Step>, j: nat, l: Addr)
    requires |trace| == |steps| + 1 && j < |steps|
  {
    && steps[j].Run? && steps[j].c in trace[j].procs && steps[j].c in trace[j + 1].procs
    && trace[j].procs[steps[j].c].pc == Reusable && trace[j].procs[steps[j].c].local == l
    && trace[j + 1].procs[steps[j].c].pc == Bound
  }

  lemma {:induction false} StaysAlive(trace: seq<State>, steps: seq<Step>, j: nat, i: nat, l: Addr)
    requires IsRun(trace, steps) && j < i < |trace| && Binds(trace, steps, j, l)
    requires forall m :: j < m < i ==> Undisturbed(trace[m], steps[m], l)
    ensures Alive(trace[i], l)
    decreases i
  {
    if i == j + 1 {
      RunKeepsInv(trace, steps, j);
      BinderLeads(trace[j], steps[j].c, steps[j].keepBind, trace[i]);
    } else {
      StaysAlive(trace, steps, j, i - 1, l);
      RunKeepsInv(trace, steps, i - 1);
      StepKeepsAlive(trace[i - 1], steps[i - 1], trace[i], l);
    }
  }

  /** No caller for l is under way: each has not bound yet, or has come to its end. */
  predicate Settled(s: State, l: Addr) {
    forall c :: c in s.procs && s.procs[c].local == l ==>
      s.procs[c].pc in {Fresh, Reusable, Done, Raised, Bystander}
  }

  /**
   Progress: from a bind on l on, if nobody leaves and no outsider binds l, then once all callers
   for l have come to an end somebody is connected.  The protocol never turns everybody away.
   */
  lemma SomebodyGetsThrough(trace: seq<State>, steps: seq<Step>, j: nat, i: nat, l: Addr)
    requires IsRun(trace, steps) && j < i < |trace| && Binds(trace, steps, j, l)
    requires forall m :: j < m < i ==> Undisturbed(trace[m], steps[m], l)
    requires Settled(trace[i], l)
    ensures exists c :: c in trace[i].procs && trace[i].procs[c].local == l && trace[i].procs[c].pc == Done
  {
    StaysAlive(trace, steps, j, i, l);
    var c :| Through(trace[i], c, l) || Leads(trace[i], c, l);
  }

  // ----- a rejection without a conflict

  ghost predicate NobodyConnected(trace: seq<State>) {
    forall i, d :: 0 <= i < |trace| && d in trace[i].k.socks ==> trace[i].k.socks[d].remote.None?
  }

  /** A run in which nobody has been connected, and one more such step. */
  lemma OneMore(trace: seq<State>, steps: seq<Step>, step: Step, s: State)
    requires IsRun(trace, steps) && NobodyConnected(trace) && Next(trace[|steps|], step) == Some(s)
    requires forall d :: d in s.k.socks ==> s.k.socks[d].remote.None?
    ensures IsRun(trace + [s], steps + [step]) && NobodyConnected(trace + [s])
    ensures |steps + [step]| == |steps| + 1 && (trace + [s])[|steps| + 1] == s
  {
    forall i | 0 <= i < |steps| + 1 ensures Next((trace + [s])[i], (steps + [step])[i]) == Some((trace + [s])[i + 1]) {
      if i < |steps| { assert (trace + [s])[i + 1] == trace[i + 1]; }
    }
  }

  /** Callers 0 and 1 at the same point, with sockets that differ in their stamp. */
  function Two(pc: Pc, reuse: bool, local: Option<Addr>, stamp0: nat, stamp1: nat, clock: nat,
               l: Addr, r0: Addr, r1: Addr): State
  {
    State(KState(map[0 := Sock(reuse, local, stamp0, None), 1 := Sock(reuse, local, stamp1, None)], clock),
          map[0 := Proc(pc, l, r0), 1 := Proc(pc, l, r1)])
  }

  lemma TwoReusable(l: Addr, r0: Addr, r1: Addr) returns (trace: seq<State>, steps: seq<Step>)
    ensures IsRun(trace, steps) && NobodyConnected(trace) && |steps| == 4
    ensures trace[4] == Two(Reusable, true, None, 0, 0, 0, l, r0, r1)
  {
    trace, steps := [InitState], [];
    var s1 := State(KState(map[0 := FreshSock], 0), map[0 := Proc(Fresh, l, r0)]);
    OneMore(trace, steps, Spawn(0, l, r0), s1);
    trace, steps := trace + [s1], steps + [Spawn(0, l, r0)];
    var s2 := Two(Fresh, false, None, 0, 0, 0, l, r0, r1);
    OneMore(trace, steps, Spawn(1, l, r1), s2);
    trace, steps := trace + [s2], steps + [Spawn(1, l, r1)];
    var s3 := At(s2, SetReuse(s2.k, 0, true), 0, Reusable);
    OneMore(trace, steps, Run(0, true), s3);
    trace, steps := trace + [s3], steps + [Run(0, true)];
    var s4 := Two(Reusable, true, None, 0, 0, 0, l, r0, r1);
    assert s4 == At(s3, SetReuse(s3.k, 1, true), 1, Reusable);
    OneMore(trace, steps, Run(1, true), s4);
    trace, steps := trace + [s4], steps + [Run(1, true)];
  }

  lemma TwoBound(l: Addr, r0: Addr, r1: Addr) returns (trace: seq<State>, steps: seq<Step>)
    ensures IsRun(trace, steps) && NobodyConnected(trace) && |steps| == 6
    ensures trace[6] == Two(Bound, true, Some(l), 0, 1, 2, l, r0, r1)
  {
    trace, steps := TwoReusable(l, r0, r1);
    var s4 := trace[4];
    var s5 := At(s4, Bind(s4.k, 0, l), 0, Bound);
    OneMore(trace, steps, Run(0, true), s5);
    trace, steps := trace + [s5], steps + [Run(0, true)];
    var s6 := Two(Bound, true, Some(l), 0, 1, 2, l, r0, r1);
    assert s6 == At(s5, Bind(s5.k, 1, l), 1, Bound);
    OneMore(trace, steps, Run(1, true), s6);
    trace, steps := trace + [s6], steps + [Run(1, true)];
  }

  /**
   Two callers for different peers: both bind, the older one locks, tests, finds the newer one on top
   and is turned away, though nobody has ever been connected.
   */
  lemma NewerBindRejects(l: Addr, r0: Addr, r1: Addr) returns (trace: seq<State>, steps: seq<Step>)
    ensures IsRun(trace, steps) && NobodyConnected(trace) && |steps| == 8
    ensures 0 in trace[8].procs && trace[8].procs[0] == Proc(Rejected, l, r0)
  {
    trace, steps := TwoBound(l, r0, r1);
    var s6 := trace[6];
    var s7 := At(s6, SetReuse(s6.k, 0, false), 0, Locked);
    OneMore(trace, steps, Run(0, true), s7);
    trace, steps := trace + [s7], steps + [Run(0, true)];
    var s8 := At(s7, s7.k, 0, Rejected);
    assert Matches(s7.k.socks[1], l, r0) && !Above(s7.k.socks[0], s7.k.socks[1]);
    OneMore(trace, steps, Run(0, true), s8);
    trace, steps := trace + [s8], steps + [Run(0, true)];
  }
}
