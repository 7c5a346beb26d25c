/**
 The part of the kernel that connectx relies on for UDP: sockets with a SO_REUSEADDR
 flag, a bound 2-tuple, a bind stamp and an optional connected peer.  Only the facts that
 the comments of connectx state are modelled: a bind fails while a socket with
 SO_REUSEADDR=0 holds the 2-tuple, and a lookup prefers a matching connected socket to
 unconnected ones, and a newer bind to an older one.
 */
module UdpKernel {
  import opened Basics

  /** SO_COOKIE: the identity of a socket, never used twice. */
  type Cookie = nat

  datatype Addr = Addr(host: nat, port: nat)

  datatype Sock = Sock(reuse: bool, local: Option<Addr>, stamp: nat, remote: Option<Addr>)

  datatype KState = KState(socks: map<Cookie, Sock>, clock: nat)

  const FreshSock := Sock(false, None, 0, None)

  predicate HoldsWithoutReuse(k: KState, c: Cookie, l: Addr) {
    c in k.socks && k.socks[c].local == Some(l) && !k.socks[c].reuse
  }

  /** The 2-tuple is locked: some socket bound to it has SO_REUSEADDR=0. */
  ghost predicate LockedTuple(k: KState, l: Addr) {
    exists c :: HoldsWithoutReuse(k, c, l)
  }

  /** bind() succeeds on an unbound socket when everyone on the 2-tuple agrees to share it. */
  predicate BindOk(k: KState, c: Cookie, l: Addr)
    requires c in k.socks
  {
    && k.socks[c].local.None?
    && forall d :: d in k.socks && d != c && k.socks[d].local == Some(l) ==> k.socks[d].reuse && k.socks[c].reuse
  }

  predicate Matches(s: Sock, l: Addr, r: Addr) {
    s.local == Some(l) && (s.remote.None? || s.remote == Some(r))
  }

  /** The order in which a lookup prefers matching sockets. */
  predicate Above(s: Sock, t: Sock) {
    (s.remote.Some? && t.remote.None?) || (s.remote.Some? == t.remote.Some? && s.stamp > t.stamp)
  }

  /** A lookup for (l, r) answers with the cookie c. */
  predicate OnTop(k: KState, c: Cookie, l: Addr, r: Addr) {
    && c in k.socks
    && Matches(k.socks[c], l, r)
    && forall d :: d in k.socks && d != c && Matches(k.socks[d], l, r) ==> Above(k.socks[c], k.socks[d])
  }

  predicate ConnectedOn(k: KState, c: Cookie, l: Addr, r: Addr) {
    c in k.socks && k.socks[c].local == Some(l) && k.socks[c].remote == Some(r)
  }

  /** Bind stamps are below the clock, and no two bound sockets share one. */
  ghost predicate StampsOk(k: KState) {
    && (forall c :: c in k.socks && k.socks[c].local.Some? ==> k.socks[c].stamp < k.clock)
    && (forall c, d :: c in k.socks && d in k.socks && c != d && k.socks[c].local.Some? && k.socks[d].local.Some?
                       ==> k.socks[c].stamp != k.socks[d].stamp)
  }

  function SetReuse(k: KState, c: Cookie, b: bool): KState
    requires c in k.socks
  {
    k.(socks := k.socks[c := k.socks[c].(reuse := b)])
  }

  function Bind(k: KState, c: Cookie, l: Addr): KState
    requires c in k.socks
  {
    k.(socks := k.socks[c := k.socks[c].(local := Some(l), stamp := k.clock)], clock := k.clock + 1)
  }

  function Connect(k: KState, c: Cookie, r: Addr): KState
    requires c in k.socks
  {
    k.(socks := k.socks[c := k.socks[c].(remote := Some(r))])
  }

  /** connect(AF_UNSPEC): the peer is forgotten; the kernel may or may not keep the bind. */
  function Dissolve(k: KState, c: Cookie, keepBind: bool): KState
    requires c in k.socks
  {
    var s := k.socks[c].(remote := None);
    k.(socks := k.socks[c := if keepBind then s else s.(local := None)])
  }

  function Open(k: KState, c: Cookie): KState {
    k.(socks := k.socks[c := FreshSock])
  }

  function Close(k: KState, c: Cookie): KState {
    k.(socks := map d | d in k.socks && d != c :: k.socks[d])
  }

  /** A lookup has at most one answer. */
  lemma OnTopUnique(k: KState, c: Cookie, d: Cookie, l: Addr, r: Addr)
    requires OnTop(k, c, l, r) && OnTop(k, d, l, r)
    ensures c == d
  {
  }

  /** A lookup always answers when some socket matches, so "not on top" means "another cookie came back". */
  lemma {:induction false} SomeoneIsOnTop(k: KState, matching: set<Cookie>, l: Addr, r: Addr) returns (top: Cookie)
    requires StampsOk(k)
    requires matching == set c | c in k.socks && Matches(k.socks[c], l, r)
    requires matching != {}
    ensures OnTop(k, top, l, r)
  {
    top := Best(k, matching, l, r);
    assert forall d :: d in k.socks && Matches(k.socks[d], l, r) ==> d in matching;
  }

  /** A lookup without an answer means that nothing matches. */
  lemma NoTopNoMatch(k: KState, l: Addr, r: Addr)
    requires StampsOk(k) && forall c :: !OnTop(k, c, l, r)
    ensures forall c :: c in k.socks ==> !Matches(k.socks[c], l, r)
  {
    var matching := set c | c in k.socks && Matches(k.socks[c], l, r);
    if matching != {} {
      var top := SomeoneIsOnTop(k, matching, l, r);
      assert false;
    }
    assert forall c :: c in k.socks && Matches(k.socks[c], l, r) ==> c in matching;
  }

  lemma {:induction false} Best(k: KState, some: set<Cookie>, l: Addr, r: Addr) returns (top: Cookie)
    requires StampsOk(k)
    requires some != {} && forall c :: c in some ==> c in k.socks && Matches(k.socks[c], l, r)
    ensures top in some
    ensures forall d :: d in some && d != top ==> Above(k.socks[top], k.socks[d])
    decreases some
  {
    var c :| c in some;
    if some == {c} {
      top := c;
    } else {
      var rest := some - {c};
      assert some == rest + {c};
      var t := Best(k, rest, l, r);
      top := if Above(k.socks[t], k.socks[c]) then t else c;
    }
  }
}
