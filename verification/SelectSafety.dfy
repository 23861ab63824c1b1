/**
 * What every behaviour of the select/notify protocol keeps: no lost wake-up, exact
 * select_waiting counters, a walk that only follows listed nodes and always finishes.
 */
module SelectSafety {
  import opened Orders
  import opened SelectProtocol

  // ---------------------------------------------------------------- counting

  /** Select `sel` has incremented select_waiting of `fd` and not yet decremented it. */
  predicate Counted(sel: Sel, fd: nat) {
    Watched(sel.req, fd) &&
    match sel.pc
    case Count(i) => fd < i
    case Scan(round, _, _) => round == 2 && fd < sel.req.maxfdp1
    case Wait => fd < sel.req.maxfdp1
    case Uncount(i, limit, _, _) => i <= fd < limit
    case _ => false
  }

  function CountOf(sels: seq<Sel>, fd: nat): (c: nat)
    ensures c <= |sels|
  {
    if sels == [] then 0 else (if Counted(sels[0], fd) then 1 else 0) + CountOf(sels[1..], fd)
  }

  lemma {:induction false} CountOfUpdate(sels: seq<Sel>, t: nat, sel: Sel, fd: nat)
    requires t < |sels|
    ensures CountOf(sels[t := sel], fd)
         == CountOf(sels, fd) - (if Counted(sels[t], fd) then 1 else 0) + (if Counted(sel, fd) then 1 else 0)
  {
    if t == 0 {
      assert sels[t := sel][1..] == sels[1..];
    } else {
      assert sels[t := sel][1..] == sels[1..][t - 1 := sel];
      CountOfUpdate(sels[1..], t - 1, sel, fd);
    }
  }

  /** One select that has counted a socket makes its counter positive. */
  lemma {:induction false} CountOfPositive(sels: seq<Sel>, t: nat, fd: nat)
    requires t < |sels| && Counted(sels[t], fd)
    ensures CountOf(sels, fd) > 0
  {
    if t > 0 { CountOfPositive(sels[1..], t - 1, fd); }
  }

  lemma {:induction false} CountOfZero(sels: seq<Sel>, fd: nat)
    requires forall t :: 0 <= t < |sels| ==> !Counted(sels[t], fd)
    ensures CountOf(sels, fd) == 0
  {
    if sels != [] { CountOfZero(sels[1..], fd); }
  }

  // ---------------------------------------------------------------- invariant

  predicate Listed(pc: Pc) {
    pc.Count? || (pc.Scan? && pc.round == 2) || pc.Wait? || pc.Uncount? || pc.Delist?
  }

  ghost predicate ListInv(st: State) {
    Distinct(st.order) && forall t :: t in st.order <==> 0 <= t < |st.sels| && Listed(st.sels[t].pc)
  }

  /** Sockets are numbered from the offset on. */
  ghost predicate Numbered(st: State) { forall fd :: fd in st.socks ==> SOCKET_OFFSET <= fd }

  /** Every watched fd below `limit` is an open socket. */
  ghost predicate OpenBelow(st: State, req: Request, limit: nat) {
    forall fd: nat :: SOCKET_OFFSET <= fd < limit && Watched(req, fd) ==> fd in st.socks
  }

  ghost predicate SelInv(st: State, sel: Sel) {
    && sel.sem <= (if sel.signalled then 1 else 0)
    && match sel.pc
       case Count(i) =>
         && (i <= sel.req.maxfdp1 || i == SOCKET_OFFSET)
         && OpenBelow(st, sel.req, i) && (sel.signalled ==> sel.sem == 1)
       case Scan(round, _, nready) =>
         && nready >= 0
         && (round == 2 ==> OpenBelow(st, sel.req, sel.req.maxfdp1) && (sel.signalled ==> sel.sem == 1))
       case Wait => OpenBelow(st, sel.req, sel.req.maxfdp1) && (sel.signalled ==> sel.sem == 1)
       case Uncount(i, limit, _, _) => OpenBelow(st, sel.req, limit)
       case _ => true
  }

  ghost predicate SelsInv(st: State) { forall t :: 0 <= t < |st.sels| ==> SelInv(st, st.sels[t]) }

  ghost predicate CountInv(st: State) {
    forall fd :: fd in st.socks ==> st.socks[fd].waiting == CountOf(st.sels, fd)
  }

  ghost predicate WalkerInv(st: State, w: Walker) {
    w.Walking? ==> w.fd in st.socks && w.seen <= st.ctr && (w.seen == st.ctr ==> w.cur in st.order)
  }

  ghost predicate WalksInv(st: State) { forall n :: 0 <= n < |st.walks| ==> WalkerInv(st, st.walks[n]) }

  /** Select `sel` has been through its second scan of `fd` without finding anything so far. */
  predicate Committed(sel: Sel, fd: nat) {
    match sel.pc
    case Scan(round, i, nready) => round == 2 && nready == 0 && fd < i && fd < sel.req.maxfdp1
    case Wait => fd < sel.req.maxfdp1
    case _ => false
  }

  /** Walker `w` is mid-walk for `fd` and has yet to reach select `t`. */
  ghost predicate Coming(st: State, w: Walker, fd: nat, t: nat) {
    && w.Walking? && w.fd == fd && t in st.order
    && (w.seen != st.ctr || (w.cur in st.order && Index(st.order, w.cur) < Index(st.order, t)))
  }

  ghost predicate SomeoneComing(st: State, fd: nat, t: nat) {
    exists n :: 0 <= n < |st.walks| && Coming(st, st.walks[n], fd, t)
  }

  /** A committed, unsignalled select whose socket's counters are now in its favour. */
  ghost predicate Owed(st: State, fd: nat, t: nat) {
    && t < |st.sels| && fd in st.socks && Committed(st.sels[t], fd)
    && !st.sels[t].signalled && Ready(st.sels[t].req, fd, st.socks[fd])
  }

  ghost predicate WakeInv(st: State) {
    forall t, fd :: Owed(st, fd, t) ==> SomeoneComing(st, fd, t)
  }

  ghost predicate Inv(st: State) {
    Numbered(st) && ListInv(st) && SelsInv(st) && CountInv(st) && WalksInv(st) && WakeInv(st)
  }

  // ---------------------------------------------------------------- preservation, step by step

  /** `st'` is `st` after a step of select `t` that touches neither the list nor a walker. */
  ghost predicate OnlySel(st: State, st': State, t: nat) {
    && t < |st.sels| == |st'.sels|
    && st' == st.(socks := st'.socks, sels := st.sels[t := st'.sels[t]])
    && st'.socks.Keys == st.socks.Keys
    && (forall fd :: fd in st.socks ==>
          st'.socks[fd] == st.socks[fd].(waiting := st'.socks[fd].waiting, lastdata := st'.socks[fd].lastdata))
  }

  /** The step moves each socket's counter exactly as it moves the select's own claim on it. */
  ghost predicate MovesCount(st: State, st': State, t: nat)
    requires OnlySel(st, st', t)
  {
    forall fd :: fd in st.socks ==>
      st'.socks[fd].waiting == st.socks[fd].waiting
        - (if Counted(st.sels[t], fd) then 1 else 0) + (if Counted(st'.sels[t], fd) then 1 else 0)
  }

  /** Enough for a step of one select, off the list changes, to keep the invariant. */
  lemma OwnStepKeeps(st: State, st': State, t: nat)
    requires Inv(st) && OnlySel(st, st', t) && MovesCount(st, st', t)
    requires SelInv(st', st'.sels[t]) && Listed(st'.sels[t].pc) == Listed(st.sels[t].pc)
    requires forall fd :: Owed(st', fd, t) ==> Owed(st, fd, t)
    ensures Inv(st')
  {
    forall fd | fd in st.socks ensures st'.socks[fd].waiting == CountOf(st'.sels, fd) {
      CountOfUpdate(st.sels, t, st'.sels[t], fd);
    }
    forall u | 0 <= u < |st.sels| && u != t ensures SelInv(st', st'.sels[u]) {
      assert SelInv(st, st.sels[u]);
    }
    forall n | 0 <= n < |st.walks| ensures WalkerInv(st', st'.walks[n]) {
      assert WalkerInv(st, st.walks[n]);
    }
    forall u, fd | Owed(st', fd, u) ensures SomeoneComing(st', fd, u) {
      assert Owed(st, fd, u);
      var n :| 0 <= n < |st.walks| && Coming(st, st.walks[n], fd, u);
      assert Coming(st', st'.walks[n], fd, u);
    }
  }

  lemma CallKeeps(st: State, t: nat, req: Request)
    requires Inv(st) && Enabled(st, Call(t, req))
    ensures Inv(Apply(st, Call(t, req)))
  {
    OwnStepKeeps(st, Apply(st, Call(t, req)), t);
  }

  lemma SelOf(st: State, t: nat)
    requires Inv(st) && t < |st.sels|
    ensures SelInv(st, st.sels[t]) && Numbered(st)
  {
  }

  lemma ScanKeeps(st: State, t: nat)
    requires Inv(st) && t < |st.sels| && st.sels[t].pc.Scan?
    ensures Inv(RunScan(st, t))
  {
    hide Inv, CountOf, SelInv, Owed, OnlySel, MovesCount, Counted;
    if st.sels[t].pc.i >= st.sels[t].req.maxfdp1 { ScanEndKeeps(st, t); } else { ScanOnKeeps(st, t); }
  }

  lemma ScanEndKeeps(st: State, t: nat)
    requires Inv(st) && t < |st.sels| && st.sels[t].pc.Scan? && st.sels[t].pc.i >= st.sels[t].req.maxfdp1
    ensures Inv(RunScan(st, t))
  {
    hide Inv, CountOf;
    SelOf(st, t);
    OwnStepKeeps(st, RunScan(st, t), t);
  }

  lemma ScanOnKeeps(st: State, t: nat)
    requires Inv(st) && t < |st.sels| && st.sels[t].pc.Scan? && st.sels[t].pc.i < st.sels[t].req.maxfdp1
    ensures Inv(RunScan(st, t))
  {
    hide Inv, CountOf;
    SelOf(st, t);
    OwnStepKeeps(st, RunScan(st, t), t);
  }

  /** Enough for a change of the list: every walk under way starts over, so nothing owed is missed. */
  lemma ListChangeKeeps(st: State, st': State, t: nat)
    requires Inv(st) && ListInv(st') && t < |st.sels| == |st'.sels|
    requires st' == st.(sels := st.sels[t := st'.sels[t]], order := st'.order, ctr := st.ctr + 1)
    requires SelInv(st', st'.sels[t])
    requires forall fd :: fd in st.socks ==> !Owed(st', fd, t) && Counted(st.sels[t], fd) == Counted(st'.sels[t], fd)
    ensures Inv(st')
  {
    forall fd | fd in st.socks ensures st'.socks[fd].waiting == CountOf(st'.sels, fd) {
      CountOfUpdate(st.sels, t, st'.sels[t], fd);
    }
    forall u | 0 <= u < |st.sels| && u != t ensures SelInv(st', st'.sels[u]) {
      assert SelInv(st, st.sels[u]);
    }
    forall n | 0 <= n < |st.walks| ensures WalkerInv(st', st'.walks[n]) {
      assert WalkerInv(st, st.walks[n]);
    }
    forall u, fd | Owed(st', fd, u) ensures SomeoneComing(st', fd, u) {
      assert Owed(st, fd, u);
      var n :| 0 <= n < |st.walks| && Coming(st, st.walks[n], fd, u);
      assert WalkerInv(st, st.walks[n]);
      assert Coming(st', st'.walks[n], fd, u);
    }
  }

  lemma EnlistKeeps(st: State, t: nat)
    requires Inv(st) && t < |st.sels| && st.sels[t].pc.Enlist?
    ensures Inv(RunEnlist(st, t))
  {
    ListChangeKeeps(st, RunEnlist(st, t), t);
  }

  /** Counting one socket: the uint8_t does not wrap, since fewer than 256 selects can count it. */
  lemma ClaimKeeps(st: State, t: nat, i: nat)
    requires Inv(st) && |st.sels| < SELWAIT_RANGE && t < |st.sels|
    requires st.sels[t].pc == Count(i) && i < st.sels[t].req.maxfdp1 && Watched(st.sels[t].req, i) && i in st.socks
    ensures st.socks[i].waiting + 1 < SELWAIT_RANGE
    ensures Inv(RunPc(SetWaiting(st, i, st.socks[i].waiting + 1), t, Count(i + 1)))
  {
    var st' := RunPc(SetWaiting(st, i, st.socks[i].waiting + 1), t, Count(i + 1));
    assert SelInv(st, st.sels[t]);
    CountOfUpdate(st.sels, t, st'.sels[t], i);
    OwnStepKeeps(st, st', t);
  }

  lemma CountKeeps(st: State, t: nat)
    requires Inv(st) && |st.sels| < SELWAIT_RANGE && t < |st.sels| && st.sels[t].pc.Count?
    ensures Inv(RunCount(st, t))
  {
    hide Inv, CountOf;
    var sel := st.sels[t];
    var i := sel.pc.i;
    if i < sel.req.maxfdp1 && Watched(sel.req, i) && i in st.socks {
      ClaimKeeps(st, t, i);
    } else {
      CountElseKeeps(st, t);
    }
  }

  lemma CountElseKeeps(st: State, t: nat)
    requires Inv(st) && t < |st.sels| && st.sels[t].pc.Count?
    requires var sel := st.sels[t]; var i := sel.pc.i; i >= sel.req.maxfdp1 || !Watched(sel.req, i) || i !in st.socks
    ensures Inv(RunCount(st, t))
  {
    hide Inv, CountOf;
    SelOf(st, t);
    OwnStepKeeps(st, RunCount(st, t), t);
  }

  lemma WaitKeeps(st: State, t: nat, expire: bool)
    requires Inv(st) && t < |st.sels| && st.sels[t].pc.Wait? && (expire || st.sels[t].sem > 0)
    ensures Inv(RunWait(st, t, expire))
  {
    hide Inv, CountOf;
    SelOf(st, t);
    OwnStepKeeps(st, RunWait(st, t, expire), t);
  }

  lemma WaitingPositive(st: State, t: nat, fd: nat)
    requires Inv(st) && t < |st.sels| && fd in st.socks && Counted(st.sels[t], fd)
    ensures st.socks[fd].waiting > 0
  {
    CountOfPositive(st.sels, t, fd);
  }

  lemma UncountKeeps(st: State, t: nat)
    requires Inv(st) && t < |st.sels| && st.sels[t].pc.Uncount?
    ensures Inv(RunUncount(st, t))
  {
    hide Inv, CountOf;
    var sel := st.sels[t];
    var i := sel.pc.i;
    if i < sel.pc.limit && Watched(sel.req, i) && i in st.socks {
      UnclaimKeeps(st, t, i);
    } else {
      UncountElseKeeps(st, t);
    }
  }

  /** Taking one claim back: the counter was positive. */
  lemma UnclaimKeeps(st: State, t: nat, i: nat)
    requires Inv(st) && t < |st.sels| && st.sels[t].pc.Uncount? && i == st.sels[t].pc.i < st.sels[t].pc.limit
    requires Watched(st.sels[t].req, i) && i in st.socks
    ensures Inv(RunUncount(st, t))
  {
    hide Inv, CountOf;
    SelOf(st, t);
    if Counted(st.sels[t], i) { WaitingPositive(st, t, i); }
    OwnStepKeeps(st, RunUncount(st, t), t);
  }

  lemma UncountElseKeeps(st: State, t: nat)
    requires Inv(st) && t < |st.sels| && st.sels[t].pc.Uncount?
    requires var Uncount(i, limit, _, _) := st.sels[t].pc; i >= limit || !Watched(st.sels[t].req, i) || i !in st.socks
    ensures Inv(RunUncount(st, t))
  {
    hide Inv, CountOf;
    SelOf(st, t);
    OwnStepKeeps(st, RunUncount(st, t), t);
  }

  lemma DelistKeeps(st: State, t: nat)
    requires Inv(st) && t < |st.sels| && st.sels[t].pc.Delist?
    ensures Inv(RunDelist(st, t))
  {
    WithoutMembers(st.order, t);
    assert SelInv(st, st.sels[t]);
    ListChangeKeeps(st, RunDelist(st, t), t);
  }

  lemma LeftoverKeeps(st: State, fd: nat, lastdata: bool)
    requires Inv(st) && fd in st.socks
    ensures Inv(Apply(st, Leftover(fd, lastdata)))
  {
    var st' := Apply(st, Leftover(fd, lastdata));
    forall u | 0 <= u < |st.sels| ensures SelInv(st', st'.sels[u]) { assert SelInv(st, st.sels[u]); }
    forall n | 0 <= n < |st.walks| ensures WalkerInv(st', st'.walks[n]) { assert WalkerInv(st, st.walks[n]); }
    forall u, g | Owed(st', g, u) ensures SomeoneComing(st', g, u) {
      assert Owed(st, g, u);
      var n :| 0 <= n < |st.walks| && Coming(st, st.walks[n], g, u);
      assert Coming(st', st'.walks[n], g, u);
    }
  }

  /** A connect that nobody counts can owe nobody a wake-up. */
  lemma ConnectKeeps(st: State, fd: nat)
    requires Inv(st) && fd in st.socks && st.socks[fd].waiting == 0
    ensures Inv(Apply(st, Connect(fd)))
  {
    var st' := Apply(st, Connect(fd));
    forall u | 0 <= u < |st.sels| ensures SelInv(st', st'.sels[u]) { assert SelInv(st, st.sels[u]); }
    forall n | 0 <= n < |st.walks| ensures WalkerInv(st', st'.walks[n]) { assert WalkerInv(st, st.walks[n]); }
    forall u, g | Owed(st', g, u) ensures SomeoneComing(st', g, u) {
      if g == fd { CountOfPositive(st.sels, u, fd); }
      assert Owed(st, g, u);
      var n :| 0 <= n < |st.walks| && Coming(st, st.walks[n], g, u);
      assert Coming(st', st'.walks[n], g, u);
    }
  }

  /** What a visit changes: at most the visited select's flag and semaphore, and the walker. */
  lemma VisitKeepsAllButWake(st: State, n: nat, fd: nat, t: nat)
    requires ListInv(st) && SelsInv(st) && CountInv(st) && WalksInv(st)
    requires n < |st.walks| && fd in st.socks && t in st.order
    ensures var st' := Visit(st, n, fd, t); ListInv(st') && SelsInv(st') && CountInv(st') && WalksInv(st')
  {
    hide Counted, CountOf;
    var st' := Visit(st, n, fd, t);
    assert SelInv(st, st.sels[t]);
    forall u | 0 <= u < |st.sels| ensures SelInv(st', st'.sels[u]) { assert SelInv(st, st.sels[u]); }
    CountsKept(st, t, st'.sels[t]);
  }

  /** A select's flag and semaphore have nothing to do with the counters. */
  lemma CountsKept(st: State, t: nat, sel: Sel)
    requires t < |st.sels| && sel.pc == st.sels[t].pc && sel.req == st.sels[t].req && CountInv(st)
    ensures CountInv(st.(sels := st.sels[t := sel]))
  {
    forall g | g in st.socks ensures st.socks[g].waiting == CountOf(st.sels[t := sel], g) {
      CountOfUpdate(st.sels, t, sel, g);
    }
  }

  /** What is owed, except to `fd`'s selects before position `from`, is on its way. */
  ghost predicate WakeInvFrom(st: State, n: nat, fd: nat, from: nat) {
    forall u, g :: Owed(st, g, u) ==>
      || (exists m :: 0 <= m < |st.walks| && m != n && Coming(st, st.walks[m], g, u))
      || (g == fd && u in st.order && Index(st.order, u) >= from)
  }

  /** Visiting the node at position `from` discharges it and leaves the later ones to the walk. */
  lemma VisitKeepsWake(st: State, n: nat, fd: nat, t: nat)
    requires ListInv(st) && n < |st.walks| && fd in st.socks && t in st.order && t < |st.sels|
    requires WakeInvFrom(st, n, fd, Index(st.order, t))
    ensures WakeInv(Visit(st, n, fd, t))
  {
    var st' := Visit(st, n, fd, t);
    forall u, g | Owed(st', g, u) ensures SomeoneComing(st', g, u) {
      assert Owed(st, g, u);
      if m :| 0 <= m < |st.walks| && m != n && Coming(st, st.walks[m], g, u) {
        assert Coming(st', st'.walks[m], g, u);
      } else {
        assert u != t;
        assert Index(st.order, u) != Index(st.order, t);
        assert Coming(st', st'.walks[n], g, u);
      }
    }
  }

  lemma ContinueKeeps(st: State, n: nat)
    requires Inv(st) && NoLap(st) && Enabled(st, Walk(n))
    ensures Inv(ContinueWalk(st, n))
  {
    hide SelsInv, CountInv, WakeInv, WakeInvFrom, Owed;
    var w := st.walks[n];
    assert WalkerInv(st, w);
    var next := Onward(st, w);
    OnwardOwes(st, n);
    if next == [] {
      RestKeeps(st, n, |st.order|);
    } else {
      VisitKeepsAllButWake(st, n, w.fd, next[0]);
      VisitKeepsWake(st, n, w.fd, next[0]);
    }
  }

  /** What a walk leaves behind it is not what it owes. */
  lemma OnwardOwes(st: State, n: nat)
    requires Inv(st) && NoLap(st) && Enabled(st, Walk(n))
    ensures var next := Onward(st, st.walks[n]);
            WakeInvFrom(st, n, st.walks[n].fd, if next == [] then |st.order| else Index(st.order, next[0]))
  {
    hide SelsInv, CountInv, Owed;
    var w := st.walks[n];
    assert WalkerInv(st, w);
    SameCtr(w.seen, st.ctr);
    forall u, g | Owed(st, g, u) && !(exists m :: 0 <= m < |st.walks| && m != n && Coming(st, st.walks[m], g, u))
      ensures g == w.fd && u in st.order
      ensures var next := Onward(st, w);
              Index(st.order, u) >= if next == [] then |st.order| else Index(st.order, next[0])
    {
      assert SomeoneComing(st, g, u);
      assert Coming(st, w, g, u);
      OnwardReaches(st, w, u);
    }
  }

  lemma OnwardReaches(st: State, w: Walker, u: nat)
    requires w.Walking? && Distinct(st.order) && Coming(st, w, w.fd, u) && w.seen <= st.ctr < w.seen + CTR_RANGE
    ensures Onward(st, w) != [] && Index(st.order, u) >= Index(st.order, Onward(st, w)[0])
  {
    SameCtr(w.seen, st.ctr);
    var next := Onward(st, w);
    assert next != [];
    assert next[0] in next;
    assert Index(st.order, next[0]) == if w.seen != st.ctr then 0 else Index(st.order, w.cur) + 1;
  }

  lemma RestKeeps(st: State, n: nat, from: nat)
    requires Inv(st) && n < |st.walks| && st.walks[n].Walking? && from == |st.order|
    requires WakeInvFrom(st, n, st.walks[n].fd, from)
    ensures Inv(st.(walks := st.walks[n := Resting]))
  {
    hide CountOf;
    var st' := st.(walks := st.walks[n := Resting]);
    forall u | 0 <= u < |st.sels| ensures SelInv(st', st'.sels[u]) { assert SelInv(st, st.sels[u]); }
    forall m | 0 <= m < |st.walks| ensures WalkerInv(st', st'.walks[m]) { assert WalkerInv(st, st.walks[m]); }
    forall u, g | Owed(st', g, u) ensures SomeoneComing(st', g, u) {
      assert Owed(st, g, u);
      var m :| 0 <= m < |st.walks| && m != n && Coming(st, st.walks[m], g, u);
      assert Coming(st', st'.walks[m], g, u);
    }
  }

  /** Without a lap of the counter, comparing it modulo 2^32 is comparing it. */
  lemma SameCtr(seen: nat, ctr: nat)
    requires seen <= ctr < seen + CTR_RANGE
    ensures seen % CTR_RANGE == ctr % CTR_RANGE <==> seen == ctr
  {
  }

  /** The socket's counters after an event: what is newly owed is owed to its own selects. */
  lemma BumpOwes(st: State, n: nat, fd: nat, evt: Event)
    requires Inv(st) && Enabled(st, Deal(n, fd, evt))
    ensures WakeInvFrom(st.(socks := st.socks[fd := Bump(st.socks[fd], evt)]), n, fd, 0)
  {
    hide Bump, CountInv, SelsInv, WalksInv;
    var st1 := st.(socks := st.socks[fd := Bump(st.socks[fd], evt)]);
    forall u, g | Owed(st1, g, u) ensures
      || (exists m :: 0 <= m < |st1.walks| && m != n && Coming(st1, st1.walks[m], g, u))
      || (g == fd && u in st1.order && Index(st1.order, u) >= 0)
    {
      assert u in st.order;
      if g != fd {
        assert Owed(st, g, u);
        var m :| 0 <= m < |st.walks| && Coming(st, st.walks[m], g, u);
        assert Coming(st1, st1.walks[m], g, u);
      }
    }
  }

  lemma BumpKeeps(st: State, fd: nat, evt: Event)
    requires Inv(st) && fd in st.socks
    ensures var st1 := st.(socks := st.socks[fd := Bump(st.socks[fd], evt)]);
            ListInv(st1) && SelsInv(st1) && CountInv(st1) && WalksInv(st1)
  {
    hide WakeInv, CountOf;
    var st1 := st.(socks := st.socks[fd := Bump(st.socks[fd], evt)]);
    forall u | 0 <= u < |st.sels| ensures SelInv(st1, st1.sels[u]) { assert SelInv(st, st.sels[u]); }
    forall m | 0 <= m < |st.walks| ensures WalkerInv(st1, st1.walks[m]) { assert WalkerInv(st, st.walks[m]); }
  }

  /** A socket nobody has counted owes nobody, so what is owed is all on its way. */
  lemma UncountedOwesNobody(st: State, n: nat, fd: nat, from: nat)
    requires CountInv(st) && WakeInvFrom(st, n, fd, from) && fd in st.socks
    requires st.socks[fd].waiting == 0 || st.order == []
    ensures WakeInv(st)
  {
    forall u, g | Owed(st, g, u) ensures SomeoneComing(st, g, u) {
      if g == fd && st.socks[fd].waiting == 0 { CountOfPositive(st.sels, u, fd); }
    }
  }

  lemma DealKeeps(st: State, n: nat, fd: nat, evt: Event)
    requires Inv(st) && Enabled(st, Deal(n, fd, evt))
    ensures Inv(BeginWalk(st, n, fd, evt))
  {
    hide Bump, ListInv, SelsInv, CountInv, WalksInv, WakeInv, WakeInvFrom;
    var st1 := st.(socks := st.socks[fd := Bump(st.socks[fd], evt)]);
    BumpKeeps(st, fd, evt);
    BumpOwes(st, n, fd, evt);
    if st1.socks[fd].waiting == 0 || st.order == [] {
      UncountedOwesNobody(st1, n, fd, 0);
    } else {
      assert st.order[0] in st.order;
      VisitKeepsAllButWake(st1, n, fd, st.order[0]);
      VisitKeepsWake(st1, n, fd, st.order[0]);
    }
  }
}
