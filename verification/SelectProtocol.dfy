/**
 * The select/notify protocol of device/sal/sal_sockets.c as a state machine.
 *
 * One step is one region between SAL_ARCH_PROTECT and SAL_ARCH_UNPROTECT (or a step on the
 * caller's own variables), so a behaviour is any interleaving of any number of selects and
 * notifiers.  The list of waiting selects is the sequence `order`, head first; SelectList.dfy
 * proves that the linked nodes realise exactly these operations on it.
 */
module SelectProtocol {
  import opened Orders

  const SOCKET_OFFSET: nat   // SAL_SOCKET_OFFSET, whatever it is
  const SELWAIT_RANGE: nat := 0x100   // select_waiting is a uint8_t
  type MboxSize = n: nat | 0 < n < 0x1_0000 witness 8
  const OUTPUTMBOX_SIZE: MboxSize   // SAL_DEFAULT_OUTPUTMBOX_SIZE, whatever it is
  const CTR_RANGE: nat := 0x1_0000_0000   // select_cb_ctr is a 32-bit int

  datatype Event = RcvPlus | RcvMinus | SendPlus | SendMinus | Error

  /** The part of struct sal_sock that select and the notifiers share. */
  datatype Sock = Sock(lastdata: bool, rcvevent: int, sendevent: nat, errevent: bool, waiting: nat)

  datatype Timeout = Forever | Poll | Limited

  /** The arguments of one sal_select call; an absent fd_set is an empty one. */
  datatype Request = Request(maxfdp1: nat, readset: set<nat>, writeset: set<nat>, exceptset: set<nat>, timeout: Timeout)

  /** Where a select is. `Scan(2, i, n)` is the second sal_selscan about to look at fd `i`. */
  datatype Pc =
    | Idle
    | Scan(round: nat, i: nat, nready: int)
    | Enlist
    | Count(i: nat)
    | Wait
    | Uncount(i: nat, limit: nat, nready: int, timedOut: bool)
    | Delist(nready: int, timedOut: bool)
    | Returned(result: int)

  datatype Sel = Sel(pc: Pc, req: Request, signalled: bool, sem: nat)

  /** A notifier: between calls, or just after visiting the listed select `cur`. */
  datatype Walker = Resting | Walking(fd: nat, cur: nat, seen: nat)

  datatype State = State(socks: map<nat, Sock>, sels: seq<Sel>, walks: seq<Walker>, order: seq<nat>, ctr: nat)

  datatype Step =
    | Call(t: nat, req: Request)
    | Run(t: nat, expire: bool)
    | Deal(n: nat, fd: nat, evt: Event)
    | Walk(n: nat)
    | Leftover(fd: nat, lastdata: bool)
    | Connect(fd: nat)

  // ---------------------------------------------------------------- readiness

  predicate Watched(req: Request, fd: nat) {
    fd in req.readset || fd in req.writeset || fd in req.exceptset
  }

  /** How many of a request's three sets sal_selscan marks for one socket. */
  function Hits(req: Request, fd: nat, k: Sock): nat {
    (if fd in req.readset && (k.lastdata || k.rcvevent > 0) then 1 else 0) +
    (if fd in req.writeset && k.sendevent != 0 then 1 else 0) +
    (if fd in req.exceptset && k.errevent then 1 else 0)
  }

  /** The test sal_deal_event applies to a listed select: the counters only, not `lastdata`. */
  predicate Ready(req: Request, fd: nat, k: Sock) {
    || (k.rcvevent > 0 && fd in req.readset)
    || (k.sendevent != 0 && fd in req.writeset)
    || (k.errevent && fd in req.exceptset)
  }

  /** What is left of `x` in an int16_t. */
  function WrapI16(x: int): (w: int)
    ensures -0x8000 <= w < 0x8000 && (w - x) % 0x1_0000 == 0
  {
    (x + 0x8000) % 0x1_0000 - 0x8000
  }

  function Bump(k: Sock, evt: Event): Sock {
    match evt
    case RcvPlus => k.(rcvevent := WrapI16(k.rcvevent + 1))
    case RcvMinus => k.(rcvevent := WrapI16(k.rcvevent - 1))
    case SendPlus => k.(sendevent := (k.sendevent + 1) % 0x1_0000)
    case SendMinus => k.(sendevent := (k.sendevent + 0xffff) % 0x1_0000)
    case Error => k.(errevent := true)
  }

  // ---------------------------------------------------------------- sal_select

  function AfterScan(round: nat, req: Request, nready: int): Pc {
    if round == 1 then
      if nready > 0 || req.timeout.Poll? then Returned(nready) else Enlist
    else if round == 2 then
      if nready > 0 then Uncount(SOCKET_OFFSET, req.maxfdp1, nready, false) else Wait
    else Returned(nready)
  }

  function RunPc(st: State, t: nat, pc: Pc): State
    requires t < |st.sels|
  {
    st.(sels := st.sels[t := st.sels[t].(pc := pc)])
  }

  function SetWaiting(st: State, fd: nat, w: nat): State
    requires fd in st.socks
  {
    st.(socks := st.socks[fd := st.socks[fd].(waiting := w)])
  }

  function RunScan(st: State, t: nat): State
    requires t < |st.sels| && st.sels[t].pc.Scan?
  {
    var sel := st.sels[t];
    var Scan(round, i, nready) := sel.pc;
    if i >= sel.req.maxfdp1 then RunPc(st, t, AfterScan(round, sel.req, nready))
    else if Watched(sel.req, i) && i in st.socks then
      RunPc(st, t, Scan(round, i + 1, nready + Hits(sel.req, i, st.socks[i])))
    else RunPc(st, t, Scan(round, i + 1, nready))
  }

  function RunEnlist(st: State, t: nat): State
    requires t < |st.sels|
  {
    st.(sels := st.sels[t := Sel(Count(SOCKET_OFFSET), st.sels[t].req, false, 0)],
        order := [t] + st.order, ctr := st.ctr + 1)
  }

  function RunCount(st: State, t: nat): State
    requires t < |st.sels| && st.sels[t].pc.Count?
  {
    var sel := st.sels[t];
    var i := sel.pc.i;
    if i >= sel.req.maxfdp1 then RunPc(st, t, Scan(2, SOCKET_OFFSET, 0))
    else if !Watched(sel.req, i) then RunPc(st, t, Count(i + 1))
    else if i in st.socks then
      RunPc(SetWaiting(st, i, (st.socks[i].waiting + 1) % SELWAIT_RANGE), t, Count(i + 1))
    else RunPc(st, t, Uncount(SOCKET_OFFSET, i, -1, false))
  }

  function RunWait(st: State, t: nat, expire: bool): State
    requires t < |st.sels| && (expire || st.sels[t].sem > 0)
  {
    var sel := st.sels[t];
    var pc := Uncount(SOCKET_OFFSET, sel.req.maxfdp1, 0, expire);
    st.(sels := st.sels[t := sel.(pc := pc, sem := if expire then sel.sem else sel.sem - 1)])
  }

  function RunUncount(st: State, t: nat): State
    requires t < |st.sels| && st.sels[t].pc.Uncount?
  {
    var sel := st.sels[t];
    var Uncount(i, limit, nready, timedOut) := sel.pc;
    if i >= limit then RunPc(st, t, Delist(nready, timedOut))
    else if !Watched(sel.req, i) then RunPc(st, t, Uncount(i + 1, limit, nready, timedOut))
    else if i in st.socks then
      var w := st.socks[i].waiting;
      RunPc(SetWaiting(st, i, if w > 0 then w - 1 else w), t, Uncount(i + 1, limit, nready, timedOut))
    else RunPc(st, t, Uncount(i + 1, limit, -1, timedOut))
  }

  function RunDelist(st: State, t: nat): State
    requires t < |st.sels| && st.sels[t].pc.Delist?
  {
    var Delist(nready, timedOut) := st.sels[t].pc;
    var pc := if nready < 0 then Returned(-1) else if timedOut then Returned(nready) else Scan(3, SOCKET_OFFSET, 0);
    RunPc(st, t, pc).(order := Without(st.order, t), ctr := st.ctr + 1)
  }

  // ---------------------------------------------------------------- sal_deal_event

  /** Looks at select `t` for socket `fd`, signals it if due, and lets go of the lock. */
  function Visit(st: State, n: nat, fd: nat, t: nat): State
    requires n < |st.walks| && fd in st.socks && t < |st.sels|
  {
    var sel := st.sels[t];
    var due := !sel.signalled && Ready(sel.req, fd, st.socks[fd]);
    var sel' := if due then sel.(signalled := true, sem := sel.sem + 1) else sel;
    st.(sels := st.sels[t := sel'], walks := st.walks[n := Walking(fd, t, st.ctr)])
  }

  /** From the event to the first release of the lock. */
  function BeginWalk(st: State, n: nat, fd: nat, evt: Event): State
    requires n < |st.walks| && fd in st.socks && forall t :: t in st.order ==> t < |st.sels|
  {
    var st1 := st.(socks := st.socks[fd := Bump(st.socks[fd], evt)]);
    if st1.socks[fd].waiting == 0 || st.order == [] then st1 else
      assert st.order[0] in st.order;
      Visit(st1, n, fd, st.order[0])
  }

  /** Where the lock is taken again: from the head if the list changed, else the next node. */
  function Onward(st: State, w: Walker): (next: seq<nat>)
    requires w.Walking?
    ensures forall t :: t in next ==> t in st.order
  {
    if w.seen % CTR_RANGE != st.ctr % CTR_RANGE then (if st.order == [] then [] else [st.order[0]])
    else After(st.order, w.cur)
  }

  function ContinueWalk(st: State, n: nat): State
    requires n < |st.walks| && st.walks[n].Walking? && st.walks[n].fd in st.socks
    requires forall t :: t in st.order ==> t < |st.sels|
  {
    var next := Onward(st, st.walks[n]);
    if next == [] then st.(walks := st.walks[n := Resting]) else
      assert next[0] in next;
      Visit(st, n, st.walks[n].fd, next[0])
  }

  // ---------------------------------------------------------------- behaviours

  ghost predicate Enabled(st: State, step: Step) {
    match step
    case Call(t, req) => t < |st.sels| && (st.sels[t].pc.Idle? || st.sels[t].pc.Returned?)
    case Run(t, expire) =>
      && t < |st.sels| && !st.sels[t].pc.Idle? && !st.sels[t].pc.Returned?
      && (expire ==> st.sels[t].pc.Wait? && st.sels[t].req.timeout.Limited?)
      && (st.sels[t].pc.Wait? && !expire ==> st.sels[t].sem > 0)
    case Deal(n, fd, evt) => n < |st.walks| && st.walks[n].Resting? && fd in st.socks && Sane(st)
    case Walk(n) => n < |st.walks| && st.walks[n].Walking? && st.walks[n].fd in st.socks && Sane(st)
    case Leftover(fd, lastdata) => fd in st.socks
    case Connect(fd) => fd in st.socks
  }

  ghost predicate Sane(st: State) { forall t :: t in st.order ==> t < |st.sels| }

  ghost function Apply(st: State, step: Step): State
    requires Enabled(st, step)
  {
    match step
    case Call(t, req) => st.(sels := st.sels[t := Sel(Scan(1, SOCKET_OFFSET, 0), req, false, 0)])
    case Run(t, expire) =>
      (match st.sels[t].pc
       case Scan(_, _, _) => RunScan(st, t)
       case Enlist => RunEnlist(st, t)
       case Count(_) => RunCount(st, t)
       case Wait => RunWait(st, t, expire)
       case Uncount(_, _, _, _) => RunUncount(st, t)
       case Delist(_, _) => RunDelist(st, t))
    case Deal(n, fd, evt) => BeginWalk(st, n, fd, evt)
    case Walk(n) => ContinueWalk(st, n)
    case Leftover(fd, lastdata) => st.(socks := st.socks[fd := st.socks[fd].(lastdata := lastdata)])
    case Connect(fd) => st.(socks := st.socks[fd := st.socks[fd].(sendevent := OUTPUTMBOX_SIZE)])
  }

  /** Nobody selects, nobody notifies, and select_waiting is 0 everywhere. */
  ghost predicate Init(st: State) {
    && (forall t :: 0 <= t < |st.sels| ==> st.sels[t].pc.Idle? && st.sels[t].sem == 0)
    && (forall n :: 0 <= n < |st.walks| ==> st.walks[n].Resting?)
    && st.order == []
    && (forall fd :: fd in st.socks ==> SOCKET_OFFSET <= fd && st.socks[fd].waiting == 0)
  }

  /** No notifier stays between two lock regions through 2^32 changes of the list. */
  ghost predicate NoLap(st: State) {
    forall n :: 0 <= n < |st.walks| && st.walks[n].Walking? ==> st.ctr < st.walks[n].seen + CTR_RANGE
  }

  /** salnetconn_connect writes sendevent without notifying, so nobody may be counting the socket then. */
  ghost predicate Considerate(st: State, step: Step) {
    step.Connect? && step.fd in st.socks ==> st.socks[step.fd].waiting == 0
  }

  ghost predicate Behaviour(tr: seq<State>, steps: seq<Step>) {
    && |tr| == |steps| + 1
    && Init(tr[0])
    && (forall i :: 0 <= i < |tr| ==> NoLap(tr[i]))
    && (forall i :: 0 <= i < |steps| ==>
         Enabled(tr[i], steps[i]) && Considerate(tr[i], steps[i]) && tr[i + 1] == Apply(tr[i], steps[i]))
  }
}
