/** The promises of the select/notify protocol, over all behaviours. */
module SelectTheorems {
  import opened Orders
  import opened SelectProtocol
  import opened SelectSafety

  lemma InitInv(st: State)
    requires Init(st)
    ensures Inv(st)
  {
    forall fd | fd in st.socks ensures CountOf(st.sels, fd) == 0 { CountOfZero(st.sels, fd); }
    forall t | 0 <= t < |st.sels| ensures SelInv(st, st.sels[t]) {}
  }

  lemma StepKeeps(st: State, step: Step)
    requires Inv(st) && NoLap(st) && |st.sels| < SELWAIT_RANGE && Enabled(st, step) && Considerate(st, step)
    ensures Inv(Apply(st, step))
  {
    match step
    case Call(t, req) => CallKeeps(st, t, req);
    case Run(t, expire) =>
      match st.sels[t].pc {
        case Scan(_, _, _) => ScanKeeps(st, t);
        case Enlist => EnlistKeeps(st, t);
        case Count(_) => CountKeeps(st, t);
        case Wait => WaitKeeps(st, t, expire);
        case Uncount(_, _, _, _) => UncountKeeps(st, t);
        case Delist(_, _) => DelistKeeps(st, t);
      }
    case Deal(n, fd, evt) => DealKeeps(st, n, fd, evt);
    case Walk(n) => ContinueKeeps(st, n);
    case Leftover(fd, lastdata) => LeftoverKeeps(st, fd, lastdata);
    case Connect(fd) => ConnectKeeps(st, fd);
  }

  lemma StepKeepsShape(st: State, step: Step)
    requires Enabled(st, step)
    ensures |Apply(st, step).sels| == |st.sels| && |Apply(st, step).walks| == |st.walks|
    ensures Apply(st, step).socks.Keys == st.socks.Keys
  {
    match step
    case Call(t, req) =>
    case Run(t, expire) =>
      match st.sels[t].pc {
        case Scan(_, _, _) =>
        case Enlist =>
        case Count(_) =>
        case Wait =>
        case Uncount(_, _, _, _) =>
        case Delist(_, _) =>
      }
    case Deal(n, fd, evt) => assert st.order != [] ==> st.order[0] in st.order;
    case Walk(n) =>
      var next := Onward(st, st.walks[n]);
      assert next != [] ==> next[0] in next;
    case Leftover(fd, lastdata) =>
    case Connect(fd) =>
  }

  lemma {:induction false} InvAlways(tr: seq<State>, steps: seq<Step>, i: nat)
    requires Behaviour(tr, steps) && |tr[0].sels| < SELWAIT_RANGE && i < |tr|
    ensures Inv(tr[i]) && |tr[i].sels| == |tr[0].sels| && |tr[i].walks| == |tr[0].walks|
  {
    if i == 0 {
      InitInv(tr[0]);
    } else {
      InvAlways(tr, steps, i - 1);
      StepKeeps(tr[i - 1], steps[i - 1]);
      StepKeepsShape(tr[i - 1], steps[i - 1]);
    }
  }

  // ---------------------------------------------------------------- no lost wake-up

  /** No sal_deal_event is under way. */
  ghost predicate Quiet(st: State) { forall n :: 0 <= n < |st.walks| ==> st.walks[n].Resting? }

  /** Select `t` sleeps on its semaphore although the counters of its socket `fd` are in its favour. */
  ghost predicate Sleeper(st: State, t: nat, fd: nat) {
    && t < |st.sels| && st.sels[t].pc.Wait? && st.sels[t].sem == 0
    && fd < st.sels[t].req.maxfdp1 && fd in st.socks && Ready(st.sels[t].req, fd, st.socks[fd])
  }

  /** At all times a select owed a wake-up has a notifier on its way to it; when all is quiet none sleeps. */
  lemma NoLostWakeup(tr: seq<State>, steps: seq<Step>, i: nat)
    requires Behaviour(tr, steps) && |tr[0].sels| < SELWAIT_RANGE && i < |tr|
    ensures forall t, fd :: Owed(tr[i], fd, t) ==> SomeoneComing(tr[i], fd, t)
    ensures Quiet(tr[i]) ==> forall t, fd :: !Sleeper(tr[i], t, fd)
  {
    InvAlways(tr, steps, i);
    forall t: nat, fd: nat | Sleeper(tr[i], t, fd) ensures !Quiet(tr[i]) {
      assert SelInv(tr[i], tr[i].sels[t]);
      assert Owed(tr[i], fd, t);
    }
  }

  // ---------------------------------------------------------------- walk safety and progress

  /** A notifier moves by `next` only from a node still listed, to a listed one, and signals no select twice. */
  lemma WalkSafety(tr: seq<State>, steps: seq<Step>, i: nat, n: nat)
    requires Behaviour(tr, steps) && |tr[0].sels| < SELWAIT_RANGE && i < |tr|
    requires n < |tr[i].walks| && tr[i].walks[n].Walking?
    ensures Enabled(tr[i], Walk(n))
    ensures var w := tr[i].walks[n];
            w.seen % CTR_RANGE == tr[i].ctr % CTR_RANGE ==>
              w.cur in tr[i].order && Onward(tr[i], w) == After(tr[i].order, w.cur)
    ensures forall t :: 0 <= t < |tr[i].sels| ==> tr[i].sels[t].sem <= 1
  {
    InvAlways(tr, steps, i);
    assert WalkerInv(tr[i], tr[i].walks[n]);
    SameCtr(tr[i].walks[n].seen, tr[i].ctr);
    forall t | 0 <= t < |tr[i].sels| ensures tr[i].sels[t].sem <= 1 { assert SelInv(tr[i], tr[i].sels[t]); }
  }

  /** How many more lock regions notifier `n` needs if the list stays as it is. */
  ghost function Remaining(st: State, n: nat): nat
    requires n < |st.walks|
  {
    var w := st.walks[n];
    if w.Resting? then 0
    else if w.seen != st.ctr then |st.order| + 1
    else if w.cur in st.order then |st.order| - Index(st.order, w.cur)
    else 0
  }

  lemma WalkShrinks(st: State, n: nat)
    requires Inv(st) && NoLap(st) && Enabled(st, Walk(n))
    ensures Remaining(ContinueWalk(st, n), n) < Remaining(st, n)
  {
    var w := st.walks[n];
    assert WalkerInv(st, w);
    SameCtr(w.seen, st.ctr);
    var next := Onward(st, w);
    if next != [] {
      assert next[0] in next;
      assert Index(st.order, next[0]) == if w.seen != st.ctr then 0 else Index(st.order, w.cur) + 1;
    }
  }

  ghost function WalkSteps(steps: seq<Step>, n: nat, i: nat, j: nat): nat
    requires i <= j <= |steps|
  {
    if i == j then 0 else WalkSteps(steps, n, i, j - 1) + if steps[j - 1] == Walk(n) then 1 else 0
  }

  /** The other steps, as long as they leave the list alone, do not set a notifier back. */
  lemma OthersDoNotDelay(st: State, step: Step, n: nat)
    requires Inv(st) && Enabled(st, step) && step != Walk(n) && !(step.Deal? && step.n == n)
    requires n < |st.walks| && Apply(st, step).ctr == st.ctr
    ensures n < |Apply(st, step).walks| && Apply(st, step).walks[n] == st.walks[n] && Apply(st, step).order == st.order
  {
    hide Inv, Ready, Hits;
    match step
    case Call(t, req) =>
    case Run(t, expire) =>
    case Deal(m, fd, evt) =>
    case Walk(m) =>
    case Leftover(fd, lastdata) =>
    case Connect(fd) =>
  }

  lemma OneStepOfWalk(tr: seq<State>, steps: seq<Step>, n: nat, k: nat)
    requires Behaviour(tr, steps) && |tr[0].sels| < SELWAIT_RANGE && k < |steps| && n < |tr[0].walks|
    requires tr[k + 1].ctr == tr[k].ctr && !(steps[k].Deal? && steps[k].n == n)
    ensures n < |tr[k].walks| && n < |tr[k + 1].walks|
    ensures Remaining(tr[k + 1], n) + (if steps[k] == Walk(n) then 1 else 0) <= Remaining(tr[k], n)
  {
    InvAlways(tr, steps, k);
    if steps[k] == Walk(n) { WalkShrinks(tr[k], n); } else { OthersDoNotDelay(tr[k], steps[k], n); }
  }

  lemma WalksAreFixed(tr: seq<State>, steps: seq<Step>, n: nat, i: nat)
    requires Behaviour(tr, steps) && |tr[0].sels| < SELWAIT_RANGE && i < |tr| && n < |tr[0].walks|
    ensures n < |tr[i].walks| && Remaining(tr[i], n) <= |tr[i].order| + 1 && |tr| == |steps| + 1
  {
    InvAlways(tr, steps, i);
  }

  /** While the list does not change, a walk under way takes at most one region per listed select, plus one. */
  lemma {:induction false} WalkFinishes(tr: seq<State>, steps: seq<Step>, n: nat, i: nat, j: nat)
    requires Behaviour(tr, steps) && |tr[0].sels| < SELWAIT_RANGE && i <= j < |tr| && n < |tr[0].walks|
    requires forall k :: i <= k <= j ==> tr[k].ctr == tr[i].ctr
    requires forall k :: i <= k < j ==> !(steps[k].Deal? && steps[k].n == n)
    ensures n < |tr[i].walks| && n < |tr[j].walks|
    ensures WalkSteps(steps, n, i, j) + Remaining(tr[j], n) <= Remaining(tr[i], n) <= |tr[i].order| + 1
  {
    hide Behaviour, Remaining;
    WalksAreFixed(tr, steps, n, i);
    if i < j {
      WalkFinishes(tr, steps, n, i, j - 1);
      assert tr[j].ctr == tr[i].ctr && tr[j - 1].ctr == tr[i].ctr;
      OneStepOfWalk(tr, steps, n, j - 1);
    }
  }

  // ---------------------------------------------------------------- select_waiting

  /** select_waiting is the number of selects that have counted the socket, and 0 once none is in progress. */
  lemma WaitingIsCount(tr: seq<State>, steps: seq<Step>, i: nat, fd: nat)
    requires Behaviour(tr, steps) && |tr[0].sels| < SELWAIT_RANGE && i < |tr| && fd in tr[i].socks
    ensures tr[i].socks[fd].waiting == CountOf(tr[i].sels, fd)
    ensures (forall t :: 0 <= t < |tr[i].sels| ==> !Listed(tr[i].sels[t].pc)) ==> tr[i].socks[fd].waiting == 0
  {
    InvAlways(tr, steps, i);
    if forall t :: 0 <= t < |tr[i].sels| ==> !Listed(tr[i].sels[t].pc) { CountOfZero(tr[i].sels, fd); }
  }

  // ---------------------------------------------------------------- the uint8_t is the exact limit

  /** With `selects` select slots, no quiet state of any behaviour leaves a sleeper. */
  ghost predicate NeverSleeps(selects: nat) {
    forall tr: seq<State>, steps: seq<Step> :: Behaviour(tr, steps) && |tr[0].sels| == selects ==>
      forall i :: 0 <= i < |tr| && Quiet(tr[i]) ==> forall t, fd :: !Sleeper(tr[i], t, fd)
  }

  /** With `selects` select slots, select_waiting always is the number of selects that counted the socket. */
  ghost predicate AlwaysCounts(selects: nat) {
    forall tr: seq<State>, steps: seq<Step> :: Behaviour(tr, steps) && |tr[0].sels| == selects ==>
      forall i :: 0 <= i < |tr| ==> CountInv(tr[i])
  }

  const FIRST := SOCKET_OFFSET // the first socket
  const READ_FIRST := Request(FIRST + 1, {FIRST}, {}, {}, Forever)

  /** One open socket, and the first `k` of `selects` callers have just counted it. */
  function Crowd(selects: nat, k: nat): State {
    State(map[FIRST := Sock(false, 0, 0, false, k % SELWAIT_RANGE)],
          seq(selects, t => Sel(if t < k then Count(FIRST + 1) else Idle, READ_FIRST, false, 0)),
          [Resting],
          seq(k, j requires 0 <= j < k => k - 1 - j),
          k)
  }

  /** `Crowd(selects, k)` with the next caller on its way. */
  function Busy(selects: nat, k: nat, pc: Pc): State
    requires k < selects
  {
    var st := Crowd(selects, k);
    st.(sels := st.sels[k := Sel(pc, READ_FIRST, false, 0)])
  }

  lemma BusyScans(selects: nat, k: nat)
    requires k < selects
    ensures RunScan(Busy(selects, k, Scan(1, FIRST, 0)), k) == Busy(selects, k, Scan(1, FIRST + 1, 0))
    ensures RunScan(Busy(selects, k, Scan(1, FIRST + 1, 0)), k) == Busy(selects, k, Enlist)
  {
  }

  lemma BusyCounts(selects: nat, k: nat)
    requires k < selects
    ensures RunCount(RunEnlist(Busy(selects, k, Enlist), k), k) == Crowd(selects, k + 1)
  {
    hide Crowd, Busy;
    CrowdParts(selects, k);
    CrowdParts(selects, k + 1);
    BusyParts(selects, k);
    Counting(Busy(selects, k, Enlist), k);
    CrowdGrows(selects, k);
  }

  /** Enlisting and counting the one socket it watches, select `k` changes these fields. */
  lemma Counting(st: State, k: nat)
    requires k < |st.sels| && st.sels[k] == Sel(Enlist, READ_FIRST, false, 0) && FIRST in st.socks
    ensures RunEnlist(st, k).sels[k].pc == Count(FIRST)
    ensures RunCount(RunEnlist(st, k), k)
         == st.(sels := st.sels[k := Sel(Count(FIRST + 1), READ_FIRST, false, 0)], order := [k] + st.order,
                ctr := st.ctr + 1,
                socks := st.socks[FIRST := st.socks[FIRST].(waiting := (st.socks[FIRST].waiting + 1) % SELWAIT_RANGE)])
  {
    var listed := RunEnlist(st, k);
    assert listed.sels[k] == Sel(Count(FIRST), READ_FIRST, false, 0);
    assert Watched(READ_FIRST, FIRST);
    assert listed.sels[k := Sel(Count(FIRST + 1), READ_FIRST, false, 0)]
        == st.sels[k := Sel(Count(FIRST + 1), READ_FIRST, false, 0)];
  }

  lemma CrowdParts(selects: nat, k: nat)
    ensures var st := Crowd(selects, k);
            && st.socks == map[FIRST := Sock(false, 0, 0, false, k % SELWAIT_RANGE)] && |st.sels| == selects
            && st.walks == [Resting] && st.ctr == k
  {
  }

  lemma BusyParts(selects: nat, k: nat)
    requires k < selects
    ensures var st, busy := Crowd(selects, k), Busy(selects, k, Enlist);
            busy == st.(sels := busy.sels) && busy.sels == st.sels[k := Sel(Enlist, READ_FIRST, false, 0)]
  {
  }

  lemma CrowdGrows(selects: nat, k: nat)
    requires k < selects
    ensures Crowd(selects, k + 1).order == [k] + Crowd(selects, k).order
    ensures Crowd(selects, k + 1).sels == Crowd(selects, k).sels[k := Sel(Count(FIRST + 1), READ_FIRST, false, 0)]
  {
  }

  /** Each caller in turn scans, puts itself on the list and counts the socket. */
  lemma {:induction false} GrowCrowd(selects: nat, k: nat) returns (tr: seq<State>, steps: seq<Step>)
    requires k <= selects
    ensures Behaviour(tr, steps) && |tr| == |steps| + 1 && tr[|steps|] == Crowd(selects, k) && |tr[0].sels| == selects
  {
    hide Behaviour;
    if k == 0 {
      tr, steps := Start(Crowd(selects, 0));
    } else {
      tr, steps := GrowCrowd(selects, k - 1);
      tr, steps := Join(selects, k - 1, tr, steps);
    }
  }

  lemma Join(selects: nat, k: nat, tr: seq<State>, steps: seq<Step>) returns (tr': seq<State>, steps': seq<Step>)
    requires Behaviour(tr, steps) && |tr| == |steps| + 1 && k < selects && tr[|steps|] == Crowd(selects, k)
    ensures Behaviour(tr', steps') && |tr'| == |steps'| + 1 && tr'[|steps'|] == Crowd(selects, k + 1) && tr'[0] == tr[0]
  {
    hide Behaviour, Crowd, Busy, NoLap, RunCount, RunEnlist, RunScan;
    BusyScans(selects, k);
    BusyCounts(selects, k);
    Calling(selects, k);
    BusyRuns(selects, k, Scan(1, FIRST, 0));
    BusyRuns(selects, k, Scan(1, FIRST + 1, 0));
    BusyRuns(selects, k, Enlist);
    BusyEnlists(selects, k);
    tr', steps' := Extend(tr, steps, Call(k, READ_FIRST));
    tr', steps' := Extend(tr', steps', Run(k, false));
    tr', steps' := Extend(tr', steps', Run(k, false));
    tr', steps' := Extend(tr', steps', Run(k, false));
    tr', steps' := Extend(tr', steps', Run(k, false));
  }

  lemma Calling(selects: nat, k: nat)
    requires k < selects
    ensures var st, step := Crowd(selects, k), Call(k, READ_FIRST);
            Enabled(st, step) && Apply(st, step) == Busy(selects, k, Scan(1, FIRST, 0))
  {
  }

  lemma BusyRuns(selects: nat, k: nat, pc: Pc)
    requires k < selects && !pc.Idle? && !pc.Returned? && !pc.Wait?
    ensures var st := Busy(selects, k, pc);
            Enabled(st, Run(k, false)) && NoLap(st) && k < |st.sels| && st.sels[k].pc == pc
  {
  }

  lemma BusyEnlists(selects: nat, k: nat)
    requires k < selects
    ensures var st := RunEnlist(Busy(selects, k, Enlist), k);
            && Enabled(st, Run(k, false)) && NoLap(st) && k < |st.sels| && st.sels[k].pc == Count(FIRST)
            && NoLap(Crowd(selects, k + 1))
  {
  }

  lemma Start(st: State) returns (tr: seq<State>, steps: seq<Step>)
    requires Init(st) && NoLap(st)
    ensures Behaviour(tr, steps) && |tr| == |steps| + 1 && tr[|steps|] == tr[0] == st
  {
    tr, steps := [st], [];
  }

  lemma Extend(tr: seq<State>, steps: seq<Step>, step: Step) returns (tr': seq<State>, steps': seq<Step>)
    requires Behaviour(tr, steps) && Enabled(tr[|steps|], step) && Considerate(tr[|steps|], step)
    requires NoLap(Apply(tr[|steps|], step))
    ensures tr' == tr + [Apply(tr[|steps|], step)] && steps' == steps + [step]
    ensures Behaviour(tr', steps') && |tr'| == |steps'| + 1
    ensures tr'[|steps'|] == Apply(tr[|steps|], step) && tr'[0] == tr[0]
  {
    hide Apply, Enabled, Considerate, NoLap, Init;
    tr', steps' := tr + [Apply(tr[|steps|], step)], steps + [step];
  }

  /** 256 callers in, the first of them further on. */
  function Crowded(selects: nat, pc: Pc): State
    requires selects >= SELWAIT_RANGE
  {
    var st := Crowd(selects, SELWAIT_RANGE);
    st.(sels := st.sels[0 := Sel(pc, READ_FIRST, false, 0)])
  }

  lemma CrowdedSteps(selects: nat)
    requires selects >= SELWAIT_RANGE
    ensures RunCount(Crowd(selects, SELWAIT_RANGE), 0) == Crowded(selects, Scan(2, FIRST, 0))
    ensures RunScan(Crowded(selects, Scan(2, FIRST, 0)), 0) == Crowded(selects, Scan(2, FIRST + 1, 0))
    ensures RunScan(Crowded(selects, Scan(2, FIRST + 1, 0)), 0) == Crowded(selects, Wait)
  {
  }

  /** The counter reads 0, so a packet for the socket wakes nobody. */
  lemma CrowdedDeal(selects: nat)
    requires selects >= SELWAIT_RANGE
    ensures var st, step := Crowded(selects, Wait), Deal(0, FIRST, RcvPlus);
            Enabled(st, step) && NoLap(Apply(st, step))
    ensures var st := Apply(Crowded(selects, Wait), Deal(0, FIRST, RcvPlus));
            Quiet(st) && Sleeper(st, 0, FIRST) && !CountInv(st)
  {
    hide CountOf, Visit, Crowded;
    CrowdedParts(selects);
    var st := Apply(Crowded(selects, Wait), Deal(0, FIRST, RcvPlus));
    assert st.sels == Crowded(selects, Wait).sels && st.socks[FIRST] == Sock(false, 1, 0, false, 0);
    CountOfPositive(st.sels, 0, FIRST);
  }

  lemma CrowdedParts(selects: nat)
    requires selects >= SELWAIT_RANGE
    ensures var st := Crowded(selects, Wait);
            && st.socks == map[FIRST := Sock(false, 0, 0, false, 0)] && st.walks == [Resting] && Sane(st)
            && |st.sels| == selects && st.sels[0] == Sel(Wait, READ_FIRST, false, 0)
  {
  }

  lemma CrowdedRuns(selects: nat, pc: Pc)
    requires selects >= SELWAIT_RANGE && !pc.Idle? && !pc.Returned? && !pc.Wait?
    ensures Enabled(Crowded(selects, pc), Run(0, false)) && NoLap(Crowded(selects, pc)) && NoLap(Crowded(selects, Wait))
    ensures var st := Crowd(selects, SELWAIT_RANGE);
            Enabled(st, Run(0, false)) && st.sels[0].pc == Count(FIRST + 1)
    ensures |Crowded(selects, pc).sels| == selects && Crowded(selects, pc).sels[0].pc == pc
  {
  }

  /** 256 callers wrap the counter to 0; the arrival that follows then looks at nobody. */
  lemma CrowdSleeps(selects: nat) returns (tr: seq<State>, steps: seq<Step>)
    requires selects >= SELWAIT_RANGE
    ensures Behaviour(tr, steps) && |tr| == |steps| + 1 && |tr[0].sels| == selects
    ensures Quiet(tr[|steps|]) && Sleeper(tr[|steps|], 0, FIRST) && !CountInv(tr[|steps|])
  {
    hide Behaviour, CountOf, Crowd, Crowded, NoLap, RunCount, RunScan, BeginWalk;
    CrowdedSteps(selects);
    CrowdedRuns(selects, Scan(2, FIRST, 0));
    CrowdedRuns(selects, Scan(2, FIRST + 1, 0));
    CrowdedDeal(selects);
    tr, steps := GrowCrowd(selects, SELWAIT_RANGE);
    tr, steps := Extend(tr, steps, Run(0, false));
    tr, steps := Extend(tr, steps, Run(0, false));
    tr, steps := Extend(tr, steps, Run(0, false));
    tr, steps := Extend(tr, steps, Deal(0, FIRST, RcvPlus));
  }

  /** Both promises hold for exactly the select populations that the counter's width can hold. */
  lemma UnsignedByteIsTheLimit(selects: nat)
    ensures NeverSleeps(selects) <==> selects < SELWAIT_RANGE
    ensures AlwaysCounts(selects) <==> selects < SELWAIT_RANGE
  {
    if selects < SELWAIT_RANGE {
      forall tr: seq<State>, steps: seq<Step>, i | Behaviour(tr, steps) && |tr[0].sels| == selects && 0 <= i < |tr|
        ensures CountInv(tr[i]) && (Quiet(tr[i]) ==> forall t, fd :: !Sleeper(tr[i], t, fd))
      {
        InvAlways(tr, steps, i);
        NoLostWakeup(tr, steps, i);
      }
    } else {
      var tr, steps := CrowdSleeps(selects);
    }
  }

  // ---------------------------------------------------------------- data left over from a read

  /** Select `t` is asleep, and nobody has signalled it. */
  ghost predicate Asleep(st: State, t: nat) { t < |st.sels| && st.sels[t].pc.Wait? && st.sels[t].sem == 0 }

  /**
   * Readiness by `lastdata` is outside the promise: sal_selscan honours it, sal_deal_event does not.
   * When all is quiet, what the scan would mark for a sleeping select is exactly that.
   */
  lemma SleepsOnLeftoversOnly(tr: seq<State>, steps: seq<Step>, i: nat, t: nat, fd: nat)
    requires Behaviour(tr, steps) && |tr[0].sels| < SELWAIT_RANGE && i < |tr| && Quiet(tr[i])
    requires Asleep(tr[i], t) && fd < tr[i].sels[t].req.maxfdp1 && fd in tr[i].socks
    ensures var req, k := tr[i].sels[t].req, tr[i].socks[fd];
            Hits(req, fd, k) > 0 <==> fd in req.readset && k.lastdata
  {
    hide Behaviour, Quiet;
    NoLostWakeup(tr, steps, i);
    assert !Sleeper(tr[i], t, fd);
  }

  /**
   * And it does happen: a reader fetches a packet before it is counted, and keeps what it did not read
   * in `lastdata`; the two events cancel, so the select sleeps where a new one would return at once.
   */
  lemma LeftoverWakesNobody() returns (tr: seq<State>, steps: seq<Step>)
    ensures Behaviour(tr, steps) && |tr| == |steps| + 1
    ensures var st := tr[|steps|];
            && Quiet(st) && |st.sels| == 1 && Asleep(st, 0) && FIRST in st.socks
            && st.socks[FIRST].rcvevent == 0 && Hits(st.sels[0].req, FIRST, st.socks[FIRST]) > 0
  {
    hide Behaviour, Crowd, RunScan, RunCount, BeginWalk, ContinueWalk;
    tr, steps := GrowCrowd(1, 1);
    ReaderSteps();
    tr, steps := Extend(tr, steps, Run(0, false));
    tr, steps := Extend(tr, steps, Run(0, false));
    tr, steps := Extend(tr, steps, Run(0, false));
    assert tr[|steps|] == Reader(Wait, 0, false, Resting);
    tr, steps := ReaderFetches(tr, steps);
    tr, steps := Extend(tr, steps, Deal(0, FIRST, RcvPlus));
    tr, steps := Extend(tr, steps, Walk(0));
  }

  lemma ReaderFetches(tr: seq<State>, steps: seq<Step>) returns (tr': seq<State>, steps': seq<Step>)
    requires Behaviour(tr, steps) && |tr| == |steps| + 1 && tr[|steps|] == Reader(Wait, 0, false, Resting)
    ensures Behaviour(tr', steps') && |tr'| == |steps'| + 1 && tr'[|steps'|] == Reader(Wait, -1, true, Resting)
  {
    hide Behaviour, RunScan, RunCount, BeginWalk, ContinueWalk;
    ReaderSteps();
    tr', steps' := Extend(tr, steps, Deal(0, FIRST, RcvMinus));
    tr', steps' := Extend(tr', steps', Walk(0));
    tr', steps' := Extend(tr', steps', Leftover(FIRST, true));
  }

  /** One caller that has counted the first socket, and one notifier. */
  function Reader(pc: Pc, rcvevent: int, lastdata: bool, walker: Walker): State {
    State(map[FIRST := Sock(lastdata, rcvevent, 0, false, 1)], [Sel(pc, READ_FIRST, false, 0)], [walker], [0], 1)
  }

  lemma ReaderSteps()
    ensures Crowd(1, 1) == Reader(Count(FIRST + 1), 0, false, Resting)
    ensures RunCount(Reader(Count(FIRST + 1), 0, false, Resting), 0) == Reader(Scan(2, FIRST, 0), 0, false, Resting)
    ensures RunScan(Reader(Scan(2, FIRST, 0), 0, false, Resting), 0) == Reader(Scan(2, FIRST + 1, 0), 0, false, Resting)
    ensures RunScan(Reader(Scan(2, FIRST + 1, 0), 0, false, Resting), 0) == Reader(Wait, 0, false, Resting)
    ensures BeginWalk(Reader(Wait, 0, false, Resting), 0, FIRST, RcvMinus)
         == Reader(Wait, -1, false, Walking(FIRST, 0, 1))
    ensures ContinueWalk(Reader(Wait, -1, false, Walking(FIRST, 0, 1)), 0) == Reader(Wait, -1, false, Resting)
    ensures BeginWalk(Reader(Wait, -1, true, Resting), 0, FIRST, RcvPlus) == Reader(Wait, 0, true, Walking(FIRST, 0, 1))
    ensures ContinueWalk(Reader(Wait, 0, true, Walking(FIRST, 0, 1)), 0) == Reader(Wait, 0, true, Resting)
  {
    hide *;
    ReaderListed();
    ReaderCounts();
    ReaderScans();
    ReaderEvent(0, false, RcvMinus);
    ReaderEvent(-1, true, RcvPlus);
    ReaderWalks(-1, false);
    ReaderWalks(0, true);
  }

  lemma ReaderCounts()
    ensures RunCount(Reader(Count(FIRST + 1), 0, false, Resting), 0) == Reader(Scan(2, FIRST, 0), 0, false, Resting)
  {
  }

  lemma ReaderScans()
    ensures RunScan(Reader(Scan(2, FIRST, 0), 0, false, Resting), 0) == Reader(Scan(2, FIRST + 1, 0), 0, false, Resting)
    ensures RunScan(Reader(Scan(2, FIRST + 1, 0), 0, false, Resting), 0) == Reader(Wait, 0, false, Resting)
  {
  }

  /** The counter is not positive after either event, so the visit signals nobody. */
  lemma ReaderEvent(rcvevent: int, lastdata: bool, evt: Event)
    requires (rcvevent == 0 && evt == RcvMinus) || (rcvevent == -1 && evt == RcvPlus)
    ensures BeginWalk(Reader(Wait, rcvevent, lastdata, Resting), 0, FIRST, evt)
         == Reader(Wait, if evt == RcvPlus then 0 else -1, lastdata, Walking(FIRST, 0, 1))
  {
    hide Visit, Bump;
    var now := if evt == RcvPlus then 0 else -1;
    ReaderBump(rcvevent, lastdata, evt);
    ReaderVisit(now, lastdata);
    var st := Reader(Wait, rcvevent, lastdata, Resting);
    assert st.(socks := st.socks[FIRST := Bump(st.socks[FIRST], evt)]) == Reader(Wait, now, lastdata, Resting);
  }

  lemma ReaderBump(rcvevent: int, lastdata: bool, evt: Event)
    requires (rcvevent == 0 && evt == RcvMinus) || (rcvevent == -1 && evt == RcvPlus)
    ensures Bump(Sock(lastdata, rcvevent, 0, false, 1), evt)
         == Sock(lastdata, if evt == RcvPlus then 0 else -1, 0, false, 1)
  {
  }

  lemma ReaderVisit(rcvevent: int, lastdata: bool)
    requires rcvevent <= 0
    ensures Visit(Reader(Wait, rcvevent, lastdata, Resting), 0, FIRST, 0)
         == Reader(Wait, rcvevent, lastdata, Walking(FIRST, 0, 1))
  {
  }

  lemma ReaderListed()
    ensures Crowd(1, 1) == Reader(Count(FIRST + 1), 0, false, Resting)
  {
    assert Crowd(1, 1).order == [0];
  }

  lemma ReaderWalks(rcvevent: int, lastdata: bool)
    ensures ContinueWalk(Reader(Wait, rcvevent, lastdata, Walking(FIRST, 0, 1)), 0)
         == Reader(Wait, rcvevent, lastdata, Resting)
  {
    assert After([0 as nat], 0) == [];
  }

  // ---------------------------------------------------------------- connecting

  /** Select `t` is asleep and asked whether `fd` can be written. */
  ghost predicate AwaitsWrite(st: State, t: nat, fd: nat) {
    Asleep(st, t) && fd < st.sels[t].req.maxfdp1 && fd in st.sels[t].req.writeset
  }

  /**
   * salnetconn_connect writes `sendevent` without notifying. When all is quiet it leaves a select asleep
   * on a ready socket exactly if one asleep had asked to write to the socket being connected.
   */
  lemma ConnectLosesWriters(tr: seq<State>, steps: seq<Step>, i: nat, fd: nat)
    requires Behaviour(tr, steps) && |tr[0].sels| < SELWAIT_RANGE && i < |tr| && Quiet(tr[i]) && fd in tr[i].socks
    ensures (exists t, g :: Sleeper(Apply(tr[i], Connect(fd)), t, g)) <==> exists t :: AwaitsWrite(tr[i], t, fd)
  {
    hide Behaviour, Quiet;
    var st, st' := tr[i], Apply(tr[i], Connect(fd));
    NoLostWakeup(tr, steps, i);
    forall t, g | Sleeper(st', t, g) ensures AwaitsWrite(st, t, fd) {
      assert !Sleeper(st, t, g);
    }
    if t :| AwaitsWrite(st, t, fd) {
      assert Sleeper(st', t, fd);
    }
  }

  const WRITE_FIRST := Request(FIRST + 1, {}, {FIRST}, {}, Forever)

  /** One caller waiting to write to the first socket, listed or not, having counted it or not. */
  function Writer(pc: Pc, listed: bool, waiting: nat): State {
    State(map[FIRST := Sock(false, 0, 0, false, waiting)], [Sel(pc, WRITE_FIRST, false, 0)], [Resting],
          if listed then [0] else [], if listed then 1 else 0)
  }

  lemma WriterSteps()
    ensures RunScan(Writer(Scan(1, FIRST, 0), false, 0), 0) == Writer(Scan(1, FIRST + 1, 0), false, 0)
    ensures RunScan(Writer(Scan(1, FIRST + 1, 0), false, 0), 0) == Writer(Enlist, false, 0)
    ensures RunEnlist(Writer(Enlist, false, 0), 0) == Writer(Count(FIRST), true, 0)
    ensures RunCount(Writer(Count(FIRST), true, 0), 0) == Writer(Count(FIRST + 1), true, 1)
    ensures RunCount(Writer(Count(FIRST + 1), true, 1), 0) == Writer(Scan(2, FIRST, 0), true, 1)
    ensures RunScan(Writer(Scan(2, FIRST, 0), true, 1), 0) == Writer(Scan(2, FIRST + 1, 0), true, 1)
    ensures RunScan(Writer(Scan(2, FIRST + 1, 0), true, 1), 0) == Writer(Wait, true, 1)
  {
  }

  lemma WriterEnlists() returns (tr: seq<State>, steps: seq<Step>)
    ensures Behaviour(tr, steps) && |tr| == |steps| + 1 && tr[|steps|] == Writer(Count(FIRST), true, 0)
  {
    hide Behaviour, RunScan, RunEnlist, RunCount, RunUncount, RunWait, RunDelist, BeginWalk, ContinueWalk;
    WriterSteps();
    tr, steps := Start(Writer(Idle, false, 0));
    tr, steps := Extend(tr, steps, Call(0, WRITE_FIRST));
    assert tr[|steps|] == Writer(Scan(1, FIRST, 0), false, 0);
    tr, steps := Extend(tr, steps, Run(0, false));
    tr, steps := Extend(tr, steps, Run(0, false));
    tr, steps := Extend(tr, steps, Run(0, false));
  }

  /** And it does happen. */
  lemma ConnectWakesNobody() returns (tr: seq<State>, steps: seq<Step>)
    ensures Behaviour(tr, steps) && |tr| == |steps| + 1 && Enabled(tr[|steps|], Connect(FIRST))
    ensures var st := Apply(tr[|steps|], Connect(FIRST)); Quiet(st) && Sleeper(st, 0, FIRST)
  {
    hide Behaviour, RunScan, RunEnlist, RunCount, RunUncount, RunWait, RunDelist, BeginWalk, ContinueWalk;
    WriterSteps();
    tr, steps := WriterEnlists();
    tr, steps := Extend(tr, steps, Run(0, false));
    tr, steps := Extend(tr, steps, Run(0, false));
    tr, steps := Extend(tr, steps, Run(0, false));
    tr, steps := Extend(tr, steps, Run(0, false));
    assert tr[|steps|] == Writer(Wait, true, 1);
  }
}
