/** What sal_select returns, over all behaviours, against what happened between the call and the return. */
module SelectAnswers {
  import opened SelectProtocol
  import opened SelectSafety

  // ---------------------------------------------------------------- one scan

  /** How many marks a request gets in all: one for each set and each open socket that is ready for it. */
  ghost function TotalHits(socks: map<nat, Sock>, req: Request, i: nat): nat
    decreases if i < req.maxfdp1 then req.maxfdp1 - i else 0
  {
    if i >= req.maxfdp1 then 0
    else (if Watched(req, i) && i in socks then Hits(req, i, socks[i]) else 0) + TotalHits(socks, req, i + 1)
  }

  /** The fds from `i` on that end up in each of the three sets. */
  ghost function Readable(socks: map<nat, Sock>, req: Request, i: nat): set<nat> {
    set fd | fd in req.readset && i <= fd < req.maxfdp1 && fd in socks && (socks[fd].lastdata || socks[fd].rcvevent > 0)
  }

  ghost function Writable(socks: map<nat, Sock>, req: Request, i: nat): set<nat> {
    set fd | fd in req.writeset && i <= fd < req.maxfdp1 && fd in socks && socks[fd].sendevent != 0
  }

  ghost function Erring(socks: map<nat, Sock>, req: Request, i: nat): set<nat> {
    set fd | fd in req.exceptset && i <= fd < req.maxfdp1 && fd in socks && socks[fd].errevent
  }

  /** That is as many as the three sets that are handed back have members. */
  lemma {:induction false} TotalIsMembers(socks: map<nat, Sock>, req: Request, i: nat)
    ensures TotalHits(socks, req, i)
         == |Readable(socks, req, i)| + |Writable(socks, req, i)| + |Erring(socks, req, i)|
    decreases if i < req.maxfdp1 then req.maxfdp1 - i else 0
  {
    if i < req.maxfdp1 {
      TotalIsMembers(socks, req, i + 1);
      ReadableStep(socks, req, i);
      WritableStep(socks, req, i);
      ErringStep(socks, req, i);
    }
  }

  lemma ReadableStep(socks: map<nat, Sock>, req: Request, i: nat)
    requires i < req.maxfdp1
    ensures |Readable(socks, req, i)|
         == |Readable(socks, req, i + 1)| + if i in Readable(socks, req, i) then 1 else 0
  {
    var r := Readable(socks, req, i);
    assert r == Readable(socks, req, i + 1) + if i in r then {i} else {};
  }

  lemma WritableStep(socks: map<nat, Sock>, req: Request, i: nat)
    requires i < req.maxfdp1
    ensures |Writable(socks, req, i)|
         == |Writable(socks, req, i + 1)| + if i in Writable(socks, req, i) then 1 else 0
  {
    var w := Writable(socks, req, i);
    assert w == Writable(socks, req, i + 1) + if i in w then {i} else {};
  }

  lemma ErringStep(socks: map<nat, Sock>, req: Request, i: nat)
    requires i < req.maxfdp1
    ensures |Erring(socks, req, i)| == |Erring(socks, req, i + 1)| + if i in Erring(socks, req, i) then 1 else 0
  {
    var e := Erring(socks, req, i);
    assert e == Erring(socks, req, i + 1) + if i in e then {i} else {};
  }

  /** Select `t` runs its scan to the end with nobody in between. */
  ghost function Scanned(st: State, t: nat): (after: State)
    requires t < |st.sels| && st.sels[t].pc.Scan?
    ensures |after.sels| == |st.sels|
    decreases var sel := st.sels[t]; if sel.pc.i < sel.req.maxfdp1 then sel.req.maxfdp1 - sel.pc.i else 0
  {
    if st.sels[t].pc.i >= st.sels[t].req.maxfdp1 then RunScan(st, t) else Scanned(RunScan(st, t), t)
  }

  /** An undisturbed scan adds up the marks, and changes nothing but where its select is. */
  lemma {:induction false} ScanTotals(st: State, t: nat)
    requires t < |st.sels| && st.sels[t].pc.Scan? && 1 <= st.sels[t].pc.round <= 3
    ensures var sel := st.sels[t];
            var n := sel.pc.nready + TotalHits(st.socks, sel.req, sel.pc.i);
            && Scanned(st, t) == RunPc(st, t, Scanned(st, t).sels[t].pc)
            && Scanned(st, t).sels[t].pc
               == match sel.pc.round
                  case 1 => if n > 0 || sel.req.timeout.Poll? then Returned(n) else Enlist
                  case 2 => if n > 0 then Uncount(SOCKET_OFFSET, sel.req.maxfdp1, n, false) else Wait
                  case _ => Returned(n)
    decreases var sel := st.sels[t]; if sel.pc.i < sel.req.maxfdp1 then sel.req.maxfdp1 - sel.pc.i else 0
  {
    hide Hits;
    if st.sels[t].pc.i < st.sels[t].req.maxfdp1 {
      ScanTotals(RunScan(st, t), t);
    }
  }

  /**
   * An undisturbed call: it returns at once, with the number of marks, when there are any or it was
   * asked to poll; otherwise it goes on to the list.
   */
  lemma FirstScanDecides(st: State, t: nat, req: Request)
    requires Enabled(st, Call(t, req))
    ensures var n := TotalHits(st.socks, req, SOCKET_OFFSET);
            Scanned(Apply(st, Call(t, req)), t).sels[t].pc == if n > 0 || req.timeout.Poll? then Returned(n) else Enlist
  {
    ScanTotals(Apply(st, Call(t, req)), t);
  }

  /** An undisturbed scan after the wait returns the number of members of the sets it hands back. */
  lemma LastScanReturns(st: State, t: nat)
    requires t < |st.sels| && st.sels[t].pc == Scan(3, SOCKET_OFFSET, 0)
    ensures var req := st.sels[t].req;
            Scanned(st, t).sels[t].pc
            == Returned(|Readable(st.socks, req, SOCKET_OFFSET)| + |Writable(st.socks, req, SOCKET_OFFSET)|
                        + |Erring(st.socks, req, SOCKET_OFFSET)|)
  {
    ScanTotals(st, t);
    TotalIsMembers(st.socks, st.sels[t].req, SOCKET_OFFSET);
  }

  // ---------------------------------------------------------------- a whole call

  /**
   * What has happened to one select since its last call: whether it went on the list, whether its wait
   * ended by the timeout or the semaphore, and how many marks its last scan has found so far.
   */
  datatype Story = Story(enlisted: bool, expired: bool, woken: bool, marks: nat)

  ghost function Told(tr: seq<State>, steps: seq<Step>, t: nat, i: nat): Story
    requires |tr| == |steps| + 1 && i < |tr|
  {
    if i == 0 then Story(false, false, false, 0) else Retold(Told(tr, steps, t, i - 1), tr[i - 1], steps[i - 1], t)
  }

  ghost function Retold(story: Story, st: State, step: Step, t: nat): Story {
    if step.Call? && step.t == t then Story(false, false, false, 0)
    else if step.Run? && step.t == t < |st.sels| then
      match st.sels[t].pc
      case Scan(_, fd, _) => story.(marks := story.marks + Marks(st, st.sels[t].req, fd))
      case Enlist => story.(enlisted := true)
      case Wait => if step.expire then story.(expired := true) else story.(woken := true)
      case _ => story.(marks := 0)
    else story
  }

  /** What a scan marks when it looks at `fd`. */
  ghost function Marks(st: State, req: Request, fd: nat): nat {
    if fd < req.maxfdp1 && Watched(req, fd) && fd in st.socks then Hits(req, fd, st.socks[fd]) else 0
  }

  /** A set has an fd that is no open socket. */
  ghost predicate BadFd(st: State, req: Request) {
    exists fd :: SOCKET_OFFSET <= fd < req.maxfdp1 && Watched(req, fd) && fd !in st.socks
  }

  /** What the call may return. */
  ghost predicate Answers(st: State, req: Request, story: Story, r: int) {
    if !story.enlisted then r == story.marks && (r > 0 || req.timeout.Poll?)
    else if BadFd(st, req) then r == -1
    else if story.expired then r == 0
    else r == story.marks
  }

  /** Its semaphore has been signalled once if at all, and taken only once. */
  predicate SemCounts(sel: Sel, story: Story) {
    sel.pc.Idle? || sel.sem + (if story.woken then 1 else 0) == if sel.signalled then 1 else 0
  }

  /** What a select carries with it is what has happened. */
  ghost predicate Faithful(st: State, t: nat, story: Story)
    requires t < |st.sels|
  {
    var req, waits := st.sels[t].req, !story.expired && !story.woken;
    SemCounts(st.sels[t], story) &&
    match st.sels[t].pc
    case Idle => true
    case Scan(round, _, nready) =>
      && nready == story.marks && 1 <= round <= 3 && !story.expired
      && (if round == 1 then !story.enlisted else story.enlisted && !BadFd(st, req)) && (round < 3 ==> waits)
    case Enlist => waits
    case Count(i) => SOCKET_OFFSET <= i && story.enlisted && waits && OpenBelow(st, req, i)
    case Wait => story.enlisted && waits && !BadFd(st, req)
    case Uncount(i, limit, nready, timedOut) =>
      SOCKET_OFFSET <= i && Leaving(st, req, story, nready, timedOut) && OpenBelow(st, req, limit)
    case Delist(nready, timedOut) => Leaving(st, req, story, nready, timedOut)
    case Returned(r) =>
      Answers(st, req, story, r) && (story.woken ==> story.enlisted && !story.expired && !BadFd(st, req))
  }

  /** On the way off the list. */
  ghost predicate Leaving(st: State, req: Request, story: Story, nready: int, timedOut: bool) {
    && story.enlisted && timedOut == story.expired && !(story.expired && story.woken)
    && if nready < 0 then nready == -1 && BadFd(st, req) && !story.expired && !story.woken
       else !BadFd(st, req) && (timedOut ==> nready == 0)
  }

  /** A step of another task leaves a select where it is. */
  lemma OthersLeaveAlone(st: State, step: Step, t: nat)
    requires Enabled(st, step) && t < |st.sels| && !(step.Run? && step.t == t) && !(step.Call? && step.t == t)
    ensures var st' := Apply(st, step);
            && t < |st'.sels| && st'.sels[t].pc == st.sels[t].pc && st'.sels[t].req == st.sels[t].req
            && (st'.sels[t] == st.sels[t] ||
                  (!st.sels[t].signalled && st'.sels[t].signalled && st'.sels[t].sem == st.sels[t].sem + 1))
            && st'.socks.Keys == st.socks.Keys
  {
    hide Ready, Hits, Bump, RunScan, RunEnlist, RunCount, RunWait, RunUncount, RunDelist, BeginWalk, ContinueWalk;
    match step
    case Call(u, req) =>
    case Run(u, expire) => RunLeavesAlone(st, u, expire, t);
    case Deal(n, fd, evt) => WalkLeavesAlone(st, step, t);
    case Walk(n) => WalkLeavesAlone(st, step, t);
    case Leftover(fd, lastdata) =>
    case Connect(fd) =>
  }

  lemma RunLeavesAlone(st: State, u: nat, expire: bool, t: nat)
    requires Enabled(st, Run(u, expire)) && t < |st.sels| && t != u
    ensures var st' := Apply(st, Run(u, expire));
            t < |st'.sels| && st'.sels[t] == st.sels[t] && st'.socks.Keys == st.socks.Keys
  {
    hide Ready, Hits, Watched, Bump;
  }

  lemma WalkLeavesAlone(st: State, step: Step, t: nat)
    requires Enabled(st, step) && (step.Deal? || step.Walk?) && t < |st.sels|
    ensures var st' := Apply(st, step);
            && t < |st'.sels| && st'.sels[t].pc == st.sels[t].pc && st'.sels[t].req == st.sels[t].req
            && (st'.sels[t] == st.sels[t] ||
                  (!st.sels[t].signalled && st'.sels[t].signalled && st'.sels[t].sem == st.sels[t].sem + 1))
            && st'.socks.Keys == st.socks.Keys
  {
    hide Ready, Hits, Bump;
    if step.Deal? {
      assert st.order != [] ==> st.order[0] in st.order;
    } else {
      var next := Onward(st, st.walks[step.n]);
      assert next != [] ==> next[0] in next;
    }
  }

  lemma RunFaithful(st: State, t: nat, expire: bool, story: Story)
    requires Enabled(st, Run(t, expire)) && Faithful(st, t, story)
    ensures var st' := Apply(st, Run(t, expire));
            && t < |st'.sels| && st'.socks.Keys == st.socks.Keys
            && Faithful(st', t, Retold(story, st, Run(t, expire), t))
  {
    hide Hits, Faithful, Retold, RunScan, RunEnlist, RunCount, RunWait, RunUncount, RunDelist;
    if st.sels[t].pc.Scan? {
      ScanFaithful(st, t, expire, story);
    } else if st.sels[t].pc.Count? {
      CountFaithful(st, t, expire, story);
    } else {
      LeavingFaithful(st, t, expire, story);
    }
  }

  lemma ScanFaithful(st: State, t: nat, expire: bool, story: Story)
    requires t < |st.sels| && st.sels[t].pc.Scan? && Faithful(st, t, story)
    ensures var st' := RunScan(st, t);
            && t < |st'.sels| && st'.socks == st.socks
            && Faithful(st', t, Retold(story, st, Run(t, expire), t))
  {
    hide Hits;
    SameOpen(st, RunScan(st, t), st.sels[t].req);
  }

  lemma CountFaithful(st: State, t: nat, expire: bool, story: Story)
    requires t < |st.sels| && st.sels[t].pc.Count? && Faithful(st, t, story)
    ensures var st' := RunCount(st, t);
            && t < |st'.sels| && st'.socks.Keys == st.socks.Keys
            && Faithful(st', t, Retold(story, st, Run(t, expire), t))
  {
    hide Hits;
    SameOpen(st, RunCount(st, t), st.sels[t].req);
  }

  lemma LeavingFaithful(st: State, t: nat, expire: bool, story: Story)
    requires Enabled(st, Run(t, expire)) && !st.sels[t].pc.Scan? && !st.sels[t].pc.Count? && Faithful(st, t, story)
    ensures var st' := Apply(st, Run(t, expire));
            && t < |st'.sels| && st'.socks.Keys == st.socks.Keys
            && Faithful(st', t, Retold(story, st, Run(t, expire), t))
  {
    hide Hits, RunScan, RunCount;
    SameOpen(st, Apply(st, Run(t, expire)), st.sels[t].req);
  }

  lemma SameOpen(st: State, st': State, req: Request)
    ensures st'.socks.Keys == st.socks.Keys ==> BadFd(st', req) == BadFd(st, req)
    ensures forall limit {:trigger OpenBelow(st', req, limit)} :: st'.socks.Keys == st.socks.Keys ==>
              OpenBelow(st', req, limit) == OpenBelow(st, req, limit)
    ensures OpenBelow(st, req, req.maxfdp1) <==> !BadFd(st, req)
  {
    if st'.socks.Keys == st.socks.Keys {
      assert forall fd :: fd in st'.socks <==> fd in st.socks;
    }
  }

  lemma StepFaithful(st: State, step: Step, t: nat, story: Story)
    requires Enabled(st, step) && t < |st.sels| && Faithful(st, t, story)
    ensures var st' := Apply(st, step); t < |st'.sels| && Faithful(st', t, Retold(story, st, step, t))
  {
    hide Hits, Marks;
    if step.Run? && step.t == t {
      RunFaithful(st, t, step.expire, story);
    } else if !(step.Call? && step.t == t) {
      hide Apply;
      OthersLeaveAlone(st, step, t);
      SameOpen(st, Apply(st, step), st.sels[t].req);
    }
  }

  lemma {:induction false} AlwaysFaithful(tr: seq<State>, steps: seq<Step>, t: nat, i: nat)
    requires Behaviour(tr, steps) && t < |tr[0].sels| && i < |tr|
    ensures t < |tr[i].sels| && Faithful(tr[i], t, Told(tr, steps, t, i))
  {
    hide Faithful, Retold, Apply;
    if i == 0 {
      StartsFaithful(tr[0], t);
    } else {
      AlwaysFaithful(tr, steps, t, i - 1);
      StepFaithful(tr[i - 1], steps[i - 1], t, Told(tr, steps, t, i - 1));
    }
  }

  lemma StartsFaithful(st: State, t: nat)
    requires Init(st) && t < |st.sels|
    ensures Faithful(st, t, Story(false, false, false, 0))
  {
  }

  /**
   * In every behaviour, a call that returns without having been on the list returns what its scan marked;
   * one that was on it returns -1 exactly if a set has an fd that is no open socket, else 0 if its wait
   * timed out, else what its last scan marked.  So it is for one that took its semaphore, which is then
   * back at 0.
   */
  lemma SelectAnswer(tr: seq<State>, steps: seq<Step>, t: nat, i: nat)
    requires Behaviour(tr, steps) && t < |tr[0].sels| && i < |tr|
    ensures t < |tr[i].sels|
    ensures tr[i].sels[t].pc.Returned? ==>
              var story, r := Told(tr, steps, t, i), tr[i].sels[t].pc.result;
              && Answers(tr[i], tr[i].sels[t].req, story, r)
              && (story.woken ==> r == story.marks && tr[i].sels[t].sem == 0 && tr[i].sels[t].signalled)
  {
    AlwaysFaithful(tr, steps, t, i);
  }

  // ---------------------------------------------------------------- how long a call takes

  /** How many more of its own steps a select needs, those on its semaphore included. */
  ghost function Left(sel: Sel): nat {
    var round := sel.req.maxfdp1 + 2;
    match sel.pc
    case Idle => 0
    case Scan(1, i, _) => 7 * round + ToGo(i, sel.req.maxfdp1)
    case Enlist => 6 * round
    case Count(i) => 5 * round + ToGo(i, sel.req.maxfdp1)
    case Scan(2, i, _) => 4 * round + ToGo(i, sel.req.maxfdp1)
    case Wait => 3 * round
    case Uncount(i, limit, _, _) => 2 * round + ToGo(i, limit)
    case Delist(_, _) => round
    case Scan(_, i, _) => ToGo(i, sel.req.maxfdp1)
    case Returned(_) => 0
  }

  ghost function ToGo(i: nat, limit: nat): nat { if i < limit then limit - i + 1 else 1 }

  /** Every step of its own brings a call nearer its return. */
  lemma RunShrinks(st: State, t: nat, expire: bool)
    requires Enabled(st, Run(t, expire))
    ensures t < |Apply(st, Run(t, expire)).sels| && Left(Apply(st, Run(t, expire)).sels[t]) < Left(st.sels[t])
  {
    hide Left, RunScan, RunCount, RunUncount, RunEnlist, RunWait, RunDelist;
    match st.sels[t].pc
    case Scan(_, _, _) => ScanShrinks(st, t);
    case Enlist => OthersShrink(st, t, expire);
    case Count(_) => CountShrinks(st, t);
    case Wait => OthersShrink(st, t, expire);
    case Uncount(_, _, _, _) => UncountShrinks(st, t);
    case Delist(_, _) => OthersShrink(st, t, expire);
  }

  lemma ScanShrinks(st: State, t: nat)
    requires t < |st.sels| && st.sels[t].pc.Scan?
    ensures t < |RunScan(st, t).sels| && Left(RunScan(st, t).sels[t]) < Left(st.sels[t])
  {
    hide Hits, Watched;
  }

  lemma CountShrinks(st: State, t: nat)
    requires t < |st.sels| && st.sels[t].pc.Count?
    ensures t < |RunCount(st, t).sels| && Left(RunCount(st, t).sels[t]) < Left(st.sels[t])
  {
    hide Watched;
  }

  lemma UncountShrinks(st: State, t: nat)
    requires t < |st.sels| && st.sels[t].pc.Uncount?
    ensures t < |RunUncount(st, t).sels| && Left(RunUncount(st, t).sels[t]) < Left(st.sels[t])
  {
    hide Watched;
  }

  lemma OthersShrink(st: State, t: nat, expire: bool)
    requires Enabled(st, Run(t, expire)) && (st.sels[t].pc.Enlist? || st.sels[t].pc.Wait? || st.sels[t].pc.Delist?)
    ensures var st' := Apply(st, Run(t, expire)); t < |st'.sels| && Left(st'.sels[t]) < Left(st.sels[t])
  {
    hide RunScan, RunCount, RunUncount;
  }

  ghost function OwnSteps(steps: seq<Step>, t: nat, i: nat, j: nat): nat
    requires i <= j <= |steps|
  {
    if i == j then 0 else OwnSteps(steps, t, i, j - 1) + if steps[j - 1].Run? && steps[j - 1].t == t then 1 else 0
  }

  lemma OneStepOfCall(st: State, step: Step, t: nat)
    requires Enabled(st, step) && t < |st.sels| && !(step.Call? && step.t == t)
    ensures t < |Apply(st, step).sels|
    ensures Left(Apply(st, step).sels[t]) + (if step.Run? && step.t == t then 1 else 0) <= Left(st.sels[t])
  {
    hide Left, Apply;
    if step.Run? && step.t == t {
      RunShrinks(st, t, step.expire);
    } else {
      OthersLeaveAlone(st, step, t);
      SameLeft(st.sels[t], Apply(st, step).sels[t]);
    }
  }

  lemma SameLeft(a: Sel, b: Sel)
    requires a.pc == b.pc && a.req == b.req
    ensures Left(a) == Left(b)
  {
  }

  /** A call takes a bounded number of steps of its own, whatever the other tasks do. */
  lemma {:induction false} CallFinishes(tr: seq<State>, steps: seq<Step>, t: nat, i: nat, j: nat)
    requires Behaviour(tr, steps) && i <= j < |tr| && t < |tr[i].sels|
    requires forall k :: i <= k < j ==> !(steps[k].Call? && steps[k].t == t)
    ensures t < |tr[j].sels| && OwnSteps(steps, t, i, j) + Left(tr[j].sels[t]) <= Left(tr[i].sels[t])
  {
    hide Left, Apply, Enabled;
    if i < j {
      CallFinishes(tr, steps, t, i, j - 1);
      OneStepOfCall(tr[j - 1], steps[j - 1], t);
    }
  }

  /** At most eight rounds of its fds. */
  lemma LeftBound(st: State, t: nat, req: Request)
    requires Enabled(st, Call(t, req))
    ensures Left(Apply(st, Call(t, req)).sels[t]) <= 8 * (req.maxfdp1 + 2)
  {
  }

  // ---------------------------------------------------------------- what the counters count

  ghost function Bumped(k: Sock, evts: seq<Event>): Sock {
    if evts == [] then k else Bump(Bumped(k, evts[..|evts| - 1]), evts[|evts| - 1])
  }

  /** What the counters are after any run of events: the int16_t and the uint16_t keep what their width can. */
  lemma {:induction false} BumpsCount(k: Sock, evts: seq<Event>)
    requires -0x8000 <= k.rcvevent < 0x8000 && k.sendevent < 0x1_0000
    ensures var n, k' := multiset(evts), Bumped(k, evts);
            && -0x8000 <= k'.rcvevent < 0x8000 && k'.sendevent < 0x1_0000
            && Same16(k'.rcvevent, k.rcvevent + n[RcvPlus] - n[RcvMinus])
            && Same16(k'.sendevent, k.sendevent + n[SendPlus] - n[SendMinus])
            && (k'.errevent <==> k.errevent || Error in evts)
            && k'.lastdata == k.lastdata && k'.waiting == k.waiting
  {
    hide Bump, Bumped, Same16, Delta, WrapI16;
    if evts == [] {
      BumpedNone(k);
    } else {
      var init, evt := evts[..|evts| - 1], evts[|evts| - 1];
      assert evts == init + [evt];
      BumpsCount(k, init);
      BumpedSnoc(k, init, evt);
      var k0, n := Bumped(k, init), multiset(init);
      CountSnoc(init, evt);
      BumpTracks(k0, evt, k.rcvevent + n[RcvPlus] - n[RcvMinus], k.sendevent + n[SendPlus] - n[SendMinus]);
    }
  }

  lemma BumpTracks(k: Sock, evt: Event, r: int, s: int)
    requires -0x8000 <= k.rcvevent < 0x8000 && k.sendevent < 0x1_0000
    requires Same16(k.rcvevent, r) && Same16(k.sendevent, s)
    ensures var k' := Bump(k, evt);
            && -0x8000 <= k'.rcvevent < 0x8000 && k'.sendevent < 0x1_0000
            && Same16(k'.rcvevent, r + Delta(evt, RcvPlus, RcvMinus))
            && Same16(k'.sendevent, s + Delta(evt, SendPlus, SendMinus))
            && (k'.errevent <==> k.errevent || evt == Error)
            && k'.lastdata == k.lastdata && k'.waiting == k.waiting
  {
    hide Bump, Same16, Delta;
    BumpOne(k, evt);
    Same16Step(Bump(k, evt).rcvevent, k.rcvevent, Delta(evt, RcvPlus, RcvMinus), r);
    Same16Step(Bump(k, evt).sendevent, k.sendevent, Delta(evt, SendPlus, SendMinus), s);
  }

  lemma BumpedNone(k: Sock)
    ensures Bumped(k, []) == k && Same16(k.rcvevent, k.rcvevent) && Same16(k.sendevent, k.sendevent)
  {
  }

  /** The same in 16 bits. */
  predicate Same16(x: int, y: int) { (x - y) % 0x1_0000 == 0 }

  lemma Same16Step(x': int, x: int, d: int, y: int)
    requires Same16(x', x + d) && Same16(x, y)
    ensures Same16(x', y + d)
  {
  }

  ghost function Delta(evt: Event, plus: Event, minus: Event): int {
    if evt == plus then 1 else if evt == minus then -1 else 0
  }

  lemma BumpedSnoc(k: Sock, evts: seq<Event>, evt: Event)
    ensures Bumped(k, evts + [evt]) == Bump(Bumped(k, evts), evt)
  {
    assert (evts + [evt])[..|evts|] == evts;
  }

  lemma CountSnoc(evts: seq<Event>, evt: Event)
    ensures var n, n' := multiset(evts), multiset(evts + [evt]);
            && n'[RcvPlus] + n[RcvMinus] == n[RcvPlus] + n'[RcvMinus] + Delta(evt, RcvPlus, RcvMinus)
            && n'[SendPlus] + n[SendMinus] == n[SendPlus] + n'[SendMinus] + Delta(evt, SendPlus, SendMinus)
    ensures Error in evts + [evt] <==> Error in evts || evt == Error
  {
  }

  lemma BumpOne(k: Sock, evt: Event)
    requires -0x8000 <= k.rcvevent < 0x8000 && k.sendevent < 0x1_0000
    ensures var k' := Bump(k, evt);
            && -0x8000 <= k'.rcvevent < 0x8000 && k'.sendevent < 0x1_0000
            && Same16(k'.rcvevent, k.rcvevent + Delta(evt, RcvPlus, RcvMinus))
            && Same16(k'.sendevent, k.sendevent + Delta(evt, SendPlus, SendMinus))
            && (k'.errevent <==> k.errevent || evt == Error)
            && k'.lastdata == k.lastdata && k'.waiting == k.waiting
  {
    hide WrapI16;
  }

  // ---------------------------------------------------------------- who is signalled

  /** A semaphore goes up only for a listed select, not signalled before, with a socket that is ready for it. */
  lemma SignalledWhenDue(st: State, step: Step, t: nat)
    requires Enabled(st, step) && t < |st.sels|
    ensures t < |Apply(st, step).sels|
    ensures var st' := Apply(st, step);
            st'.sels[t].sem > st.sels[t].sem ==>
              && t in st.order && !st.sels[t].signalled && st'.sels[t].signalled
              && exists fd :: fd in st'.socks && Ready(st.sels[t].req, fd, st'.socks[fd])
  {
    hide Ready, Hits, Bump;
    match step
    case Call(u, req) =>
    case Run(u, expire) =>
    case Deal(n, fd, evt) => assert st.order != [] ==> st.order[0] in st.order;
    case Walk(n) =>
      var next := Onward(st, st.walks[n]);
      assert next != [] ==> next[0] in next;
    case Leftover(fd, lastdata) =>
    case Connect(fd) =>
  }
}
