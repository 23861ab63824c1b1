/** The gateway service (framework/gateway/gateway_service.c): flags driven by messages and timers, and the clients. */
module Gateway {
  import opened Common
  import opened EventLoop
  import opened Ageing

  const ADV_INTERVAL: nat := 5 * 1000

  datatype Sent = Advertisement | ConnectTo(addr: int, login: bool) | ConnAck(addr: int, ok: bool) | Report(addr: int)

  // ---------------------------------------------------------------- what a node has heard

  /** The messages a node acts on: an advertisement, or a CONNACK that reports success. */
  datatype Heard = Adv(addr: int) | Ack(src: int)

  /** The gateway's address: the last one advertised. */
  ghost function LastAdv(heard: seq<Heard>): int {
    if heard == [] then 0 else
    var m := heard[|heard| - 1];
    if m.Adv? then m.addr else LastAdv(heard[..|heard| - 1])
  }

  /** A CONNACK has come since the address last changed. */
  ghost function Answered(heard: seq<Heard>): bool {
    if heard == [] then false else
    var m, before := heard[|heard| - 1], heard[..|heard| - 1];
    m.Ack? || (m.addr == LastAdv(before) && Answered(before))
  }

  /** Who sent the last CONNACK. */
  ghost function LastAck(heard: seq<Heard>): Option<int> {
    if heard == [] then None else
    var m := heard[|heard| - 1];
    if m.Ack? then Some(m.src) else LastAck(heard[..|heard| - 1])
  }

  /** The last CONNACK came from what was the gateway's address when it came. */
  ghost function LastAckFits(heard: seq<Heard>): bool {
    if heard == [] then false else
    var m, before := heard[|heard| - 1], heard[..|heard| - 1];
    if m.Ack? then m.src == LastAdv(before) else LastAckFits(before)
  }

  lemma HeardSnoc(heard: seq<Heard>, m: Heard)
    ensures LastAdv(heard + [m]) == if m.Adv? then m.addr else LastAdv(heard)
    ensures Answered(heard + [m]) == (m.Ack? || (m.addr == LastAdv(heard) && Answered(heard)))
    ensures LastAck(heard + [m]) == if m.Ack? then Some(m.src) else LastAck(heard)
    ensures LastAckFits(heard + [m]) == if m.Ack? then m.src == LastAdv(heard) else LastAckFits(heard)
  {
    assert (heard + [m])[..|heard|] == heard;
  }

  /** While an answer stands, it is the gateway's exactly if it came from the gateway's address of its time. */
  lemma {:induction false} AnswerIsGateways(heard: seq<Heard>)
    requires Answered(heard)
    ensures LastAck(heard) == Some(LastAdv(heard)) <==> LastAckFits(heard)
  {
    if heard[|heard| - 1].Adv? {
      AnswerIsGateways(heard[..|heard| - 1]);
    }
  }

  class Service {
    const loop: Loop
    var gatewayMode: bool
    var yunio: bool
    var mesh: bool
    var connected: bool
    var reconnect: bool
    var login: bool
    var gwAddr: int
    var clients: seq<Client>
    var sent: seq<Sent>
    var trace: seq<Event>
    ghost var heard: seq<Heard>

    /** How long a connection can outlive its gateway. */
    ghost predicate TimersRight()
      reads this`connected, this`reconnect, loop
    {
      && Sorted(loop.timers)
      && Count(loop.timers, SetReconnect) <= 1 && Count(loop.timers, Advertise) <= 1
      && (connected && !reconnect ==>
            && Pending(loop.timers, ClearConnected, loop.now + 5 * ADV_INTERVAL)
            && Pending(loop.timers, SetReconnect, loop.now + 15 * ADV_INTERVAL))
    }

    /** A connected node has been answered since its gateway's address last changed. */
    ghost predicate HeardRight()
      reads this`connected, this`gwAddr, this`heard
    {
      gwAddr == LastAdv(heard) && (connected ==> Answered(heard))
    }

    ghost predicate ClientsRight()
      reads this`clients, this`trace
    {
      Distinct(clients) && AllInStep(clients, trace)
    }

    ghost predicate Valid()
      reads this, loop
    {
      TimersRight() && HeardRight() && ClientsRight()
    }

    constructor ()
      ensures Valid() && fresh(loop) && loop.now == 0 && loop.timers == []
      ensures !gatewayMode && !yunio && !mesh && !connected && !reconnect && !login && clients == [] && trace == []
      ensures heard == []
    {
      loop := new Loop();
      gatewayMode, yunio, mesh, connected, reconnect, login := false, false, false, false, false, false;
      gwAddr, clients, sent, trace, heard := 0, [], [], [], [];
    }

    // ---------------------------------------------------------------- timers

    method Post(ms: nat, a: Action)
      requires Sorted(loop.timers)
      modifies loop`timers
      ensures loop.timers == Inserted(old(loop.timers), Timer(loop.now + ms, a)) && Sorted(loop.timers)
      ensures forall b :: Count(loop.timers, b) == Count(old(loop.timers), b) + if a == b then 1 else 0
      ensures forall b, limit :: Pending(loop.timers, b, limit) <==>
                Pending(old(loop.timers), b, limit) || (a == b && loop.now + ms <= limit)
      ensures forall until :: Work(loop.timers, until)
                == Work(old(loop.timers), until) + if loop.now + ms <= until then until + 1 - loop.now - ms else 0
    {
      hide Sorted, Inserted, Count, Pending, Work;
      var t := Timer(loop.now + ms, a);
      forall b ensures Count(Inserted(loop.timers, t), b) == Count(loop.timers, b) + if a == b then 1 else 0 {
        InsertedCounts(loop.timers, t, b);
      }
      forall b, limit ensures Pending(Inserted(loop.timers, t), b, limit) <==>
                              Pending(loop.timers, b, limit) || (a == b && t.due <= limit) {
        InsertedPends(loop.timers, t, b, limit);
      }
      forall until ensures Work(Inserted(loop.timers, t), until)
                        == Work(loop.timers, until) + if t.due <= until then until + 1 - t.due else 0 {
        InsertedWorks(loop.timers, t, until);
      }
      loop.Post(ms, a);
    }

    method Cancel(a: Action)
      requires Sorted(loop.timers)
      modifies loop`timers
      ensures loop.timers == Cancelled(old(loop.timers), a) && Sorted(loop.timers)
      ensures forall b :: Count(loop.timers, b)
                == if a == b && Count(old(loop.timers), b) > 0 then Count(old(loop.timers), b) - 1
                   else Count(old(loop.timers), b)
      ensures forall b, limit :: a != b ==> (Pending(loop.timers, b, limit) <==> Pending(old(loop.timers), b, limit))
    {
      hide Sorted, Cancelled, Count, Pending;
      forall b ensures Count(Cancelled(loop.timers, a), b)
                == if a == b && Count(loop.timers, b) > 0 then Count(loop.timers, b) - 1 else Count(loop.timers, b) {
        CancelledCounts(loop.timers, a, b);
      }
      forall b, limit | a != b
        ensures Pending(Cancelled(loop.timers, a), b, limit) <==> Pending(loop.timers, b, limit)
      {
        CancelledPends(loop.timers, a, b, limit);
      }
      loop.Cancel(a);
    }

    // ---------------------------------------------------------------- a node

    /** handle_adv: an advertisement of the gateway at `addr`. */
    method HandleAdv(addr: int)
      requires Valid()
      modifies this`connected, this`gwAddr, this`sent, this`heard, loop`timers
      ensures Valid()
      ensures gatewayMode ==> connected == old(connected) && gwAddr == old(gwAddr) && sent == old(sent)
                              && heard == old(heard) && loop.timers == old(loop.timers)
      ensures !gatewayMode ==>
                && gwAddr == addr && connected == (old(connected) && old(gwAddr) == addr)
                && heard == old(heard) + [Adv(addr)]
                && if connected && !reconnect then
                     && sent == old(sent)
                     && loop.timers == Inserted(Cancelled(old(loop.timers), ClearConnected),
                                                Timer(loop.now + 5 * ADV_INTERVAL, ClearConnected))
                   else
                     && sent == old(sent) + [ConnectTo(addr, login)]
                     && loop.timers == Cancelled(old(loop.timers), ClearConnected)
    {
      hide Sorted, Inserted, Cancelled, Count, Pending, Work, ClientsRight, LastAdv, Answered, LastAck, LastAckFits;
      if gatewayMode {
        return;
      }
      HeardSnoc(heard, Adv(addr));
      heard := heard + [Adv(addr)];
      if connected && gwAddr == addr && !reconnect {
        Cancel(ClearConnected);
        Post(5 * ADV_INTERVAL, ClearConnected);
        return;
      }
      if gwAddr != addr {
        connected := false;
      }
      Cancel(ClearConnected);
      gwAddr := addr;
      sent := sent + [ConnectTo(gwAddr, login)];
    }

    /** handle_connack: `src` has answered; `spread` is rand() & 7. */
    method HandleConnack(src: int, ok: bool, spread: nat)
      requires Valid() && spread < 8
      modifies this`connected, this`reconnect, this`heard, loop`timers
      ensures Valid()
      ensures gatewayMode || !ok ==> connected == old(connected) && reconnect == old(reconnect)
                                     && heard == old(heard) && loop.timers == old(loop.timers)
      ensures !gatewayMode && ok ==>
                && connected && !reconnect && heard == old(heard) + [Ack(src)]
                && (LastAck(heard) == Some(gwAddr) <==> src == gwAddr)
                && loop.timers == Inserted(Cancelled(Inserted(old(loop.timers),
                                                              Timer(loop.now + 5 * ADV_INTERVAL, ClearConnected)),
                                                     SetReconnect),
                                           Timer(loop.now + (8 + spread) * ADV_INTERVAL, SetReconnect))
    {
      hide Sorted, Inserted, Cancelled, Count, Pending, Work, ClientsRight, LastAdv, Answered, LastAck, LastAckFits;
      if gatewayMode || !ok {
        return;
      }
      connected := true;
      HeardSnoc(heard, Ack(src));
      heard := heard + [Ack(src)];
      Post(5 * ADV_INTERVAL, ClearConnected);
      reconnect := false;
      Cancel(SetReconnect);
      Post((8 + spread) * ADV_INTERVAL, SetReconnect);
    }

    /** In every state a connected node's last answer is its gateway's exactly if it fitted when it came. */
    lemma ConnectedToGateway()
      requires Valid() && connected
      ensures LastAck(heard) == Some(gwAddr) <==> LastAckFits(heard)
    {
      AnswerIsGateways(heard);
    }

    /** gateway_cloud_report: 0 or -1, and whether anything is sent. */
    method CloudReport() returns (ret: int)
      requires Valid()
      modifies this`sent
      ensures Valid()
      ensures sent == if !yunio && connected then old(sent) + [Report(gwAddr)] else old(sent)
      ensures ret == if yunio || connected then 0 else -1
      ensures sent != old(sent) ==>
                Answered(heard) && (reconnect || Pending(loop.timers, ClearConnected, loop.now + 5 * ADV_INTERVAL))
    {
      if yunio {
        return 0;
      }
      if !connected {
        return -1;
      }
      sent := sent + [Report(gwAddr)];
      ret := 0;
    }

    /** The worker has seen the socket change under it (line 761). */
    method SocketReplaced()
      requires Valid()
      modifies this`connected
      ensures Valid() && !connected
    {
      connected := false;
    }

    // ---------------------------------------------------------------- the gateway

    /** The client with a given IEEE address, or the length of the list. */
    static function Seek(cs: seq<Client>, ieee: int): nat {
      if cs == [] || cs[0].ieee == ieee then 0 else 1 + Seek(cs[1..], ieee)
    }

    static lemma {:induction false} SeekFinds(cs: seq<Client>, ieee: int)
      ensures var i := Seek(cs, ieee); i <= |cs| && (i < |cs| ==> cs[i].ieee == ieee)
      ensures forall j {:trigger cs[j]} :: 0 <= j < Seek(cs, ieee) ==> cs[j].ieee != ieee
    {
      if cs != [] && cs[0].ieee != ieee {
        SeekFinds(cs[1..], ieee);
        assert forall j {:trigger cs[j]} :: 0 < j < |cs| ==> cs[j] == cs[1..][j - 1];
      }
    }

    method Find(ieee: int) returns (i: nat)
      ensures i == Seek(clients, ieee)
    {
      SeekFinds(clients, ieee);
      i := 0;
      while i < |clients| && clients[i].ieee != ieee
        invariant 0 <= i <= Seek(clients, ieee)
      {
        i := i + 1;
      }
    }

    /** The client list after a CONNECT from `src`, unless the device may not join. */
    static function Admitted(cs: seq<Client>, ieee: int, joined: Option<string>, src: int): Option<seq<Client>> {
      var i := Seek(cs, ieee);
      if i < |cs| then Some(cs[i := cs[i].(timeout := 0, addr := src)])
      else if joined.Some? then Some(cs + [Client(ieee, joined.value, src, 0)])
      else None
    }

    /** new_client, `joined` being the UUID the device manager knows the device by, if it lets it join. */
    method NewClient(ieee: int, logsIn: bool, joined: Option<string>) returns (i: nat)
      requires ClientsRight()
      modifies this`clients, this`trace
      ensures ClientsRight()
      ensures i == Seek(old(clients), ieee) <= |clients|
      ensures if i == |clients| then joined.None? && clients == old(clients) && trace == old(trace)
              else
                && trace == old(trace) + [Connected(ieee, logsIn)]
                && if i < |old(clients)| then clients == old(clients)[i := old(clients)[i].(timeout := 0)]
                   else joined.Some? && clients == old(clients) + [Client(ieee, joined.value, 0, 0)]
    {
      hide InStep;
      i := Find(ieee);
      SeekFinds(clients, ieee);
      ghost var was := clients;
      if i == |clients| {
        if joined.None? {
          return;
        }
        clients := clients + [Client(ieee, joined.value, 0, 0)];
      } else {
        clients := clients[i := clients[i].(timeout := 0)];
      }
      Accepted(was, clients, i, trace, logsIn);
      trace := trace + [Connected(ieee, logsIn)];
    }

    static lemma Accepted(was: seq<Client>, cs: seq<Client>, i: nat, trace: seq<Event>, logsIn: bool)
      requires AllInStep(was, trace) && i < |cs| && cs[i].timeout == 0
      requires forall j {:trigger cs[j]} :: 0 <= j < |cs| && j != i ==> j < |was| && cs[j] == was[j]
      requires Distinct(cs)
      ensures AllInStep(cs, trace + [Connected(cs[i].ieee, logsIn)])
    {
      hide InStep;
      var e := Connected(cs[i].ieee, logsIn);
      forall j | 0 <= j < |cs| ensures InStep(cs[j], trace + [e]) {
        if j == i {
          FreshInStep(cs[i], trace, logsIn);
        } else {
          var c := cs[j];
          assert c == was[j] && InStep(was[j], trace);
          OthersKept(c, trace, e);
        }
      }
    }

    /** handle_connect from the address `src`. */
    method HandleConnect(src: int, ieee: int, logsIn: bool, joined: Option<string>)
      requires Valid()
      modifies this`clients, this`trace, this`sent
      ensures Valid()
      ensures !gatewayMode ==> clients == old(clients) && trace == old(trace) && sent == old(sent)
      ensures gatewayMode ==>
                var now := if yunio then Admitted(old(clients), ieee, joined, src) else None;
                && sent == old(sent) + [ConnAck(src, now.Some?)]
                && clients == (if now.Some? then now.value else old(clients))
                && trace == old(trace) + if now.Some? then [Connected(ieee, logsIn)] else []
    {
      hide TimersRight, AllInStep, Distinct, Seek;
      if !gatewayMode {
        return;
      }
      if yunio {
        var i := NewClient(ieee, logsIn, joined);
        if i < |clients| {
          SetAddr(i, src);
        }
        sent := sent + [ConnAck(src, i < |clients|)];
      } else {
        sent := sent + [ConnAck(src, false)];
      }
    }

    method SetAddr(i: nat, addr: int)
      requires ClientsRight() && i < |clients|
      modifies this`clients
      ensures ClientsRight() && clients == old(clients)[i := old(clients)[i].(addr := addr)]
    {
      hide Silence, Logouts;
      assert InStep(clients[i], trace);
      clients := clients[i := clients[i].(addr := addr)];
    }

    /** Lines 713-729: one ageing pass. */
    method Age()
      requires ClientsRight()
      modifies this`clients, this`trace
      ensures ClientsRight() && |clients| == |old(clients)|
      ensures forall i {:trigger clients[i]} :: 0 <= i < |clients| ==> clients[i] == Aged(old(clients)[i])
      ensures trace == old(trace) + [Tick] + TimedOuts(old(clients))
    {
      hide InStep, Due, TimedOuts;
      ghost var was := clients;
      forall i | 0 <= i < |clients| ensures Due(clients[i], trace + [Tick]) {
        TickDue(clients[i], trace);
      }
      trace := trace + [Tick];
      assert was[..0] == [];
      NoneTimedOut();
      assert trace == old(trace) + [Tick] + TimedOuts(was[..0]);
      var k := 0;
      while k < |clients|
        invariant 0 <= k <= |clients| == |was|
        invariant trace == old(trace) + [Tick] + TimedOuts(was[..k])
        invariant Distinct(clients)
        invariant forall i {:trigger clients[i]} :: 0 <= i < k ==>
                  clients[i] == Aged(was[i]) && InStep(clients[i], trace)
        invariant forall i {:trigger clients[i]} :: k <= i < |clients| ==>
                  clients[i] == was[i] && Due(clients[i], trace)
      {
        TimedOutsSnoc(was, k);
        AgeOne(k);
        k := k + 1;
      }
      assert was[..k] == was;
    }

    method AgeOne(k: nat)
      requires k < |clients| && Distinct(clients) && Due(clients[k], trace)
      requires forall i {:trigger clients[i]} :: 0 <= i < k ==> InStep(clients[i], trace)
      requires forall i {:trigger clients[i]} :: k < i < |clients| ==> Due(clients[i], trace)
      modifies this`clients, this`trace
      ensures Distinct(clients) && clients == old(clients)[k := Aged(old(clients)[k])]
      ensures trace == old(trace) + AgeEvents(old(clients)[k])
      ensures forall i {:trigger clients[i]} :: 0 <= i <= k ==> InStep(clients[i], trace)
      ensures forall i {:trigger clients[i]} :: k < i < |clients| ==> Due(clients[i], trace)
    {
      var c := clients[k];
      AgedInStep(c, trace);
      TimeoutInRange(c, trace);
      hide InStep, Due;
      ghost var was := trace;
      if c.timeout < MAX_RECONNECT_TIMEOUT {
        clients := clients[k := c.(timeout := c.timeout + 1)];
        if c.timeout + 1 >= MAX_RECONNECT_TIMEOUT {
          trace := trace + [TimedOut(c.ieee)];
          forall i | 0 <= i < |clients| && i != k
            ensures i < k ==> InStep(clients[i], trace)
            ensures i > k ==> Due(clients[i], trace)
          {
            OthersKept(clients[i], was, TimedOut(c.ieee));
          }
        }
      }
      assert AgeEvents(c) == [] ==> was + [] == was;
    }

    static lemma TimeoutInRange(c: Client, trace: seq<Event>)
      requires Due(c, trace)
      ensures c.timeout <= MAX_RECONNECT_TIMEOUT
    {
    }

    // ---------------------------------------------------------------- timers firing

    /** gateway_advertise; without an address of its own the gateway only re-arms the timer. */
    method AdvertiseNow(hasAddr: bool)
      requires Sorted(loop.timers) && ClientsRight()
      modifies this`clients, this`trace, this`sent, loop`timers
      ensures ClientsRight()
      ensures Sorted(loop.timers)
      ensures loop.timers == Inserted(old(loop.timers), Timer(loop.now + ADV_INTERVAL, Advertise))
      ensures forall b :: Count(loop.timers, b) == Count(old(loop.timers), b) + if b == Advertise then 1 else 0
      ensures forall b, limit :: Pending(loop.timers, b, limit) <==>
                Pending(old(loop.timers), b, limit) || (b == Advertise && loop.now + ADV_INTERVAL <= limit)
      ensures forall until :: Work(loop.timers, until)
                <= Work(old(loop.timers), until)
                   + if loop.now + ADV_INTERVAL <= until then until + 1 - loop.now - ADV_INTERVAL else 0
      ensures |clients| == |old(clients)|
      ensures if !hasAddr then clients == old(clients) && trace == old(trace) && sent == old(sent)
              else
                && (forall i {:trigger clients[i]} :: 0 <= i < |clients| ==> clients[i] == Aged(old(clients)[i]))
                && trace == old(trace) + [Tick] + TimedOuts(old(clients)) && sent == old(sent) + [Advertisement]
    {
      hide Sorted, Inserted, Count, Pending, Work;
      Post(ADV_INTERVAL, Advertise);
      if !hasAddr {
        return;
      }
      sent := sent + [Advertisement];
      Age();
    }

    /** One turn of the event loop, with a delayed action due. */
    method Fire(hasAddr: bool)
      requires Valid() && loop.timers != [] && loop.timers[0].due <= loop.now
      modifies this`connected, this`reconnect, this`clients, this`trace, this`sent, loop`timers
      ensures Valid()
      ensures var t, rest := old(loop.timers[0]), old(loop.timers[1..]);
              match t.action
              case ClearConnected => !connected && reconnect == old(reconnect) && loop.timers == rest
              case SetReconnect => connected == old(connected) && reconnect && loop.timers == rest
              case Advertise => connected == old(connected) && reconnect == old(reconnect)
                                && loop.timers == Inserted(rest, Timer(loop.now + ADV_INTERVAL, Advertise))
      ensures old(loop.timers[0].action) != Advertise || !hasAddr ==>
                clients == old(clients) && trace == old(trace) && sent == old(sent)
      ensures old(loop.timers[0].action) == Advertise && hasAddr ==>
                && |clients| == |old(clients)| && sent == old(sent) + [Advertisement]
                && (forall i {:trigger clients[i]} :: 0 <= i < |clients| ==> clients[i] == Aged(old(clients)[i]))
                && trace == old(trace) + [Tick] + TimedOuts(old(clients))
      ensures forall limit :: Pending(old(loop.timers), ClearConnected, limit) ==>
                Pending(loop.timers, ClearConnected, limit) || !connected
      ensures forall limit :: Pending(loop.timers, ClearConnected, limit) ==>
                Pending(old(loop.timers), ClearConnected, limit)
      ensures forall limit :: old(loop.timers[0].due) <= limit && old(loop.timers[0].action) == ClearConnected ==>
                Pending(old(loop.timers), ClearConnected, limit)
      ensures Count(loop.timers, ClearConnected) <= Count(old(loop.timers), ClearConnected)
      ensures forall until :: old(loop.timers[0].due) <= until ==>
                Work(loop.timers, until) < Work(old(loop.timers), until)
    {
      var t := Pop();
      hide Sorted, Inserted, Count, Pending, Work, ClientsRight, LastAdv, Answered, LastAck, LastAckFits;
      match t.action {
        case ClearConnected =>
          connected := false;
        case SetReconnect =>
          reconnect := true;
        case Advertise =>
          AdvertiseNow(hasAddr);
      }
    }

    method Pop() returns (t: Timer)
      requires Sorted(loop.timers) && loop.timers != []
      modifies loop`timers
      ensures [t] + loop.timers == old(loop.timers) && Sorted(loop.timers) && loop.timers == old(loop.timers[1..])
      ensures forall b :: Count(loop.timers, b) == Count(old(loop.timers), b) - if b == t.action then 1 else 0
      ensures forall b, limit :: Pending(old(loop.timers), b, limit) <==>
                Pending(loop.timers, b, limit) || (b == t.action && t.due <= limit)
      ensures forall until :: Work(old(loop.timers), until)
                == Work(loop.timers, until) + if t.due <= until then until + 1 - t.due else 0
    {
      t := loop.timers[0];
      loop.timers := loop.timers[1..];
    }

    method Elapse(ms: nat)
      requires Valid()
      modifies loop`now
      ensures Valid() && loop.now == old(loop.now) + ms
    {
      Later(loop.now + ms);
      hide Pending, Count, ClientsRight, Sorted;
      loop.now := loop.now + ms;
    }

    lemma Later(later: int)
      requires Valid() && loop.now <= later
      ensures connected && !reconnect ==>
                && Pending(loop.timers, ClearConnected, later + 5 * ADV_INTERVAL)
                && Pending(loop.timers, SetReconnect, later + 15 * ADV_INTERVAL)
    {
      hide Count;
      if connected && !reconnect {
        PendsLater(loop.timers, ClearConnected, loop.now + 5 * ADV_INTERVAL, later + 5 * ADV_INTERVAL);
        PendsLater(loop.timers, SetReconnect, loop.now + 15 * ADV_INTERVAL, later + 15 * ADV_INTERVAL);
      }
    }

    /** How many ageing passes fall due by `until`. */
    static ghost function PassesDue(timers: seq<Timer>, now: int, until: int): nat {
      match DueOf(timers, Advertise)
      case None => 0
      case Some(due) =>
        var first := if due < now then now else due;
        if until < first then 0 else (until - first) / ADV_INTERVAL + 1
    }

    /** `k` passes have gone by since the clients were `cs`, the history `tr` and the messages sent `out`. */
    ghost predicate Passed(k: nat, hasAddr: bool, cs: seq<Client>, tr: seq<Event>, out: seq<Sent>)
      reads this`clients, this`trace, this`sent
    {
      if hasAddr then
        clients == AgedAll(cs, k) && trace == tr + Passes(cs, k) && sent == out + seq(k, _ => Advertisement)
      else
        clients == cs && trace == tr && sent == out
    }

    lemma NonePassed(hasAddr: bool)
      ensures Passed(0, hasAddr, clients, trace, sent)
    {
      AgedNone(clients);
    }

    /** One more pass, if the gateway has an address. */
    lemma OneMorePassed(k: nat, hasAddr: bool, cs: seq<Client>, tr: seq<Event>, out: seq<Sent>,
                        was: seq<Client>, trace': seq<Event>, sent': seq<Sent>)
      requires if hasAddr then
                 was == AgedAll(cs, k) && trace' == tr + Passes(cs, k) && sent' == out + seq(k, _ => Advertisement)
               else was == cs && trace' == tr && sent' == out
      requires if hasAddr then
                 && |clients| == |was| && sent == sent' + [Advertisement]
                 && (forall i {:trigger clients[i]} :: 0 <= i < |clients| ==> clients[i] == Aged(was[i]))
                 && trace == trace' + [Tick] + TimedOuts(was)
               else clients == was && trace == trace' && sent == sent'
      ensures Passed(k + 1, hasAddr, cs, tr, out)
    {
      hide TimedOuts, Passes, Aged;
      if hasAddr {
        AgedMore(cs, k, clients);
        PassesMore(cs, k);
        assert tr + Passes(cs, k) + [Tick] + TimedOuts(was) == tr + (Passes(cs, k) + ([Tick] + TimedOuts(was)));
        assert seq(k + 1, _ => Advertisement) == seq(k, _ => Advertisement) + [Advertisement];
        assert sent == out + (seq(k, _ => Advertisement) + [Advertisement]);
      }
    }

    /** What `k` passes without a word come to for one client: its counter, its silence and its logout. */
    lemma SilentClient(k: nat, cs: seq<Client>, tr: seq<Event>, out: seq<Sent>, i: nat)
      requires ClientsRight() && Passed(k, true, cs, tr, out) && AllInStep(cs, tr) && i < |cs|
      ensures |clients| == |cs| && clients[i] == AgedBy(cs[i], k)
      ensures Silence(trace, cs[i].ieee) == Silence(tr, cs[i].ieee) + k
      ensures Logouts(trace, cs[i].ieee)
           == Logouts(tr, cs[i].ieee) + if cs[i].timeout < MAX_RECONNECT_TIMEOUT <= cs[i].timeout + k then 1 else 0
    {
      hide InStep, Silence, Logouts, Passes;
      assert InStep(clients[i], trace) && InStep(cs[i], tr);
      SilentFor(cs[i], tr, cs, k);
    }

    /** When the next ageing pass falls due, after `k` of them since `first`. */
    ghost predicate NextPass(k: nat, none: bool, first: int)
      reads loop
    {
      match DueOf(loop.timers, Advertise)
      case None => none && k == 0
      case Some(due) => !none && (if due < loop.now then loop.now else due) == first + k * ADV_INTERVAL
    }

    /** The connection there was is there unless a clearing that was pending has fired. */
    ghost predicate Cleared(wasConnected: bool, was: seq<Timer>, until: int)
      reads this`connected, loop
    {
      && (connected ==> wasConnected)
      && (Pending(loop.timers, ClearConnected, until) ==> Pending(was, ClearConnected, until))
      && (connected && Pending(was, ClearConnected, until) ==> Pending(loop.timers, ClearConnected, until))
      && (!connected && wasConnected ==> Pending(was, ClearConnected, until))
    }

    lemma ClearedAtLast(wasConnected: bool, was: seq<Timer>, until: int)
      requires Cleared(wasConnected, was, until) && !Pending(loop.timers, ClearConnected, until)
      ensures connected <==> wasConnected && !Pending(was, ClearConnected, until)
    {
    }

    lemma NotYetCleared(until: int)
      ensures Cleared(connected, loop.timers, until)
    {
    }

    /** One turn of the loop for whatever falls due by `until`. */
    method Turn(until: int, hasAddr: bool, ghost k: nat, ghost none: bool, ghost first: int, ghost cs: seq<Client>,
                ghost tr: seq<Event>, ghost out: seq<Sent>)
      returns (ghost k': nat)
      requires Valid() && loop.now <= until && loop.timers != [] && loop.timers[0].due <= until
      requires NextPass(k, none, first) && Passed(k, hasAddr, cs, tr, out)
      modifies this`connected, this`reconnect, this`clients, this`trace, this`sent, loop
      ensures Valid() && loop.now <= until && old(loop.now) <= loop.now
      ensures forall c, was :: old(Cleared(c, was, until)) ==> Cleared(c, was, until)
      ensures Count(loop.timers, ClearConnected) <= Count(old(loop.timers), ClearConnected)
      ensures Work(loop.timers, until) < Work(old(loop.timers), until)
      ensures NextPass(k', none, first) && Passed(k', hasAddr, cs, tr, out)
      ensures k' > k ==> k' == k + 1 && first + k * ADV_INTERVAL <= until
      ensures k' >= k
    {
      hide Pending, Count, ClientsRight, Sorted, Inserted, Work, DueOf, TimedOuts, Passes, AgedAll;
      DueNext();
      if loop.now < loop.timers[0].due {
        Elapse(loop.timers[0].due - loop.now);
      }
      ghost var was, trace', sent' := clients, trace, sent;
      Fire(hasAddr);
      ghost var advert := old(loop.timers)[0].action == Advertise;
      k' := if advert then k + 1 else k;
      DueFired(old(loop.timers));
      if advert {
        OneMorePassed(k, hasAddr, cs, tr, out, was, trace', sent');
      }
    }

    /** The next ageing pass is no earlier than the head of the list. */
    lemma DueNext()
      requires Valid()
      ensures DueOf(loop.timers, Advertise).Some? ==>
                loop.timers != [] && loop.timers[0].due <= DueOf(loop.timers, Advertise).value
      ensures loop.timers != [] && loop.timers[0].action == Advertise ==>
                DueOf(loop.timers, Advertise) == Some(loop.timers[0].due)
    {
      if DueOf(loop.timers, Advertise).Some? {
        DueAfterHead(loop.timers, Advertise);
      }
    }

    /** And after the head has fired. */
    lemma DueFired(was: seq<Timer>)
      requires was != [] && Count(was, Advertise) <= 1
      requires loop.timers == if was[0].action == Advertise
                              then Inserted(was[1..], Timer(loop.now + ADV_INTERVAL, Advertise)) else was[1..]
      ensures DueOf(loop.timers, Advertise)
           == if was[0].action == Advertise then Some(loop.now + ADV_INTERVAL) else DueOf(was, Advertise)
    {
      if was[0].action == Advertise {
        InsertedDue(was[1..], Timer(loop.now + ADV_INTERVAL, Advertise), Advertise);
      }
    }

    /**
     * The event loop while no message comes, until a given time: the connection ends just when some
     * clear_connected_flag was due by then, and the ageing passes that fall due take place, one every interval.
     */
    method Hush(until: int, hasAddr: bool)
      requires Valid() && loop.now <= until
      modifies this`connected, this`reconnect, this`clients, this`trace, this`sent, loop
      ensures Valid() && loop.now == until
      ensures connected <==> old(connected) && !Pending(old(loop.timers), ClearConnected, until)
      ensures old(connected && !reconnect) && old(loop.now) + 5 * ADV_INTERVAL <= until ==> !connected
      ensures Count(loop.timers, ClearConnected) <= Count(old(loop.timers), ClearConnected)
      ensures Passed(PassesDue(old(loop.timers), old(loop.now), until), hasAddr, old(clients), old(trace), old(sent))
      // and the next pass is the first one after that
      ensures match DueOf(old(loop.timers), Advertise)
              case None => DueOf(loop.timers, Advertise) == None
              case Some(due) =>
                var first := if due < old(loop.now) then old(loop.now) else due;
                DueOf(loop.timers, Advertise)
                == Some(first + PassesDue(old(loop.timers), old(loop.now), until) * ADV_INTERVAL)
    {
      hide Passes, AgedAll, Passed, PassesDue, NextPass, Cleared;
      if connected && !reconnect && loop.now + 5 * ADV_INTERVAL <= until {
        PendsLater(loop.timers, ClearConnected, loop.now + 5 * ADV_INTERVAL, until);
      }
      hide Pending, Count, ClientsRight, Sorted, Inserted, Work, DueOf;
      ghost var k, due := 0, DueOf(loop.timers, Advertise);
      ghost var first := if due.None? then 0 else if due.value < loop.now then loop.now else due.value;
      NonePassed(hasAddr);
      FirstPass(first);
      NotYetCleared(until);
      while loop.timers != [] && loop.timers[0].due <= until
        invariant Valid() && old(loop.now) <= loop.now <= until
        invariant Cleared(old(connected), old(loop.timers), until)
        invariant Count(loop.timers, ClearConnected) <= Count(old(loop.timers), ClearConnected)
        invariant NextPass(k, due.None?, first) && Passed(k, hasAddr, old(clients), old(trace), old(sent))
        invariant k > 0 ==> first + (k - 1) * ADV_INTERVAL <= until
        decreases Work(loop.timers, until)
      {
        k := Turn(until, hasAddr, k, due.None?, first, old(clients), old(trace), old(sent));
      }
      Quiet(until);
      ClearedAtLast(old(connected), old(loop.timers), until);
      PassesCounted(old(loop.timers), old(loop.now), until, k, first);
      Elapse(until - loop.now);
    }

    lemma FirstPass(first: int)
      requires var due := DueOf(loop.timers, Advertise);
               first == if due.None? then 0 else if due.value < loop.now then loop.now else due.value
      ensures NextPass(0, DueOf(loop.timers, Advertise).None?, first)
    {
    }

    lemma PassesCounted(was: seq<Timer>, before: int, until: int, k: nat, first: int)
      requires Valid() && before <= loop.now <= until && (loop.timers == [] || until < loop.timers[0].due)
      requires var due := DueOf(was, Advertise);
               && NextPass(k, due.None?, first) && (k > 0 ==> first + (k - 1) * ADV_INTERVAL <= until)
               && first == if due.None? then 0 else if due.value < before then before else due.value
      ensures k == PassesDue(was, before, until)
      ensures match DueOf(was, Advertise)
              case None => DueOf(loop.timers, Advertise) == None
              case Some(due) => DueOf(loop.timers, Advertise) == Some(first + k * ADV_INTERVAL)
    {
      hide DueOf, Count, Pending, HeardRight, ClientsRight, Sorted;
      DueNext();
    }

    lemma Quiet(until: int)
      requires Valid() && (loop.timers == [] || until < loop.timers[0].due)
      ensures !Pending(loop.timers, ClearConnected, until)
    {
      NothingDue(loop.timers, ClearConnected, until);
    }

    // ---------------------------------------------------------------- starting and stopping

    /** gateway_service_start. */
    method Start()
      requires Valid()
      modifies loop`timers
      ensures Valid()
      ensures Count(loop.timers, Advertise) == if gatewayMode then 1 else 0
      ensures forall b, limit :: b != Advertise ==>
                (Pending(loop.timers, b, limit) <==> Pending(old(loop.timers), b, limit))
    {
      hide Sorted, Inserted, Cancelled, Count, Pending, Work, ClientsRight, LastAdv, Answered, LastAck, LastAckFits;
      Cancel(Advertise);
      if gatewayMode {
        Post(ADV_INTERVAL, Advertise);
      }
    }

    /** gateway_service_stop. */
    method Stop()
      requires Valid()
      modifies this`connected, this`clients, this`trace, loop`timers
      ensures Valid() && !connected && clients == []
      ensures trace == old(trace) + Leaving(old(clients))
      ensures Count(loop.timers, Advertise) == Count(loop.timers, SetReconnect) == 0
      ensures loop.timers == Cancelled(Cancelled(Cancelled(old(loop.timers), ClearConnected), SetReconnect), Advertise)
    {
      hide Sorted, Cancelled, Count, Pending, Leaving;
      Cancel(ClearConnected);
      Cancel(SetReconnect);
      Cancel(Advertise);
      connected := false;
      DropClients();
    }

    method DropClients()
      modifies this`clients, this`trace
      ensures clients == [] && trace == old(trace) + Leaving(old(clients))
    {
      hide Leaving;
      NoneLeaving();
      while clients != []
        invariant old(trace) + Leaving(old(clients)) == trace + Leaving(clients)
      {
        LeavingFirst(clients, trace);
        trace := trace + [Left(clients[0].ieee)];
        clients := clients[1..];
      }
    }

    static function Leaving(cs: seq<Client>): seq<Event> {
      if cs == [] then [] else [Left(cs[0].ieee)] + Leaving(cs[1..])
    }

    static lemma NoneLeaving()
      ensures Leaving([]) == []
    {
    }

    static lemma LeavingFirst(cs: seq<Client>, trace: seq<Event>)
      requires cs != []
      ensures trace + Leaving(cs) == trace + [Left(cs[0].ieee)] + Leaving(cs[1..])
    {
    }

    /** gateway_service_event, with the flags the event reports and whether this node leads the mesh. */
    method OnEvent(yunio: bool, mesh: bool, leader: bool)
      requires Valid()
      modifies this, loop`timers
      ensures Valid() && this.yunio == yunio && this.mesh == mesh && gatewayMode == (leader && yunio)
      ensures mesh ==> connected == old(connected) && clients == old(clients) && trace == old(trace)
      ensures !mesh ==> !connected && clients == []
      ensures Count(loop.timers, Advertise) == if mesh && gatewayMode then 1 else 0
    {
      hide Sorted, Inserted, Cancelled, Count, Pending, Work, ClientsRight, LastAdv, Answered, LastAck, LastAckFits;
      this.yunio, this.mesh := yunio, mesh;
      gatewayMode := leader && yunio;
      if mesh {
        Start();
      } else {
        Stop();
      }
    }

    /** handle_gateway_cmd: `gateway login` or `gateway logout`. */
    method Command(on: bool)
      requires Valid()
      modifies this`login, this`sent
      ensures Valid() && login == on
      ensures sent == if connected then old(sent) + [ConnectTo(gwAddr, on)] else old(sent)
    {
      login := on;
      if connected {
        sent := sent + [ConnectTo(gwAddr, login)];
      }
    }
  }

  /**
   * Reconnecting cancels the timer before the answer is in, so a node whose CONNACK is lost
   * counts as connected for ever.
   */
  method StuckConnected(until: int) returns (s: Service)
    requires 8 * ADV_INTERVAL <= until
    ensures fresh(s) && s.Valid() && s.loop.now == until && s.connected && s.loop.timers == []
    ensures s.heard == [Adv(7), Ack(7), Adv(7), Adv(7)]
  {
    hide Service.Valid, Count, Pending, Cancelled;
    s := Answered7();
    HeardAgain(s);
    LostReconnection(s);
    s.Elapse(until - s.loop.now);
  }

  /** Node `s` takes the gateway at 7 for its own, has these timers left at time `now`, and has heard this. */
  ghost predicate Node(s: Service, now: int, timers: seq<Timer>, heard: seq<Heard>)
    reads s, s.loop
  {
    && s.Valid() && !s.gatewayMode && s.gwAddr == 7 && s.connected && s.heard == heard
    && s.loop.now == now && s.loop.timers == timers
  }

  /** An advertisement and a CONNACK connect a new node. */
  method Answered7() returns (s: Service)
    ensures fresh(s) && fresh(s.loop) && !s.reconnect
    ensures Node(s, 0, [Timer(5 * ADV_INTERVAL, ClearConnected), Timer(8 * ADV_INTERVAL, SetReconnect)],
                 [Adv(7), Ack(7)])
  {
    hide Service.Valid, Count, Pending;
    s := new Service();
    s.HandleAdv(7);
    s.HandleConnack(7, true, 0);
  }

  /** An advertisement moves the clearing behind the reconnection. */
  method HeardAgain(s: Service)
    requires !s.reconnect
    requires Node(s, 0, [Timer(5 * ADV_INTERVAL, ClearConnected), Timer(8 * ADV_INTERVAL, SetReconnect)],
                  [Adv(7), Ack(7)])
    modifies s, s.loop
    ensures !s.reconnect
    ensures Node(s, 4 * ADV_INTERVAL, [Timer(8 * ADV_INTERVAL, SetReconnect), Timer(9 * ADV_INTERVAL, ClearConnected)],
                 [Adv(7), Ack(7), Adv(7)])
  {
    hide Service.Valid, Count, Pending;
    s.Elapse(4 * ADV_INTERVAL);
    s.HandleAdv(7);
    assert s.loop.timers == [Timer(8 * ADV_INTERVAL, SetReconnect), Timer(9 * ADV_INTERVAL, ClearConnected)];
  }

  /** The next one finds the node reconnecting, and cancels the clearing. */
  method LostReconnection(s: Service)
    requires !s.reconnect
    requires Node(s, 4 * ADV_INTERVAL, [Timer(8 * ADV_INTERVAL, SetReconnect), Timer(9 * ADV_INTERVAL, ClearConnected)],
                  [Adv(7), Ack(7), Adv(7)])
    modifies s, s.loop
    ensures Node(s, 8 * ADV_INTERVAL, [], [Adv(7), Ack(7), Adv(7), Adv(7)])
  {
    hide Service.Valid, Count, Pending;
    s.Elapse(4 * ADV_INTERVAL);
    s.Fire(true);
    s.HandleAdv(7);
  }

  /** A CONNACK is not checked against the gateway's address: a late one from the gateway before it counts. */
  method ConnectedToNobody() returns (s: Service)
    ensures fresh(s) && s.Valid() && s.connected && s.gwAddr == 8 && LastAck(s.heard) == Some(7)
    ensures s.heard == [Adv(7), Adv(8), Ack(7)]
  {
    hide Service.TimersRight, Service.ClientsRight, Service.HeardRight, Count, Pending, Sorted;
    s := new Service();
    s.HandleAdv(7);
    s.HandleAdv(8);
    HeardSnoc(s.heard, Ack(7));
    s.HandleConnack(7, true, 0);
  }

  // ---------------------------------------------------------------- silent clients

  /**
   * A gateway with an address that hears nothing until a given time: each ageing pass that falls due adds
   * one to a client's silence, and the 48th logs it out, once.
   */
  method SilentUntil(s: Service, until: int, i: nat)
    requires s.Valid() && s.loop.now <= until && i < |s.clients|
    modifies s, s.loop
    ensures s.Valid() && |s.clients| == |old(s.clients)|
    ensures var k, c := Service.PassesDue(old(s.loop.timers), old(s.loop.now), until), old(s.clients[i]);
            && s.clients[i] == AgedBy(c, k) && Silence(s.trace, c.ieee) == Silence(old(s.trace), c.ieee) + k
            && Logouts(s.trace, c.ieee)
               == Logouts(old(s.trace), c.ieee) + if c.timeout < MAX_RECONNECT_TIMEOUT <= c.timeout + k then 1 else 0
  {
    hide Service.TimersRight, Service.HeardRight, Service.Passed, Service.PassesDue, AgedBy, Silence, Logouts, InStep;
    ghost var cs, tr, out := s.clients, s.trace, s.sent;
    ghost var k := Service.PassesDue(s.loop.timers, s.loop.now, until);
    s.Hush(until, true);
    s.SilentClient(k, cs, tr, out, i);
  }

  // ---------------------------------------------------------------- keeping alive

  /** Another clearing than the first to come falls due by `limit`. */
  ghost predicate SecondClearing(timers: seq<Timer>, limit: int) {
    Pending(Cancelled(timers, ClearConnected), ClearConnected, limit)
  }

  lemma OnlyClearing(timers: seq<Timer>, limit: int)
    requires Count(timers, ClearConnected) <= 1
    ensures !SecondClearing(timers, limit) && Count(Cancelled(timers, ClearConnected), ClearConnected) == 0
  {
    var rest := Cancelled(timers, ClearConnected);
    CancelledCounts(timers, ClearConnected, ClearConnected);
    if Pending(rest, ClearConnected, limit) {
      PendsLater(rest, ClearConnected, limit, limit);
    }
  }

  /**
   * An advertisement of its gateway keeps a connected node connected for less than five intervals more
   * exactly if no second clearing falls due in that time: cancelling takes out one only.
   */
  method KeepAlive(s: Service, until: int, hasAddr: bool)
    requires s.Valid() && s.connected && !s.gatewayMode
    requires s.loop.now <= until < s.loop.now + 5 * ADV_INTERVAL
    modifies s, s.loop
    ensures s.Valid() && s.loop.now == until && s.gatewayMode == old(s.gatewayMode) && s.gwAddr == old(s.gwAddr)
    ensures s.heard == old(s.heard) + [Adv(s.gwAddr)]
    ensures s.connected <==> !SecondClearing(old(s.loop.timers), until)
    ensures old(Count(s.loop.timers, ClearConnected)) <= 1 ==> s.connected && Count(s.loop.timers, ClearConnected) <= 1
  {
    hide Service.TimersRight, Service.ClientsRight, Service.HeardRight, Count, Pending, Sorted, Inserted, Cancelled;
    ghost var was := s.loop.timers;
    ghost var kept := Cancelled(was, ClearConnected);
    ghost var again := Timer(s.loop.now + 5 * ADV_INTERVAL, ClearConnected);
    s.HandleAdv(s.gwAddr);
    InsertedPends(kept, again, ClearConnected, until);
    InsertedCounts(kept, again, ClearConnected);
    if Count(was, ClearConnected) <= 1 {
      OnlyClearing(was, until);
    }
    s.Hush(until, hasAddr);
  }

  /** With one clearing timer at most, hearing its gateway often enough keeps a node connected. */
  method StaysConnected(s: Service, gaps: seq<nat>, hasAddr: bool)
    requires s.Valid() && s.connected && !s.gatewayMode && Count(s.loop.timers, ClearConnected) <= 1
    requires forall i :: 0 <= i < |gaps| ==> gaps[i] < 5 * ADV_INTERVAL
    modifies s, s.loop
    ensures s.Valid() && s.connected && s.loop.now == old(s.loop.now) + Total(gaps)
    ensures s.gwAddr == old(s.gwAddr) && s.heard == old(s.heard) + seq(|gaps|, _ => Adv(old(s.gwAddr)))
  {
    hide Count;
    var i := 0;
    while i < |gaps|
      invariant 0 <= i <= |gaps|
      invariant s.Valid() && s.connected && !s.gatewayMode && Count(s.loop.timers, ClearConnected) <= 1
      invariant s.loop.now == old(s.loop.now) + Total(gaps[..i])
      invariant s.gwAddr == old(s.gwAddr) && s.heard == old(s.heard) + seq(i, _ => Adv(old(s.gwAddr)))
    {
      TotalSnoc(gaps, i);
      KeepAlive(s, s.loop.now + gaps[i], hasAddr);
      i := i + 1;
    }
    assert gaps[..i] == gaps;
  }

  ghost function Total(gaps: seq<nat>): nat { if gaps == [] then 0 else Total(gaps[..|gaps| - 1]) + gaps[|gaps| - 1] }

  lemma TotalSnoc(gaps: seq<nat>, i: nat)
    requires i < |gaps|
    ensures Total(gaps[..i + 1]) == Total(gaps[..i]) + gaps[i]
  {
    assert gaps[..i + 1][..i] == gaps[..i];
  }

  lemma SecondAnswer(a: Timer, b: Timer, r: Timer, r': Timer)
    requires a.action == b.action == ClearConnected && r.action == r'.action == SetReconnect
    requires a.due <= b.due < r.due && b.due <= r'.due
    ensures Inserted(Cancelled(Inserted([a, r], b), SetReconnect), r') == [a, b, r']
  {
    assert [a, r][1..] == [r];
    assert Inserted([a, r], b) == [a, b, r];
    assert [a, b, r][1..] == [b, r] && [b, r][1..] == [r];
    assert Cancelled([r], SetReconnect) == [] && Cancelled([b, r], SetReconnect) == [b];
    assert Cancelled([a, b, r], SetReconnect) == [a, b];
    assert [a, b][1..] == [b] && [b][1..] == [];
    assert Inserted([b], r') == [b, r'];
  }

  lemma NextAdvert(a: Timer, b: Timer, r: Timer, c: Timer)
    requires a.action == ClearConnected && b.due <= r.due <= c.due
    ensures Inserted(Cancelled([a, b, r], ClearConnected), c) == [b, r, c]
  {
    assert [a, b, r][1..] == [b, r] && [b, r][1..] == [r] && [r][1..] == [];
    assert Inserted([r], c) == [r, c];
  }

  /** Two answers leave two clearings: the node is disconnected at 26 s though it heard its gateway at 20 s. */
  method ClearedTooSoon() returns (s: Service)
    ensures fresh(s) && s.Valid() && s.loop.now == 26000 && !s.connected
    ensures s.heard == [Adv(7), Ack(7), Ack(7), Adv(7)]
  {
    hide Service.Valid, Count, Pending, Inserted, Cancelled;
    s := Answered7();
    LoggedIn(s);
    PostponedOnce(s);
    s.Elapse(6000);
    s.Fire(true);
  }

  /** A login asks for a second answer, which arms a second clearing. */
  method LoggedIn(s: Service)
    requires !s.reconnect && Node(s, 0, [Timer(25000, ClearConnected), Timer(40000, SetReconnect)], [Adv(7), Ack(7)])
    modifies s, s.loop
    ensures !s.reconnect
    ensures Node(s, 1000, [Timer(25000, ClearConnected), Timer(26000, ClearConnected), Timer(41000, SetReconnect)],
                 [Adv(7), Ack(7), Ack(7)])
    ensures s.login
  {
    hide Service.Valid, Count, Pending, Inserted, Cancelled;
    var a, b := Timer(25000, ClearConnected), Timer(26000, ClearConnected);
    SecondAnswer(a, b, Timer(40000, SetReconnect), Timer(41000, SetReconnect));
    s.Elapse(1000);
    s.Command(true);
    s.HandleConnack(7, true, 0);
  }

  /** The advertisement at 20 s postpones one of them. */
  method PostponedOnce(s: Service)
    requires !s.reconnect
    requires Node(s, 1000, [Timer(25000, ClearConnected), Timer(26000, ClearConnected), Timer(41000, SetReconnect)],
                  [Adv(7), Ack(7), Ack(7)])
    modifies s, s.loop
    ensures Node(s, 20000, [Timer(26000, ClearConnected), Timer(41000, SetReconnect), Timer(45000, ClearConnected)],
                 [Adv(7), Ack(7), Ack(7), Adv(7)])
  {
    hide Service.Valid, Count, Pending, Inserted, Cancelled;
    var a, b, c := Timer(25000, ClearConnected), Timer(26000, ClearConnected), Timer(45000, ClearConnected);
    NextAdvert(a, b, Timer(41000, SetReconnect), c);
    s.Elapse(19000);
    s.HandleAdv(7);
  }
}
