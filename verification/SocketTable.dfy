/**
 * The socket table over the two PCB lists: sal_socket, sal_bind, sal_connect and sal_close, each
 * run under the core lock.  Valid is what every serialised run of them keeps.
 */
module SocketTable {
  import opened Orders
  import opened PcbTable

  datatype ConnState = None | Connected

  /** One entry of the table: no netconn, or a netconn with its PCB. */
  datatype Slot = Free | Open(isTcp: bool, pcb: Pcb, state: ConnState)

  datatype Result = Success | Failed(err: Err) | ModuleFailed | BadSocket | BadState

  /** The PCBs of the open sockets of one protocol. */
  ghost function Owners(slots: seq<Slot>, isTcp: bool): set<Pcb> {
    set i | 0 <= i < |slots| && slots[i].Open? && slots[i].isTcp == isTcp :: slots[i].pcb
  }

  ghost predicate OnePcbEach(slots: seq<Slot>) {
    forall i, j :: 0 <= i < j < |slots| && slots[i].Open? && slots[j].Open? ==> slots[i].pcb != slots[j].pcb
  }

  /** A list holds exactly the PCBs of its protocol's open sockets whose local port is set. */
  ghost predicate HoldsBound(spine: seq<Pcb>, owners: set<Pcb>)
    reads owners
  {
    && (forall p :: p in owners ==> (p in spine <==> p.localPort != 0))
    && (forall p :: p in spine ==> p in owners)
  }

  lemma OwnersOpen(slots: seq<Slot>, s: nat, slot: Slot, isTcp: bool)
    requires s < |slots| && slots[s].Free? && slot.Open?
    ensures Owners(slots[s := slot], isTcp) == Owners(slots, isTcp) + if slot.isTcp == isTcp then {slot.pcb} else {}
  {
    var slots' := slots[s := slot];
    forall p | p in Owners(slots, isTcp) ensures p in Owners(slots', isTcp) {
      var i :| 0 <= i < |slots| && slots[i].Open? && slots[i].isTcp == isTcp && slots[i].pcb == p;
      assert slots'[i] == slots[i];
    }
    assert slots'[s] == slot;
  }

  lemma OwnersFree(slots: seq<Slot>, s: nat, isTcp: bool)
    requires s < |slots| && slots[s].Open? && OnePcbEach(slots)
    ensures Owners(slots[s := Free], isTcp) == Owners(slots, isTcp) - {slots[s].pcb}
  {
    var slots' := slots[s := Free];
    forall p | p in Owners(slots, isTcp) && p != slots[s].pcb ensures p in Owners(slots', isTcp) {
      var i :| 0 <= i < |slots| && slots[i].Open? && slots[i].isTcp == isTcp && slots[i].pcb == p;
      assert slots'[i] == slots[i];
    }
  }

  lemma OnePcbFree(slots: seq<Slot>, s: nat)
    requires s < |slots| && OnePcbEach(slots)
    ensures OnePcbEach(slots[s := Free])
  {
  }

  lemma OwnersApart(slots: seq<Slot>, s: nat)
    requires s < |slots| && slots[s].Open? && OnePcbEach(slots)
    ensures slots[s].pcb in Owners(slots, slots[s].isTcp) && slots[s].pcb !in Owners(slots, !slots[s].isTcp)
  {
  }

  lemma OwnersDisjoint(slots: seq<Slot>)
    requires OnePcbEach(slots)
    ensures Owners(slots, true) !! Owners(slots, false)
  {
  }

  lemma OwnersConnect(slots: seq<Slot>, s: nat, isTcp: bool)
    requires s < |slots| && slots[s].Open?
    ensures Owners(slots[s := slots[s].(state := Connected)], isTcp) == Owners(slots, isTcp)
  {
    var slots' := slots[s := slots[s].(state := Connected)];
    forall i | 0 <= i < |slots| && slots[i].Open? && slots[i].isTcp == isTcp
      ensures slots[i].pcb in Owners(slots', isTcp)
    {
      assert slots'[i].pcb == slots[i].pcb;
    }
  }

  /** Taking one owner and its list entry away keeps list and owners together. */
  lemma CutOwner(spine: seq<Pcb>, owners: set<Pcb>, pcb: Pcb)
    requires Distinct(spine) && HoldsBound(spine, owners)
    ensures HoldsBound(Without(spine, pcb), owners - {pcb})
  {
    WithoutMembers(spine, pcb);
  }

  lemma SpineDistinct(list: PcbList)
    requires list.Valid()
    ensures Distinct(list.spine)
  {
  }

  class SocketTable {
    var sockets: seq<Slot>
    const tcp: PcbList
    const udp: PcbList

    ghost predicate Valid()
      reads this, Owners(sockets, true), Owners(sockets, false), tcp, udp, tcp.spine, udp.spine
    {
      && tcp != udp && tcp.Valid() && udp.Valid()
      && OnePcbEach(sockets)
      && HoldsBound(tcp.spine, Owners(sockets, true)) && HoldsBound(udp.spine, Owners(sockets, false))
    }

    constructor (n: nat)
      ensures Valid() && sockets == seq(n, _ => Free) && fresh(tcp) && fresh(udp)
    {
      sockets := seq(n, _ => Free);
      tcp := new PcbList();
      udp := new PcbList();
    }

    function List(isTcp: bool): PcbList { if isTcp then tcp else udp }

    predicate IsOpen(s: int)
      reads this
    {
      0 <= s < |sockets| && sockets[s].Open?
    }

    /** sal_socket: the first free slot, with a PCB of its own that is on no list. */
    method Socket(isTcp: bool) returns (s: int)
      requires Valid()
      modifies `sockets
      ensures Valid()
      ensures s == -1 <==> forall i :: 0 <= i < |old(sockets)| ==> old(sockets)[i].Open?
      ensures s == -1 ==> sockets == old(sockets)
      ensures s != -1 ==>
                && 0 <= s < |sockets| == |old(sockets)| && old(sockets)[s] == Free && IsOpen(s)
                && sockets == old(sockets)[s := Open(isTcp, sockets[s].pcb, None)]
                && fresh(sockets[s].pcb) && sockets[s].pcb.localPort == 0
    {
      s := 0;
      while s < |sockets|
        invariant 0 <= s <= |sockets|
        invariant forall i :: 0 <= i < s ==> sockets[i].Open?
      {
        if sockets[s].Free? {
          var pcb := new Pcb();
          OwnersOpen(sockets, s, Open(isTcp, pcb, None), true);
          OwnersOpen(sockets, s, Open(isTcp, pcb, None), false);
          sockets := sockets[s := Open(isTcp, pcb, None)];
          return s;
        }
        s := s + 1;
      }
      return -1;
    }

    /** sal_bind, once its arguments are checked. */
    method Bind(s: int, ip: nat, port: nat, r: nat) returns (res: Result)
      requires Valid() && port < 0x1_0000
      modifies tcp, udp, Owners(sockets, true), Owners(sockets, false)
      ensures Valid()
      ensures res == BadSocket <==> !IsOpen(s)
      ensures IsOpen(s) ==>
                var pcb, list := sockets[s].pcb, List(sockets[s].isTcp);
                && (res == Failed(ErrUse) <==>
                      port != 0 && exists p :: p in old(list.spine) && p != pcb && old(p.localPort) == port)
                && (res == Failed(ErrBuf) <==> port == 0 && Exhausted(old(Ports(list.spine))))
      ensures res == Success || res == BadSocket || res == Failed(ErrUse) || res == Failed(ErrBuf)
      ensures res != Success ==> tcp.spine == old(tcp.spine) && udp.spine == old(udp.spine)
      ensures forall p :: p in Owners(sockets, true) + Owners(sockets, false) ==>
                (res == Success && p == sockets[s].pcb) || unchanged(p)
      ensures res == Success ==>
                var pcb, list, other := sockets[s].pcb, List(sockets[s].isTcp), List(!sockets[s].isTcp);
                && pcb.localIp == ip && pcb.remotePort == old(pcb.remotePort)
                && (if port != 0 then pcb.localPort == port
                    else FirstFree(pcb.localPort, Origin(old(list.lastPort), r), old(Ports(list.spine))))
                && list.spine == (if pcb in old(list.spine) then old(list.spine) else [pcb] + old(list.spine))
                && other.spine == old(other.spine)
    {
      hide Ports, PcbList.Sound, PcbList.Valid;
      if !IsOpen(s) { return BadSocket; }
      OwnersApart(sockets, s);
      var pcb := sockets[s].pcb;
      var err := List(sockets[s].isTcp).Bind(pcb, [ip], port, r);
      return if err == Ok then Success else Failed(err);
    }

    /** The local port a UDP connect hands over: the one it has, else the first free one, or 0 if there is none. */
    ghost predicate ChosenPort(handed: int, localPort: nat, start: nat, used: set<int>) {
      if localPort != 0 then handed == localPort
      else if Exhausted(used) then handed == 0
      else FirstFree(handed, start, used)
    }

    /** The UDP case of salnetconn_connect: choose a port, hand it to the module, bind to it. */
    method ConnectUdp(pcb: Pcb, rport: nat, moduleOk: bool, r: nat, r': nat) returns (res: Result, handed: nat)
      requires Valid() && pcb in Owners(sockets, false)
      modifies udp, pcb
      ensures Valid()
      ensures ChosenPort(handed, old(pcb.localPort), Origin(old(udp.lastPort), r), old(Ports(udp.spine)))
      ensures res == ModuleFailed <==> !moduleOk
      ensures res == Failed(ErrBuf) <==> moduleOk && old(pcb.localPort) == 0 && Exhausted(old(Ports(udp.spine)))
      ensures res == Success || res == ModuleFailed || res == Failed(ErrBuf)
      ensures res == Success ==> handed == pcb.localPort && pcb.remotePort == rport && pcb.localIp == old(pcb.localIp)
      ensures res == Success ==>
                udp.spine == if old(pcb.localPort) == 0 then [pcb] + old(udp.spine) else old(udp.spine)
      ensures res != Success ==> udp.spine == old(udp.spine) && unchanged(pcb)
    {
      hide Ports, PcbList.Sound;
      OwnersDisjoint(sockets);
      assert pcb !in tcp.spine;
      if pcb.localPort == 0 { handed := udp.NewPort(r); } else { handed := pcb.localPort; }
      if !moduleOk { return ModuleFailed, handed; }
      if pcb.localPort == 0 {
        PortsMember(udp.spine, handed);
        var err := udp.Bind(pcb, [], handed, r');
        if err != Ok { return Failed(err), handed; }
      }
      SetRemote(pcb, rport);
      return Success, handed;
    }

    method SetRemote(pcb: Pcb, rport: nat)
      requires Valid()
      modifies pcb`remotePort
      ensures Valid() && pcb.remotePort == rport
    {
      pcb.remotePort := rport;
    }

    /**
     * salnetconn_connect.  `handed` is the local port given to sal_module_start (-1 for TCP, which
     * leaves the choice to the module), `moduleOk` its answer, `r` and `r'` what rand() yields.
     */
    method Connect(s: int, rport: nat, moduleOk: bool, r: nat, r': nat) returns (res: Result, handed: int)
      requires Valid() && rport < 0x1_0000
      modifies this`sockets, udp, Owners(sockets, true), Owners(sockets, false)
      ensures Valid()
      ensures res == BadSocket <==> !old(IsOpen(s))
      ensures res == BadState <==> old(IsOpen(s)) && old(sockets)[s].state != None
      ensures res != Success ==> sockets == old(sockets) && udp.spine == old(udp.spine)
      ensures res == Success ==> moduleOk && sockets == old(sockets)[s := old(sockets)[s].(state := Connected)]
      ensures tcp.spine == old(tcp.spine)
      ensures old(IsOpen(s)) && old(sockets)[s].state == None ==>
                var slot, ports := old(sockets)[s], old(Ports(udp.spine));
                && (res == ModuleFailed <==> !moduleOk)
                && (res == Failed(ErrBuf) <==>
                      moduleOk && !slot.isTcp && old(slot.pcb.localPort) == 0 && Exhausted(ports))
                && (res == Success || res == ModuleFailed || res == Failed(ErrBuf))
                && (if slot.isTcp then handed == -1
                    else ChosenPort(handed, old(slot.pcb.localPort), Origin(old(udp.lastPort), r), ports))
      ensures forall p :: p in old(Owners(sockets, true) + Owners(sockets, false)) ==>
                (res == Success && p == sockets[s].pcb) || unchanged(p)
      ensures res == Success ==>
                && sockets[s].pcb.remotePort == rport && sockets[s].pcb.localIp == old(sockets[s].pcb.localIp)
                && sockets[s].pcb.localPort == if handed == -1 then old(sockets[s].pcb.localPort) else handed
    {
      hide Ports, PcbList.Sound, PcbList.Valid;
      handed := -1;
      if !IsOpen(s) { return BadSocket, handed; }
      if sockets[s].state != None { return BadState, handed; }
      if sockets[s].isTcp {
        if !moduleOk { return ModuleFailed, handed; }
        SetRemote(sockets[s].pcb, rport);
      } else {
        res, handed := ConnectUdp(sockets[s].pcb, rport, moduleOk, r, r');
        if res != Success { return; }
      }
      OwnersConnect(sockets, s, true);
      OwnersConnect(sockets, s, false);
      sockets := sockets[s := sockets[s].(state := Connected)];
      return Success, handed;
    }

    /** sal_close, from the deletion of the netconn. */
    method Close(s: int) returns (ok: bool)
      requires Valid()
      modifies `sockets, tcp, udp, Owners(sockets, true)`next, Owners(sockets, false)`next
      ensures Valid()
      ensures ok <==> old(IsOpen(s))
      ensures !ok ==> sockets == old(sockets)
      ensures ok ==> sockets == old(sockets)[s := Free]
      ensures ok ==>
                var list, other := List(old(sockets)[s].isTcp), List(!old(sockets)[s].isTcp);
                list.spine == Without(old(list.spine), old(sockets)[s].pcb) && other.spine == old(other.spine)
    {
      hide Without, Distinct, Index, Ports, PcbList.Sound, PcbList.Valid, OnePcbEach;
      if !IsOpen(s) { return false; }
      var pcb, list := sockets[s].pcb, List(sockets[s].isTcp);
      OnePcbFree(sockets, s);
      OwnersFree(sockets, s, true);
      OwnersFree(sockets, s, false);
      OwnersApart(sockets, s);
      OwnersDisjoint(sockets);
      ghost var other := List(!sockets[s].isTcp);
      assert forall p :: p in other.spine ==> p !in list.spine;
      SpineDistinct(list);
      CutOwner(list.spine, Owners(sockets, sockets[s].isTcp), pcb);
      list.Remove(pcb);
      assert other.Valid();
      assert HoldsBound(list.spine, Owners(sockets, sockets[s].isTcp) - {pcb});
      assert HoldsBound(other.spine, Owners(sockets, !sockets[s].isTcp));
      assert Owners(sockets, !sockets[s].isTcp) - {pcb} == Owners(sockets, !sockets[s].isTcp);
      sockets := sockets[s := Free];
      return true;
    }
  }
}
