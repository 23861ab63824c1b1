/**
 * The list of bound protocol control blocks and the ephemeral-port search.  sal_tcp_* and
 * sal_udp_* are the same code over two lists, so one class stands for both.
 */
module PcbTable {
  import opened Orders

  const RANGE_START: nat := 0xc000   // LOCAL_PORT_RANGE_START
  const RANGE_END: nat := 0xffff   // LOCAL_PORT_RANGE_END
  const RANGE_SIZE: nat := 0x4000

  datatype Err = Ok | ErrBuf | ErrUse

  class Pcb {
    var localPort: nat
    var localIp: nat
    var remotePort: nat
    var next: Pcb?

    /** salpcb_new: all zero. */
    constructor ()
      ensures localPort == 0 && localIp == 0 && remotePort == 0 && next == null
    {
      localPort, localIp, remotePort, next := 0, 0, 0, null;
    }
  }

  /** ENSURE_LOCAL_PORT_RANGE: bits 14 and 15 set, the rest of the low 16 bits from `r`. */
  function EnsureRange(r: nat): nat { RANGE_START + r % RANGE_SIZE }

  /** The macro's mask, addition and truncation, on 32-bit words, are that arithmetic. */
  lemma EnsureRangeBits(r: bv32)
    ensures ((r & 0xffff3fff) + 0xc000) & 0xffff == 0xc000 + r % 0x4000
    ensures forall n: nat :: EnsureRange(n) == 0xc000 + n % 0x4000
  {
  }

  predicate InRange(p: nat) { RANGE_START <= p <= RANGE_END }

  /** The `k`-th port after `start`, going round the range; `k` is at most one full round. */
  function Cyclic(start: nat, k: nat): int { if start + k <= RANGE_END then start + k else start + k - RANGE_SIZE }

  /** The `n` ports after `start` are all in `used`. */
  ghost predicate Hits(start: nat, n: nat, used: set<int>) { forall j :: 1 <= j <= n ==> Cyclic(start, j) in used }

  /** `port` is the first port after `start`, cyclically, that is not in `used`. */
  ghost predicate FirstFree(port: int, start: nat, used: set<int>) {
    exists k :: 1 <= k <= RANGE_SIZE && port == Cyclic(start, k) && port !in used
                && Hits(start, k - 1, used)
  }

  ghost predicate Exhausted(used: set<int>) { forall p :: InRange(p) ==> p in used }

  lemma FirstMiss(start: nat, n: nat, port: nat, used: set<int>)
    requires InRange(start) && Hits(start, n, used) && n < RANGE_SIZE && port == Cyclic(start, n + 1)
    ensures InRange(port)
    ensures if port in used then Hits(start, n + 1, used) else FirstFree(port, start, used) && !Exhausted(used)
  {
  }

  lemma NoHits(start: nat, used: set<int>)
    ensures Hits(start, 0, used)
  {
  }

  /** 16384 used ports in a row are the whole range. */
  lemma FullCircle(start: nat, used: set<int>)
    requires InRange(start) && Hits(start, RANGE_SIZE, used)
    ensures Exhausted(used)
  {
    forall p: nat | InRange(p) ensures p in used {
      var j := if p > start then p - start else p - start + RANGE_SIZE;
      assert Cyclic(start, j) == p;
    }
  }

  /** Where a search starts: behind the last port tried, or anywhere in the range the first time. */
  function Origin(lastPort: nat, r: nat): nat { if lastPort == 0 then EnsureRange(r) else lastPort }

  /** The node at position `i`, null off either end. */
  function At(spine: seq<Pcb>, i: int): Pcb? {
    if 0 <= i < |spine| then spine[i] else null
  }

  ghost predicate Linked(spine: seq<Pcb>)
    reads spine
  {
    forall i {:trigger spine[i].next} :: 0 <= i < |spine| ==> spine[i].next == At(spine, i + 1)
  }

  ghost predicate DistinctPorts(spine: seq<Pcb>)
    reads spine
  {
    forall i, j {:trigger spine[i].localPort, spine[j].localPort} ::
      0 <= i < j < |spine| ==> spine[i].localPort != spine[j].localPort
  }

  ghost function Ports(spine: seq<Pcb>): set<int>
    reads spine
  {
    if spine == [] then {} else {spine[0].localPort as int} + Ports(spine[1..])
  }

  lemma {:induction false} PortsMember(spine: seq<Pcb>, port: int)
    ensures port in Ports(spine) <==> exists i :: 0 <= i < |spine| && spine[i].localPort == port
  {
    if spine != [] {
      PortsMember(spine[1..], port);
      if i :| 0 <= i < |spine| && spine[i].localPort == port {
        assert i > 0 ==> spine[1..][i - 1].localPort == port;
      }
      if i :| 0 <= i < |spine[1..]| && spine[1..][i].localPort == port {
        assert spine[i + 1].localPort == port;
      }
    }
  }

  class PcbList {
    var head: Pcb?
    var lastPort: nat   // the static tcp_port or udp_port
    ghost var spine: seq<Pcb>

    ghost predicate Sound()
      reads `head, `spine, spine
    {
      && Distinct(spine) && head == At(spine, 0) && Linked(spine)
      && DistinctPorts(spine)
      && (forall p :: p in spine ==> 0 < p.localPort < 0x1_0000)
    }

    ghost predicate Valid()
      reads this, spine
    {
      Sound() && (lastPort == 0 || InRange(lastPort))
    }

    constructor ()
      ensures Valid() && spine == [] && lastPort == 0
    {
      head, lastPort, spine := null, 0, [];
    }

    /** Is some PCB other than `but` bound to `port`? */
    method PortTaken(port: nat, but: Pcb?) returns (taken: bool)
      requires Sound()
      ensures taken <==> exists i :: 0 <= i < |spine| && spine[i] != but && spine[i].localPort == port
    {
      var p := head;
      ghost var k := 0;
      while p != null
        invariant k <= |spine| && p == At(spine, k)
        invariant forall i :: 0 <= i < k ==> spine[i] == but || spine[i].localPort != port
        decreases |spine| - k
      {
        if p != but && p.localPort == port { return true; }
        assert spine[k].next == At(spine, k + 1);
        p := p.next;
        k := k + 1;
      }
      return false;
    }

    method InUse(port: nat, ghost used: set<int>) returns (taken: bool)
      requires Sound() && used == Ports(spine)
      ensures taken <==> port in used
    {
      PortsMember(spine, port);
      taken := PortTaken(port, null);
    }

    method IsListed(pcb: Pcb) returns (listed: bool)
      requires Sound()
      ensures listed <==> pcb in spine
    {
      var p := head;
      ghost var k := 0;
      while p != null
        invariant k <= |spine| && p == At(spine, k)
        invariant forall i :: 0 <= i < k ==> spine[i] != pcb
        decreases |spine| - k
      {
        if p == pcb { return true; }
        assert spine[k].next == At(spine, k + 1);
        p := p.next;
        k := k + 1;
      }
      return false;
    }

    /** sal_tcp_new_port / sal_udp_new_port; `r` is what rand() yields. */
    method NewPort(r: nat) returns (port: nat)
      requires Valid()
      modifies `lastPort
      ensures Valid() && InRange(lastPort)
      ensures port == 0 <==> Exhausted(Ports(spine))
      ensures port != 0 ==> port == lastPort && FirstFree(port, Origin(old(lastPort), r), Ports(spine))
      ensures port == 0 ==> lastPort == Origin(old(lastPort), r)
    {
      if lastPort == 0 { lastPort := EnsureRange(r); }
      ghost var trials;
      port, trials := Search();
    }

    /** The search proper, from the label `again`: step, look for the port in the list, give up after 16384 hits. */
    method Search() returns (port: nat, ghost trials: nat)
      requires Valid() && InRange(lastPort)
      modifies `lastPort
      ensures Valid() && InRange(lastPort)
      ensures port == 0 <==> Exhausted(Ports(spine))
      ensures port != 0 ==> port == lastPort && FirstFree(port, old(lastPort), Ports(spine))
      ensures port == 0 ==> lastPort == old(lastPort)
      ensures 1 <= trials <= RANGE_SIZE && lastPort == Cyclic(old(lastPort), trials)
    {
      hide Ports, Sound, Exhausted, Hits;
      ghost var start, used := lastPort, Ports(spine);
      var n := 0;
      NoHits(start, used);
      while true
        invariant Sound() && Ports(spine) == used && n < RANGE_SIZE
        invariant InRange(start) && lastPort == Cyclic(start, n)
        invariant Hits(start, n, used)
        decreases RANGE_SIZE - n
      {
        lastPort := if lastPort == RANGE_END then RANGE_START else lastPort + 1;
        var taken := InUse(lastPort, used);
        FirstMiss(start, n, lastPort, used);
        if !taken { return lastPort, n + 1; }
        n := n + 1;
        if n > RANGE_END - RANGE_START {
          FullCircle(start, used);
          return 0, n;
        }
      }
    }

    /** sal_tcp_bind / sal_udp_bind; `ip` is empty for a null address. */
    method Bind(pcb: Pcb, ip: seq<nat>, port: nat, r: nat) returns (err: Err)
      requires Valid() && port < 0x1_0000
      modifies this, pcb
      ensures Valid()
      ensures err != Ok ==> unchanged(`head) && unchanged(pcb) && unchanged(`spine)
      ensures err == ErrBuf <==> port == 0 && Exhausted(old(Ports(spine)))
      ensures err == ErrUse <==>
                port != 0
                && exists i :: 0 <= i < |old(spine)| && old(spine)[i] != pcb && old(spine[i].localPort) == port
      ensures err == Ok ==>
                && spine == (if pcb in old(spine) then old(spine) else [pcb] + old(spine))
                && pcb.remotePort == old(pcb.remotePort)
                && pcb.localIp == (if ip == [] then old(pcb.localIp) else ip[0])
                && (port != 0 ==> pcb.localPort == port)
                && (port == 0 ==> FirstFree(pcb.localPort, Origin(old(lastPort), r), old(Ports(spine))))
      ensures lastPort == if port != 0 then old(lastPort)
                          else if err == Ok then pcb.localPort as nat
                          else Origin(old(lastPort), r)
    {
      var rebind := IsListed(pcb);
      var chosen := port;
      if port == 0 {
        chosen := NewPort(r);
        if chosen == 0 { return ErrBuf; }
      } else {
        var taken := PortTaken(port, pcb);
        if taken { return ErrUse; }
      }
      PortsMember(spine, chosen);
      Commit(pcb, ip, chosen, rebind);
      return Ok;
    }

    /** The end of a bind whose port no other listed PCB has. */
    method Commit(pcb: Pcb, ip: seq<nat>, port: nat, rebind: bool)
      requires Valid() && 0 < port < 0x1_0000 && (rebind <==> pcb in spine)
      requires forall i :: 0 <= i < |spine| && spine[i] != pcb ==> spine[i].localPort != port
      modifies `head, `spine, pcb
      ensures Valid() && pcb.localPort == port && pcb.remotePort == old(pcb.remotePort)
      ensures spine == (if rebind then old(spine) else [pcb] + old(spine))
      ensures pcb.localIp == (if ip == [] then old(pcb.localIp) else ip[0])
    {
      if ip != [] { pcb.localIp := ip[0]; }
      SetPort(pcb, port);
      if !rebind {
        Push(pcb);
      }
    }

    method SetPort(pcb: Pcb, port: nat)
      requires Sound() && 0 < port < 0x1_0000
      requires forall i :: 0 <= i < |spine| && spine[i] != pcb ==> spine[i].localPort != port
      modifies pcb`localPort
      ensures Sound() && pcb.localPort == port
      ensures forall i :: 0 <= i < |spine| && spine[i] != pcb ==> spine[i].localPort != port
    {
      pcb.localPort := port;
    }

    method Push(pcb: Pcb)
      requires Sound() && pcb !in spine && 0 < pcb.localPort < 0x1_0000
      requires forall i :: 0 <= i < |spine| && spine[i] != pcb ==> spine[i].localPort != pcb.localPort
      modifies `head, `spine, pcb`next
      ensures Sound() && spine == [pcb] + old(spine)
    {
      ghost var was := spine;
      pcb.next := head;
      head := pcb;
      spine := [pcb] + was;
      LinkedPush(pcb, was);
    }

    /** sal_tcp_remove / sal_udp_remove, up to the release of the memory. */
    method Remove(pcb: Pcb)
      requires Valid()
      modifies `head, `spine, (set p | p in spine)`next
      ensures Valid() && spine == Without(old(spine), pcb)
    {
      hide Without, Index;
      if head == pcb {
        WithoutFirst(spine, pcb, 0);
        RemoveFirst();
      } else {
        var p := head;
        ghost var k := 0;
        while p != null
          invariant k <= |spine| && p == At(spine, k) && unchanged(this) && unchanged(spine)
          invariant forall i :: 0 <= i <= k && i < |spine| ==> spine[i] != pcb
          decreases |spine| - k
        {
          assert spine[k].next == At(spine, k + 1);
          if p.next != null && p.next == pcb {
            WithoutFirst(spine, pcb, k + 1);
            Bypass(p, pcb, k);
            return;
          }
          p := p.next;
          k := k + 1;
        }
        WithoutNone(spine, pcb);
      }
    }

    method RemoveFirst()
      requires Valid() && spine != []
      modifies `head, `spine
      ensures Valid() && spine == old(spine)[1..]
    {
      assert spine[0].next == At(spine, 1);
      head := head.next;
      CutFirst(spine);
      spine := spine[1..];
    }

    /** Unlinks the successor `pcb` of `p`. */
    method Bypass(p: Pcb, pcb: Pcb, ghost k: nat)
      requires Valid() && k + 1 < |spine| && spine[k] == p && spine[k + 1] == pcb
      modifies `spine, p`next
      ensures Valid() && spine == old(spine[..k + 1] + spine[k + 2..])
    {
      ghost var was := spine;
      assert was[k + 1].next == At(was, k + 2);
      p.next := pcb.next;
      spine := was[..k + 1] + was[k + 2..];
      LinkedSkip(was, k);
      DistinctSkip(was, k);
    }
  }

  lemma LinkedSkip(was: seq<Pcb>, k: nat)
    requires k + 1 < |was| && was[k].next == At(was, k + 2)
    requires forall i {:trigger was[i].next} :: 0 <= i < |was| && i != k ==> was[i].next == At(was, i + 1)
    ensures Linked(was[..k + 1] + was[k + 2..])
  {
    var cut := was[..k + 1] + was[k + 2..];
    forall i | 0 <= i < |cut| ensures cut[i].next == At(cut, i + 1) {
      assert cut[i] == was[if i <= k then i else i + 1];
    }
  }

  lemma DistinctSkip(was: seq<Pcb>, k: nat)
    requires k + 1 < |was| && Distinct(was) && DistinctPorts(was)
    ensures Distinct(was[..k + 1] + was[k + 2..]) && DistinctPorts(was[..k + 1] + was[k + 2..])
  {
    var cut := was[..k + 1] + was[k + 2..];
    assert forall i {:trigger cut[i]} :: 0 <= i < |cut| ==> cut[i] == was[if i <= k then i else i + 1];
  }

  lemma LinkedPush(pcb: Pcb, was: seq<Pcb>)
    requires Linked(was) && pcb.next == At(was, 0)
    ensures Linked([pcb] + was)
  {
    var spine := [pcb] + was;
    forall i | 0 <= i < |spine| ensures spine[i].next == At(spine, i + 1) {
      if i > 0 { assert spine[i] == was[i - 1] && was[i - 1].next == At(was, i); }
    }
  }

  lemma CutFirst(spine: seq<Pcb>)
    requires spine != [] && Linked(spine) && Distinct(spine) && DistinctPorts(spine)
    ensures Linked(spine[1..]) && Distinct(spine[1..]) && DistinctPorts(spine[1..])
  {
    var cut := spine[1..];
    forall i | 0 <= i < |cut| ensures cut[i].next == At(cut, i + 1) {
      assert cut[i] == spine[i + 1];
    }
  }
}
