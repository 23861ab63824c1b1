/**
 * The asynchronous send path of a connected socket: sal_sendto posts to the output mailbox and
 * then counts, sal_packet_output fetches, counts back and hands the packet to the module.
 */
module SendPath {
  import opened Common

  const MAX_PAYLOAD: nat := 1512   // SAL_SOCKET_MAX_PAYLOAD_SIZE

  datatype Sent = BadArgument | Size(n: nat)

  class SendSock {
    const mboxSize: nat   // SAL_DEFAULT_OUTPUTMBOX_SIZE

    var sendmbox: seq<seq<Octet>>
    var sendevent: nat
    var posted: nat   // packets posted whose SENDMINUS is still to come
    var fetched: nat   // packets fetched whose SENDPLUS is still to come
    var inHand: seq<seq<Octet>>   // what the output task holds between its fetch and the module

    ghost var wraps: int   // how often sendevent went below 0, less how often above 0xffff
    ghost var accepted: seq<seq<Octet>>   // every packet the mailbox ever took
    ghost var sent: seq<seq<Octet>>   // every packet handed to the module

    ghost predicate Valid()
      reads this
    {
      && |sendmbox| <= mboxSize && |inHand| <= 1
      && sendevent < 0x1_0000
      && sendevent - 0x1_0000 * wraps == mboxSize - |sendmbox| + posted - fetched
      && accepted == sent + inHand + sendmbox
    }

    /** Just connected: the mailbox is empty and sendevent is set to its size. */
    constructor (mboxSize: nat)
      requires mboxSize < 0x1_0000
      ensures Valid() && this.mboxSize == mboxSize && sendmbox == [] && accepted == [] && sent == []
      ensures posted == 0 && fetched == 0 && sendevent == mboxSize
    {
      this.mboxSize := mboxSize;
      sendmbox, inHand, sendevent, posted, fetched := [], [], mboxSize, 0, 0;
      wraps, accepted, sent := 0, [], [];
    }

    /** sal_sendto up to the mailbox: the size is returned even when a full mailbox turned the packet away. */
    method Post(data: seq<Octet>) returns (r: Sent)
      requires Valid()
      modifies `sendmbox, `posted, `accepted
      ensures Valid()
      ensures r == BadArgument <==> data == [] || |data| > MAX_PAYLOAD
      ensures r.Size? ==> r.n == |data|
      ensures if r.Size? && |old(sendmbox)| < mboxSize
              then accepted == old(accepted) + [data] && sendmbox == old(sendmbox) + [data] && posted == old(posted) + 1
              else accepted == old(accepted) && sendmbox == old(sendmbox) && posted == old(posted)
    {
      if data == [] || |data| > MAX_PAYLOAD { return BadArgument; }
      if |sendmbox| < mboxSize {
        sendmbox := sendmbox + [data];
        posted := posted + 1;
        accepted := accepted + [data];
      }
      return Size(|data|);
    }

    /** NETCONN_EVT_SENDMINUS for one posted packet. */
    method SendMinus()
      requires Valid() && posted > 0
      modifies `sendevent, `wraps, `posted
      ensures Valid() && posted == old(posted) - 1
      ensures sendevent == (old(sendevent) + 0xffff) % 0x1_0000
    {
      if sendevent == 0 { sendevent, wraps := 0xffff, wraps + 1; } else { sendevent := sendevent - 1; }
      posted := posted - 1;
    }

    /** The output task takes the oldest packet, if there is one. */
    method Fetch()
      requires Valid() && inHand == []
      modifies `sendmbox, `fetched, `inHand
      ensures Valid() && inHand + sendmbox == old(sendmbox) && (inHand == [] <==> old(sendmbox) == [])
      ensures fetched == old(fetched) + |inHand|
    {
      if sendmbox != [] {
        inHand, sendmbox, fetched := [sendmbox[0]], sendmbox[1..], fetched + 1;
      }
    }

    /** NETCONN_EVT_SENDPLUS for one fetched packet. */
    method SendPlus()
      requires Valid() && fetched > 0
      modifies `sendevent, `wraps, `fetched
      ensures Valid() && fetched == old(fetched) - 1
      ensures sendevent == (old(sendevent) + 1) % 0x1_0000
    {
      if sendevent == 0xffff { sendevent, wraps := 0, wraps - 1; } else { sendevent := sendevent + 1; }
      fetched := fetched - 1;
    }

    /** sal_module_send: the module gets packets in the order the mailbox took them. */
    method ModuleSend()
      requires Valid() && inHand != []
      modifies `inHand, `sent
      ensures Valid() && inHand == [] && sent == old(sent + inHand) && sent <= accepted
    {
      assert accepted == (sent + inHand) + [] + sendmbox;
      sent := sent + inHand;
      inHand := [];
    }
  }

  /**
   * When sendevent tells the truth: it is the number of free slots just when as many posts as fetches,
   * modulo 2^16, are not counted yet. So a full mailbox shows as not writable exactly then, and one
   * with room as writable unless those uncounted cancel the room.
   */
  lemma CounterIsRoom(k: SendSock)
    requires k.Valid() && k.mboxSize < 0x1_0000
    ensures k.sendevent == k.mboxSize - |k.sendmbox| <==> (k.posted - k.fetched) % 0x1_0000 == 0
    ensures |k.sendmbox| == k.mboxSize ==> (k.sendevent == 0 <==> (k.posted - k.fetched) % 0x1_0000 == 0)
    ensures |k.sendmbox| < k.mboxSize ==>
              (k.sendevent != 0 <==> (k.mboxSize - |k.sendmbox| + k.posted - k.fetched) % 0x1_0000 != 0)
  {
  }

  /**
   * In between, the u16 does wrap, whatever the mailbox's size: with the mailbox filled, a packet
   * fetched but not counted back and one more posted and counted leave sendevent at 0xffff,
   * "writable", with the mailbox full.
   */
  method WritableWhileFull(size: nat, packet: seq<Octet>) returns (k: SendSock)
    requires 0 < size < 0x1_0000 && 0 < |packet| <= MAX_PAYLOAD
    ensures k.Valid() && k.posted == 0 && k.fetched == 1 && k.mboxSize == size
    ensures k.sendevent == 0xffff && |k.sendmbox| == k.mboxSize
  {
    k := new SendSock(size);
    var r;
    while |k.sendmbox| < size
      invariant fresh(k) && k.Valid() && k.mboxSize == size && k.posted == 0 && k.fetched == 0 && k.inHand == []
      invariant k.sendevent == size - |k.sendmbox|
      decreases size - |k.sendmbox|
    {
      r := k.Post(packet);
      k.SendMinus();
    }
    k.Fetch();
    r := k.Post(packet);
    k.SendMinus();
  }
}
