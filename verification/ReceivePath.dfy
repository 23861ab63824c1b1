/**
 * The receive path of a socket (salnetconn_packet_input, sal_deal_event's counter, sal_recvfrom).
 *
 * Posting a packet and counting it are two steps of the notifier, fetching and uncounting two
 * steps of the reader; a read takes a script of what other tasks do at each point where it can
 * be interrupted, so a contract of RecvFrom speaks of every interleaving with arrivals.
 */
module ReceivePath {
  import opened Common

  /** The buffer kept from the previous read. */
  datatype Held = Nothing | Holding(buf: seq<Octet>)

  /** A step of another task: a packet posted to the mailbox, or a posted packet counted. */
  datatype Arrival = Post(data: seq<Octet>) | Plus

  datatype Outcome = Received | WouldBlock | TimedOut

  function Min(a: nat, b: nat): nat { if a <= b then a else b }

  ghost function Flat(chunks: seq<seq<Octet>>): seq<Octet> {
    if chunks == [] then [] else chunks[0] + Flat(chunks[1..])
  }

  lemma {:induction false} FlatAppend(a: seq<seq<Octet>>, b: seq<seq<Octet>>)
    ensures Flat(a + b) == Flat(a) + Flat(b)
  {
    if a == [] {
      assert a + b == b;
    } else {
      assert (a + b)[1..] == a[1..] + b;
      FlatAppend(a[1..], b);
    }
  }

  lemma FlatHead(chunks: seq<seq<Octet>>)
    requires chunks != []
    ensures Flat(chunks) == chunks[0] + Flat(chunks[1..])
  {
  }

  lemma FlatParts(chunks: seq<seq<Octet>>, n: nat)
    requires chunks != [] && n <= |chunks[0]|
    ensures Flat(chunks) == chunks[0][..n] + Flat([chunks[0][n..]] + chunks[1..])
  {
    hide Flat;
    var rest := [chunks[0][n..]] + chunks[1..];
    FlatHead(chunks);
    FlatHead(rest);
    assert rest[1..] == chunks[1..];
    assert chunks[0] == chunks[0][..n] + chunks[0][n..];
  }

  lemma FlatSnoc(a: seq<seq<Octet>>, x: seq<Octet>)
    ensures Flat(a + [x]) == Flat(a) + x
  {
    FlatAppend(a, [x]);
    assert Flat([x]) == x + Flat([]);
  }

  // ---------------------------------------------------------------- what a quiet read returns

  /**
   * What one non-peek TCP read takes when nothing else happens: chunk after chunk until one
   * fills `len` or the queue is empty.  `trims` says whether `len` goes down by what was copied.
   */
  ghost function Taken(chunks: seq<seq<Octet>>, len: nat, trims: bool): seq<Octet>
    decreases |chunks|
  {
    if chunks == [] then []
    else
      var n := Min(len, |chunks[0]|);
      if n == len || |chunks| == 1 then chunks[0][..n]
      else chunks[0] + Taken(chunks[1..], if trims then len - n else len, trims)
  }

  lemma TakenStep(chunks: seq<seq<Octet>>, len: nat, trims: bool)
    ensures chunks == [] ==> Taken(chunks, len, trims) == []
    ensures chunks != [] ==>
              var copied := chunks[0][..Min(len, |chunks[0]|)];
              Taken(chunks, len, trims)
              == copied + if |copied| == len || |chunks| == 1 then []
                          else Taken(chunks[1..], if trims then len - |copied| else len, trims)
  {
  }

  /** With the decrement that the underflow guard expects, a read is a plain take on the stream. */
  lemma {:induction false} TrimmedReadIsTake(chunks: seq<seq<Octet>>, len: nat)
    ensures Taken(chunks, len, true) == Flat(chunks)[..Min(len, |Flat(chunks)|)]
    decreases |chunks|
  {
    if chunks != [] && |chunks[0]| < len && |chunks| > 1 {
      TrimmedReadIsTake(chunks[1..], len - |chunks[0]|);
    } else if |chunks| == 1 {
      assert Flat(chunks) == chunks[0];
    }
  }

  lemma {:induction false} ReadIsPrefix(chunks: seq<seq<Octet>>, len: nat, trims: bool)
    ensures Taken(chunks, len, trims) <= Flat(chunks)
    decreases |chunks|
  {
    if chunks != [] && |chunks[0]| < len && |chunks| > 1 {
      ReadIsPrefix(chunks[1..], if trims then len - |chunks[0]| else len, trims);
    }
  }

  /** Length of the first chunk with anything in it. */
  ghost function FirstLength(chunks: seq<seq<Octet>>): nat {
    if chunks == [] then 0 else if chunks[0] != [] then |chunks[0]| else FirstLength(chunks[1..])
  }

  /**
   * sal_recvfrom as written never reduces `len`.  It keeps to the caller's buffer for exactly
   * the reads that either find no more than `len` bytes waiting or fill `len` from one packet.
   */
  lemma {:induction false} UntrimmedReadFits(chunks: seq<seq<Octet>>, len: nat)
    requires len > 0
    ensures |Taken(chunks, len, false)| <= len <==> |Flat(chunks)| <= len || FirstLength(chunks) >= len
    decreases |chunks|
  {
    if chunks != [] {
      if |chunks| == 1 {
        assert Flat(chunks) == chunks[0];
      } else if |chunks[0]| < len {
        if chunks[0] == [] {
          UntrimmedReadFits(chunks[1..], len);
        } else {
          UntrimmedTakes(chunks[1..], len);
          ReadIsPrefix(chunks[1..], len, false);
        }
      }
    }
  }

  /** An untrimmed read takes everything, unless it stops at a chunk of at least `len`. */
  lemma {:induction false} UntrimmedTakes(chunks: seq<seq<Octet>>, len: nat)
    ensures |Taken(chunks, len, false)| >= len || Taken(chunks, len, false) == Flat(chunks)
    decreases |chunks|
  {
    if chunks != [] && |chunks[0]| < len {
      if |chunks| == 1 {
        assert Flat(chunks) == chunks[0];
      } else {
        UntrimmedTakes(chunks[1..], len);
      }
    }
  }

  /** No chunk stops the read: it takes all of `met` and wants more. */
  ghost predicate Wanting(met: seq<seq<Octet>>, len: nat, trims: bool) {
    if trims then |Flat(met)| < len else len > 0 && forall i {:trigger met[i]} :: 0 <= i < |met| ==> |met[i]| < len
  }

  /** What is left of `len` after such chunks. */
  ghost function Rest(met: seq<seq<Octet>>, len: nat, trims: bool): nat
    requires Wanting(met, len, trims)
  {
    if trims then len - |Flat(met)| else len
  }

  /** One more chunk adds what fits of it. */
  lemma {:induction false} TakenOnto(met: seq<seq<Octet>>, x: seq<Octet>, len: nat, trims: bool)
    requires Wanting(met, len, trims)
    ensures Taken(met + [x], len, trims) == Flat(met) + x[..Min(Rest(met, len, trims), |x|)]
    ensures |x| < Rest(met, len, trims) ==> Wanting(met + [x], len, trims)
    decreases |met|
  {
    hide Taken;
    FlatSnoc(met, x);
    TakenStep(met + [x], len, trims);
    if met == [] {
      assert met + [x] == [x];
    } else {
      hide Flat;
      FlatHead(met);
      assert (met + [x])[1..] == met[1..] + [x];
      TakenOnto(met[1..], x, if trims then len - |met[0]| else len, trims);
      assert met[0] + (Flat(met[1..]) + x[..Min(Rest(met, len, trims), |x|)])
          == Flat(met) + x[..Min(Rest(met, len, trims), |x|)];
    }
  }

  // ---------------------------------------------------------------- the socket

  ghost function PostsIn(script: seq<seq<Arrival>>): nat {
    if script == [] then 0 else PostsOf(script[0]) + PostsIn(script[1..])
  }

  ghost function PostsOf(batch: seq<Arrival>): nat {
    if batch == [] then 0 else (if batch[0].Post? then 1 else 0) + PostsOf(batch[1..])
  }

  /** The packets of a batch that a mailbox with so many free places takes. */
  ghost function Accepted(batch: seq<Arrival>, room: int): seq<seq<Octet>> {
    if batch == [] then []
    else
      match batch[0]
      case Plus => Accepted(batch[1..], room)
      case Post(data) =>
        if data == [] || room <= 0 then Accepted(batch[1..], room)
        else [data[..|data| % 0x1_0000]] + Accepted(batch[1..], room - 1)
  }

  /** How many posted packets are not counted after it, of `posted` before. */
  ghost function Uncounted(batch: seq<Arrival>, room: int, posted: nat): nat {
    if batch == [] then posted
    else
      match batch[0]
      case Plus => Uncounted(batch[1..], room, if posted > 0 then posted - 1 else 0)
      case Post(data) =>
        if data == [] || room <= 0 then Uncounted(batch[1..], room, posted)
        else Uncounted(batch[1..], room - 1, posted + 1)
  }

  /** What is waiting, packet by packet: the rest of `lastdata`, then the mailbox. */
  ghost function Chunks(lastdata: Held, lastoffset: nat, mbox: seq<seq<Octet>>): seq<seq<Octet>>
    requires lastdata.Holding? ==> lastoffset <= |lastdata.buf|
  {
    if lastdata.Holding? then [lastdata.buf[lastoffset..]] + mbox else mbox
  }

  class RecvSock {
    const isTcp: bool
    const nonblocking: bool
    const mboxSize: nat
    const trims: bool   // whether `len` is reduced by what one pass copied; false is the code as written

    var recvmbox: seq<seq<Octet>>   // payloads, each as long as its netbuf's 16-bit `len` says
    var lastdata: Held
    var lastoffset: nat
    var rcvevent: int
    var posted: nat   // packets in or through the mailbox that no notifier has counted yet
    var fetched: nat   // packets out of the mailbox that the reader has not uncounted yet

    ghost var wraps: int   // how often rcvevent went over the top, less how often under the bottom
    ghost var waiting: seq<seq<Octet>>   // what is yet to be read, packet by packet
    ghost var arrived: seq<seq<Octet>>   // every packet the mailbox ever accepted
    ghost var returned: seq<Octet>   // every byte non-peek reads of a TCP socket ever returned
    ghost var taken: nat   // datagrams consumed by non-peek reads of a UDP socket

    /** The fields represent `waiting`. */
    ghost predicate Shape()
      reads this
    {
      && |recvmbox| <= mboxSize
      && (lastdata.Holding? ==> lastoffset <= |lastdata.buf|)
      && (lastdata.Nothing? || !isTcp ==> lastoffset == 0)
      && waiting == Chunks(lastdata, lastoffset, recvmbox)
    }

    /** What was read and what waits is what arrived. */
    ghost predicate Conserved()
      reads this
    {
      && (isTcp ==> returned + Flat(waiting) == Flat(arrived))
      && (!isTcp ==> taken <= |arrived| && waiting == arrived[taken..])
    }

    /** rcvevent, an int16_t, is the mailbox's length but for the steps not yet done, up to its wraps. */
    ghost predicate Counted()
      reads `recvmbox, `rcvevent, `wraps, `posted, `fetched
    {
      -0x8000 <= rcvevent < 0x8000 && rcvevent + 0x1_0000 * wraps == |recvmbox| - posted + fetched
    }

    ghost predicate Valid()
      reads this
    {
      Shape() && Conserved() && Counted()
    }

    /** Nothing is half done: every packet in the mailbox is counted, and no other. */
    ghost predicate Settled()
      reads this
    {
      posted == 0 && fetched == 0 && mboxSize < 0x8000
    }

    constructor (isTcp: bool, nonblocking: bool, mboxSize: nat, trims: bool)
      ensures Valid() && arrived == [] && returned == [] && taken == 0
      ensures posted == 0 && fetched == 0 && waiting == [] && lastdata.Nothing?
      ensures this.isTcp == isTcp && this.nonblocking == nonblocking && this.mboxSize == mboxSize && this.trims == trims
    {
      this.isTcp, this.nonblocking, this.mboxSize, this.trims := isTcp, nonblocking, mboxSize, trims;
      recvmbox, lastdata, lastoffset, rcvevent, posted, fetched := [], Nothing, 0, 0, 0, 0;
      wraps, waiting, arrived, returned, taken := 0, [], [], [], 0;
    }

    /** salnetconn_packet_input up to the mailbox: refuses no data and a full mailbox; `len` keeps 16 bits. */
    method PacketInput(data: seq<Octet>) returns (ok: bool)
      requires Valid()
      modifies `recvmbox, `posted, `waiting, `arrived
      ensures Valid()
      ensures ok <==> data != [] && |old(recvmbox)| < mboxSize
      ensures ok ==>
                var packet := data[..|data| % 0x1_0000];
                && waiting == old(waiting) + [packet] && arrived == old(arrived) + [packet]
                && recvmbox == old(recvmbox) + [packet] && posted == old(posted) + 1
      ensures !ok ==> recvmbox == old(recvmbox) && posted == old(posted)
      ensures !ok ==> waiting == old(waiting) && arrived == old(arrived)
    {
      hide Flat;
      if data == [] { return false; }
      if |recvmbox| >= mboxSize { return false; }
      var buf := data[..|data| % 0x1_0000];
      FlatSnoc(waiting, buf);
      FlatSnoc(arrived, buf);
      assert returned + (Flat(waiting) + buf) == (returned + Flat(waiting)) + buf;
      recvmbox := recvmbox + [buf];
      posted := posted + 1;
      waiting, arrived := waiting + [buf], arrived + [buf];
      return true;
    }

    /** NETCONN_EVT_RCVPLUS for one posted packet. */
    method RcvPlus()
      requires Valid() && posted > 0
      modifies `rcvevent, `wraps, `posted
      ensures Valid() && posted == old(posted) - 1
    {
      if rcvevent == 0x7fff { rcvevent, wraps := -0x8000, wraps + 1; } else { rcvevent := rcvevent + 1; }
      posted := posted - 1;
    }

    /** NETCONN_EVT_RCVMINUS for one fetched packet. */
    method RcvMinus()
      requires Valid() && fetched > 0
      modifies `rcvevent, `wraps, `fetched
      ensures Valid() && fetched == old(fetched) - 1
    {
      if rcvevent == -0x8000 { rcvevent, wraps := 0x7fff, wraps - 1; } else { rcvevent := rcvevent - 1; }
      fetched := fetched - 1;
    }

    /** What bounds the passes of one read: packets that are, or may still be put, in its way. */
    ghost function Ahead(script: seq<seq<Arrival>>): nat
      reads this
    {
      |waiting| + PostsIn(script)
    }

    /** What other tasks do while the reader is between two of its steps. */
    method Deliver(batch: seq<Arrival>)
      requires Valid()
      modifies `recvmbox, `posted, `waiting, `arrived, `rcvevent, `wraps
      ensures Valid() && old(arrived) <= arrived && waiting == old(waiting) + arrived[|old(arrived)|..]
      ensures |waiting| <= |old(waiting)| + PostsOf(batch)
      ensures var room := mboxSize - |old(recvmbox)|;
              && arrived == old(arrived) + Accepted(batch, room) && recvmbox == old(recvmbox) + Accepted(batch, room)
              && posted == Uncounted(batch, room, old(posted))
    {
      hide Valid, Arriving, Accepted, Uncounted;
      var i := 0;
      assert batch[0..] == batch;
      NotArrived(batch);
      while i < |batch|
        invariant i <= |batch| && Valid()
        invariant old(arrived) <= arrived && waiting == old(waiting) + arrived[|old(arrived)|..]
        invariant |waiting| + PostsOf(batch[i..]) <= |old(waiting)| + PostsOf(batch)
        invariant Arriving(batch, old(arrived), old(recvmbox), old(posted), batch[i..], arrived, recvmbox, posted)
      {
        assert batch[i..][1..] == batch[i + 1..];
        ghost var a, m, p := arrived, recvmbox, posted;
        match batch[i] {
          case Post(data) => var ok := PacketInput(data);
          case Plus => if posted > 0 { RcvPlus(); }
        }
        ArrivingOn(batch, old(arrived), old(recvmbox), old(posted), batch[i..], a, m, p);
        i := i + 1;
      }
      Arrived(batch, old(arrived), old(recvmbox), old(posted));
    }

    /** With `rest` of the batch to come, what has been taken and counted is on the way to what will be. */
    ghost predicate Arriving(
      batch: seq<Arrival>, arrived0: seq<seq<Octet>>, mbox0: seq<seq<Octet>>, posted0: nat,
      rest: seq<Arrival>, a: seq<seq<Octet>>, m: seq<seq<Octet>>, p: nat)
    {
      var room, left := mboxSize - |mbox0|, mboxSize - |m|;
      && a + Accepted(rest, left) == arrived0 + Accepted(batch, room)
      && m + Accepted(rest, left) == mbox0 + Accepted(batch, room)
      && Uncounted(rest, left, p) == Uncounted(batch, room, posted0)
    }

    lemma ArrivingOn(
      batch: seq<Arrival>, arrived0: seq<seq<Octet>>, mbox0: seq<seq<Octet>>, posted0: nat,
      rest: seq<Arrival>, a: seq<seq<Octet>>, m: seq<seq<Octet>>, p: nat)
      requires Arriving(batch, arrived0, mbox0, posted0, rest, a, m, p) && rest != []
      requires match rest[0]
               case Plus => arrived == a && recvmbox == m && posted == if p > 0 then p - 1 else 0
               case Post(data) =>
                 if data == [] || |m| >= mboxSize then arrived == a && recvmbox == m && posted == p
                 else
                   var packet := data[..|data| % 0x1_0000];
                   arrived == a + [packet] && recvmbox == m + [packet] && posted == p + 1
      ensures Arriving(batch, arrived0, mbox0, posted0, rest[1..], arrived, recvmbox, posted)
    {
      var left := mboxSize - |m|;
      if rest[0].Post? && rest[0].data != [] && left > 0 {
        var packet, more := rest[0].data[..|rest[0].data| % 0x1_0000], Accepted(rest[1..], left - 1);
        assert (a + [packet]) + more == a + ([packet] + more);
        assert (m + [packet]) + more == m + ([packet] + more);
      }
    }

    lemma NotArrived(batch: seq<Arrival>)
      ensures Arriving(batch, arrived, recvmbox, posted, batch, arrived, recvmbox, posted)
    {
    }

    lemma Arrived(batch: seq<Arrival>, arrived0: seq<seq<Octet>>, mbox0: seq<seq<Octet>>, posted0: nat)
      requires Arriving(batch, arrived0, mbox0, posted0, [], arrived, recvmbox, posted)
      ensures var room := mboxSize - |mbox0|;
              && arrived == arrived0 + Accepted(batch, room) && recvmbox == mbox0 + Accepted(batch, room)
              && posted == Uncounted(batch, room, posted0)
    {
      assert arrived + [] == arrived && recvmbox + [] == recvmbox;
    }

    method Yield(script: seq<seq<Arrival>>) returns (left: seq<seq<Arrival>>)
      requires Valid()
      modifies `recvmbox, `posted, `waiting, `arrived, `rcvevent, `wraps
      ensures Valid() && old(arrived) <= arrived && waiting == old(waiting) + arrived[|old(arrived)|..]
      ensures Ahead(left) <= old(Ahead(script))
      ensures script == [] ==>
                && left == [] && arrived == old(arrived) && waiting == old(waiting) && posted == old(posted)
                && recvmbox == old(recvmbox) && rcvevent == old(rcvevent)
      ensures script != [] ==>
                var room := mboxSize - |old(recvmbox)|;
                && left == script[1..] && arrived == old(arrived) + Accepted(script[0], room)
                && recvmbox == old(recvmbox) + Accepted(script[0], room)
                && posted == Uncounted(script[0], room, old(posted))
    {
      if script == [] { return []; }
      Deliver(script[0]);
      return script[1..];
    }

    /** Moves the oldest packet out of the mailbox; no other task looks at `lastdata` before RCVMINUS is done. */
    method TakeFirst()
      requires Valid() && lastdata.Nothing? && recvmbox != []
      modifies `recvmbox, `fetched, `lastdata
      ensures Valid() && fetched == old(fetched) + 1 && lastdata.Holding?
    {
      lastdata, recvmbox, fetched := Holding(recvmbox[0]), recvmbox[1..], fetched + 1;
    }

    /** Has a buffer in `lastdata`, fetching one if need be (salnetconn_recv_data). */
    method Fill(dontwait: bool, script: seq<seq<Arrival>>) returns (r: Outcome, left: seq<seq<Arrival>>)
      requires Valid()
      modifies `recvmbox, `posted, `waiting, `arrived, `rcvevent, `wraps, `fetched, `lastdata
      ensures Valid() && fetched == old(fetched)
      ensures old(arrived) <= arrived && waiting == old(waiting) + arrived[|old(arrived)|..]
      ensures r == Received <==> lastdata.Holding?
      ensures old(lastdata).Holding? ==> lastdata == old(lastdata)
      ensures Ahead(left) <= old(Ahead(script))
      ensures old(Settled()) && script == [] ==> Settled() && left == [] && arrived == old(arrived)
      ensures r == WouldBlock ==> (dontwait || nonblocking) && rcvevent <= 0
      ensures r == TimedOut ==> waiting == []
      ensures old(lastdata).Nothing? && script != [] ==>
                old(arrived) + Accepted(script[0], mboxSize - |old(recvmbox)|) <= arrived
      ensures old(Settled()) && script == [] ==>
                r == if waiting != [] then Received else if dontwait || nonblocking then WouldBlock else TimedOut
    {
      hide Valid, PostsIn, Accepted, Uncounted;
      WaitingLength();
      left := script;
      if lastdata.Holding? { return Received, left; }
      left := Yield(left);
      WaitingLength();
      if (dontwait || nonblocking) && rcvevent <= 0 { return WouldBlock, left; }
      ghost var w, a := waiting, arrived;
      r, left := Fetch(left);
      NewsAdds(old(waiting), old(arrived), w, a, arrived);
    }

    /** salnetconn_recv_data: waits for a packet, takes it out of the mailbox and uncounts it. */
    method Fetch(script: seq<seq<Arrival>>) returns (r: Outcome, left: seq<seq<Arrival>>)
      requires Valid() && lastdata.Nothing?
      modifies `recvmbox, `posted, `waiting, `arrived, `rcvevent, `wraps, `fetched, `lastdata
      ensures Valid() && fetched == old(fetched)
      ensures old(arrived) <= arrived && waiting == old(waiting) + arrived[|old(arrived)|..]
      ensures r == if lastdata.Holding? then Received else TimedOut
      ensures var n := if r == Received then 2 else 1; left == script[Min(n, |script|)..]
      ensures r == TimedOut ==> waiting == []
      ensures script != [] ==> old(arrived) + Accepted(script[0], mboxSize - |old(recvmbox)|) <= arrived
      ensures Ahead(left) <= old(Ahead(script))
      ensures old(Settled()) && script == [] ==> Settled() && left == [] && arrived == old(arrived)
      ensures old(Settled()) && script == [] ==> (r == Received <==> waiting != [])
    {
      hide Valid, PostsIn, Accepted, Uncounted;
      left := Yield(script);
      WaitingLength();
      if recvmbox == [] { return TimedOut, left; }
      TakeFirst();
      ghost var w, a := waiting, arrived;
      left := Yield(left);
      NewsAdds(old(waiting), old(arrived), w, a, arrived);
      RcvMinus();
      return Received, left;
    }

    /** Drops `n` copied bytes of a TCP stream, or the whole datagram, from what is waiting. */
    method Consume(n: nat)
      requires Valid() && lastdata.Holding? && n <= |waiting[0]|
      modifies `lastdata, `lastoffset, `waiting, `returned, `taken
      ensures Valid()
      ensures isTcp ==> returned == old(returned) + old(waiting)[0][..n] && taken == old(taken)
      ensures !isTcp ==> returned == old(returned) && taken == old(taken) + 1
      ensures var more := isTcp && n < |old(waiting)[0]|;
              && (lastdata.Holding? <==> more)
              && waiting == (if more then [old(waiting)[0][n..]] else []) + old(waiting)[1..]
    {
      hide Flat, Counted, Conserved;
      if isTcp && |lastdata.buf| - lastoffset > n {
        Advance(n);
      } else {
        Release();
      }
    }

    method Advance(n: nat)
      requires Valid() && isTcp && lastdata.Holding? && n < |waiting[0]|
      modifies `lastoffset, `waiting, `returned
      ensures Valid() && returned == old(returned) + old(waiting)[0][..n]
      ensures waiting == [old(waiting)[0][n..]] + old(waiting)[1..]
    {
      hide Flat, Counted;
      FlatParts(waiting, n);
      returned := returned + waiting[0][..n];
      waiting := [waiting[0][n..]] + waiting[1..];
      lastoffset := lastoffset + n;
    }

    method Release()
      requires Valid() && lastdata.Holding?
      modifies `lastdata, `lastoffset, `waiting, `returned, `taken
      ensures Valid() && lastdata.Nothing? && waiting == old(waiting)[1..]
      ensures isTcp ==> returned == old(returned) + old(waiting)[0] && taken == old(taken)
      ensures !isTcp ==> returned == old(returned) && taken == old(taken) + 1
    {
      hide Flat, Counted;
      FlatHead(waiting);
      if isTcp { returned := returned + waiting[0]; } else { taken := taken + 1; }
      waiting := waiting[1..];
      lastdata := Nothing;
      lastoffset := 0;
    }

    lemma WaitingLength()
      requires Valid()
      ensures |waiting| == |recvmbox| + if lastdata.Holding? then 1 else 0
      ensures Settled() ==> rcvevent == |recvmbox|
    {
      hide Flat;
    }

    lemma HeadHeld()
      requires Valid() && lastdata.Holding?
      ensures lastoffset <= |lastdata.buf| && waiting != [] && waiting[0] == lastdata.buf[lastoffset..]
      ensures |waiting| == |recvmbox| + 1
      ensures !isTcp ==> taken < |arrived| && waiting[0] == arrived[taken]
      ensures Settled() ==> rcvevent == |recvmbox|
    {
      hide Flat;
    }

    /** The second half of a pass: copy from the first chunk, decide whether to go on, drop what was copied. */
    method CopyOut(len: nat, peek: bool, script: seq<seq<Arrival>>)
      returns (copied: seq<Octet>, done: bool, left: seq<seq<Arrival>>)
      requires Valid() && lastdata.Holding? && len > 0
      modifies `recvmbox, `posted, `arrived, `rcvevent, `wraps, `lastdata, `lastoffset, `waiting, `returned, `taken
      ensures Valid() && old(arrived) <= arrived && Ahead(left) <= old(Ahead(script))
      ensures copied == old(waiting)[0][..Min(len, |old(waiting)[0]|)]
      ensures peek ==> returned == old(returned) && taken == old(taken)
      ensures peek ==> waiting == old(waiting) + arrived[|old(arrived)|..] && lastdata == old(lastdata)
      ensures !done ==> waiting == (old(waiting) + arrived[|old(arrived)|..])[1..]
      ensures isTcp && !peek ==> returned == old(returned) + copied && taken == old(taken)
      ensures !isTcp && !peek ==>
                && returned == old(returned) && taken == old(taken) + 1
                && old(taken) < |arrived| && old(waiting)[0] == arrived[old(taken)]
      ensures !done ==> isTcp && !peek && lastdata.Nothing? && |copied| < len && Ahead(left) < old(Ahead(script))
      ensures old(Settled()) && script == [] ==> Settled() && left == [] && arrived == old(arrived)
      ensures old(Settled()) && script == [] && isTcp && !peek ==>
                && (done <==> |copied| == len || |old(waiting)| == 1) && (done || waiting == old(waiting)[1..])
      ensures isTcp && !peek ==> (done <==> |copied| == len || rcvevent <= 0)
    {
      hide Valid, PostsIn, Accepted, Uncounted;
      HeadHeld();
      ghost var head := waiting[0];
      var buflen := |lastdata.buf| - lastoffset;
      var copylen := Min(len, buflen);
      copied := lastdata.buf[lastoffset..lastoffset + copylen];
      assert copied == head[..copylen];
      left := Yield(script);
      HeadHeld();
      assert waiting[0] == head;
      done := !isTcp || len == copylen || rcvevent <= 0 || peek;
      if !peek { Consume(copylen); }
    }

    /** One pass of the loop of sal_recvfrom, for `len` more bytes; `head` is the chunk it copies from. */
    method Pass(len: nat, peek: bool, dontwait: bool, script: seq<seq<Arrival>>)
      returns (r: Outcome, copied: seq<Octet>, more: bool, left: seq<seq<Arrival>>, ghost head: seq<Octet>)
      requires Valid() && len > 0
      modifies this
      ensures Valid() && fetched == old(fetched) && old(arrived) <= arrived && Ahead(left) <= old(Ahead(script))
      ensures r != Received ==>
                && copied == [] && returned == old(returned) && taken == old(taken)
                && waiting == old(waiting) + arrived[|old(arrived)|..]
      ensures r == Received ==>
                && copied == head[..Min(len, |head|)]
                && var all := old(waiting) + arrived[|old(arrived)|..]; all != [] && head == all[0]
      ensures old(lastdata).Holding? ==> r == Received
      ensures peek ==>
                returned == old(returned) && taken == old(taken) && waiting == old(waiting) + arrived[|old(arrived)|..]
      ensures peek && r == Received ==> waiting != [] && waiting[0] == head && lastdata.Holding?
      ensures isTcp && !peek ==> returned == old(returned) + copied && taken == old(taken)
      ensures !isTcp && !peek && r == Received ==>
                && returned == old(returned) && taken == old(taken) + 1
                && old(taken) < |arrived| && head == arrived[old(taken)]
      ensures |copied| <= len
      ensures more ==> r == Received && isTcp && !peek && lastdata.Nothing? && |copied| < len
      ensures more ==> Ahead(left) < old(Ahead(script))
      ensures more ==> waiting == (old(waiting) + arrived[|old(arrived)|..])[1..]
      ensures old(Settled()) && script == [] ==> Settled() && left == [] && arrived == old(arrived)
      ensures r == WouldBlock ==> (dontwait || nonblocking) && rcvevent <= 0
      ensures r == TimedOut ==> waiting == []
      ensures r == Received && isTcp && !peek && !more ==> |head| >= len || rcvevent <= 0
      ensures old(lastdata).Nothing? && script != [] ==>
                old(arrived) + Accepted(script[0], mboxSize - |old(recvmbox)|) <= arrived
      ensures old(Settled()) && script == [] ==>
                r == if old(waiting) != [] then Received else if dontwait || nonblocking then WouldBlock else TimedOut
      ensures old(Settled()) && script == [] && more ==> waiting != []
      ensures old(Settled()) && script == [] && isTcp && !peek ==>
                Taken(old(waiting), len, trims)
                   == copied + if more then Taken(waiting, if trims then len - |copied| else len, trims) else []
    {
      hide Valid, PostsIn, Accepted, Uncounted, Taken;
      head, copied, more := [], [], false;
      r, left := Fill(dontwait, script);
      ghost var c, a := waiting, arrived;
      NoNews(old(waiting), old(arrived));
      if r == Received {
        HeadHeld();
        head := waiting[0];
        var done;
        copied, done, left := CopyOut(len, peek, left);
        more := !done;
        NewsAdds(old(waiting), old(arrived), c, a, arrived);
      }
      TakenStep(c, len, trims);
    }

    static lemma NoNews(w: seq<seq<Octet>>, a: seq<seq<Octet>>)
      ensures w + a[|a|..] == w
    {
    }

    static lemma NewsAdds(
      w: seq<seq<Octet>>, a: seq<seq<Octet>>, w': seq<seq<Octet>>, a': seq<seq<Octet>>, a'': seq<seq<Octet>>)
      requires a <= a' <= a'' && w' == w + a'[|a|..]
      ensures w' + a''[|a'|..] == w + a''[|a|..]
      ensures w' != [] ==> (w + a''[|a|..])[0] == w'[0]
    {
    }

    /** Between two passes: `data` is what was taken of the chunks met, the first of `all`. */
    ghost predicate Midway(
      all: seq<seq<Octet>>, met: seq<seq<Octet>>, rest: seq<seq<Octet>>, data: seq<Octet>, len: nat,
      left: nat, more: bool)
    {
      && met <= all && data == Taken(met, len, trims)
      && (more ==>
            rest == all[|met|..] && Wanting(met, len, trims) && data == Flat(met) && left == Rest(met, len, trims))
    }

    lemma NothingMet(len: nat)
      requires len > 0
      ensures Midway(waiting + arrived[|arrived|..], [], waiting, [], len, len, true)
    {
    }

    lemma MidwayEnds(
      all: seq<seq<Octet>>, met: seq<seq<Octet>>, rest: seq<seq<Octet>>, data: seq<Octet>, len: nat,
      left: nat, more: bool)
      requires Midway(all, met, rest, data, len, left, more)
      ensures met <= all && data == Taken(met, len, trims)
    {
    }

    /** A pass that meets nothing, while `a` has grown to `a'` to `a''`. */
    lemma MetNone(
      w: seq<seq<Octet>>, a: seq<seq<Octet>>, a': seq<seq<Octet>>, a'': seq<seq<Octet>>, met: seq<seq<Octet>>,
      here: seq<seq<Octet>>, data: seq<Octet>, len: nat, left: nat, rest: seq<seq<Octet>>, left': nat)
      requires a <= a' <= a'' && Midway(w + a'[|a|..], met, here, data, len, left, true)
      ensures Midway(w + a''[|a|..], met, rest, data + [], len, left', false)
    {
      hide Flat, Taken, Wanting;
      assert w + a''[|a|..] == (w + a'[|a|..]) + a''[|a'|..];
      assert data + [] == data;
    }

    /** A pass that copies from the chunk after those met. */
    lemma MetOne(
      w: seq<seq<Octet>>, a: seq<seq<Octet>>, a': seq<seq<Octet>>, a'': seq<seq<Octet>>, met: seq<seq<Octet>>,
      here: seq<seq<Octet>>, data: seq<Octet>, len: nat, left: nat, rest: seq<seq<Octet>>, left': nat,
      head: seq<Octet>, more: bool)
      requires a <= a' <= a'' && Midway(w + a'[|a|..], met, here, data, len, left, true)
      requires here + a''[|a'|..] != [] && head == (here + a''[|a'|..])[0]
      requires more ==> rest == (here + a''[|a'|..])[1..] && |head| < left
      requires left' == left - if trims then Min(left, |head|) else 0
      ensures Midway(w + a''[|a|..], met + [head], rest, data + head[..Min(left, |head|)], len, left', more)
      ensures |head| >= left ==> !Wanting(met + [head], len, trims)
    {
      hide Flat, Taken, Wanting, Rest;
      MeetsNext(w, a, met, a', a'');
      MeetsOne(met, head, len);
    }

    static lemma MeetsNext(
      w: seq<seq<Octet>>, a: seq<seq<Octet>>, met: seq<seq<Octet>>, a': seq<seq<Octet>>, a'': seq<seq<Octet>>)
      requires a <= a' <= a'' && met <= w + a'[|a|..]
      ensures var all, here := w + a''[|a|..], (w + a'[|a|..])[|met|..] + a''[|a'|..];
              here != [] ==> met + [here[0]] <= all && here[1..] == all[|met + [here[0]]|..]
    {
      assert w + a''[|a|..] == (w + a'[|a|..]) + a''[|a'|..];
    }

    lemma MeetsOne(met: seq<seq<Octet>>, head: seq<Octet>, len: nat)
      requires Wanting(met, len, trims)
      ensures var left := Rest(met, len, trims);
              && Taken(met + [head], len, trims) == Flat(met) + head[..Min(left, |head|)]
              && (|head| >= left ==> !Wanting(met + [head], len, trims))
              && (|head| < left ==>
                    && Wanting(met + [head], len, trims) && Flat(met + [head]) == Flat(met) + head
                    && Rest(met + [head], len, trims) == left - if trims then |head| else 0)
    {
      hide Flat, Taken;
      TakenOnto(met, head, len, trims);
      FlatSnoc(met, head);
      assert (met + [head])[|met|] == head;
    }

    /** The further passes of a TCP read, once one pass has emptied its chunk and found more counted. */
    method ReadOn(len: nat, dontwait: bool, script: seq<seq<Arrival>>)
      returns (r: Outcome, data: seq<Octet>, ghost met: seq<seq<Octet>>)
      requires Valid() && isTcp && lastdata.Nothing? && len > 0
      modifies this
      ensures Valid() && fetched == old(fetched) && old(arrived) <= arrived
      ensures returned == old(returned) + data && taken == old(taken)
      ensures met <= old(waiting) + arrived[|old(arrived)|..] && data == Taken(met, len, trims)
      ensures trims ==> |data| <= len
      ensures r == WouldBlock ==> (dontwait || nonblocking) && rcvevent <= 0
      ensures r == TimedOut ==> waiting == []
      ensures !Wanting(met, len, trims) || rcvevent <= 0 || waiting == []
      ensures old(Settled()) && script == [] ==> Settled() && arrived == old(arrived)
      ensures old(Settled()) && script == [] && old(waiting) != [] ==> r == Received
      ensures old(Settled()) && script == [] ==> data == Taken(old(waiting), len, trims)
    {
      hide Valid, PostsIn, Accepted, Uncounted, Taken, Shape, Conserved, Counted, Midway, Wanting;
      var copied, more, s := [], true, script;
      r := Received;
      var left: nat := len;
      ghost var quiet, head := Settled() && script == [], [];
      data, met := [], [];
      NothingMet(len);
      while more
        invariant Valid() && fetched == old(fetched) && old(arrived) <= arrived
        invariant returned == old(returned) + data && taken == old(taken)
        invariant (more ==> left > 0) && left == len - if trims then |data| else 0
        invariant Midway(old(waiting) + arrived[|old(arrived)|..], met, waiting, data, len, left, more)
        invariant r == WouldBlock ==> (dontwait || nonblocking) && rcvevent <= 0
        invariant r == TimedOut ==> waiting == []
        invariant more || !Wanting(met, len, trims) || rcvevent <= 0 || waiting == []
        invariant quiet ==> Settled() && s == [] && arrived == old(arrived)
        invariant quiet && old(waiting) != [] ==> r == Received && (more ==> waiting != [])
        invariant quiet ==> data + (if more then Taken(waiting, left, trims) else []) == Taken(old(waiting), len, trims)
        decreases more, Ahead(s)
      {
        ghost var a, w := arrived, waiting;
        r, copied, more, s, head := Pass(left, false, dontwait, s);
        ghost var had := left;
        if trims { left := left - |copied|; }
        if r == Received {
          MetOne(old(waiting), old(arrived), a, arrived, met, w, data, len, had, waiting, left, head, more);
          met := met + [head];
        } else {
          MetNone(old(waiting), old(arrived), a, arrived, met, w, data, len, had, waiting, left);
        }
        ghost var rest := if more then Taken(waiting, left, trims) else [];
        assert (data + copied) + rest == data + (copied + rest);
        data := data + copied;
      }
      MidwayEnds(old(waiting) + arrived[|old(arrived)|..], met, waiting, data, len, left, more);
    }

    /** What the first pass met, and then the others, in one. */
    static lemma FirstMet(
      w: seq<seq<Octet>>, a: seq<seq<Octet>>, w': seq<seq<Octet>>, a': seq<seq<Octet>>, a'': seq<seq<Octet>>,
      met: seq<seq<Octet>>)
      requires a <= a' <= a'' && w + a'[|a|..] != [] && w' == (w + a'[|a|..])[1..] && met <= w' + a''[|a'|..]
      ensures [(w + a'[|a|..])[0]] + met <= w + a''[|a|..]
    {
      assert w + a''[|a|..] == (w + a'[|a|..]) + a''[|a'|..];
    }

    /** A chunk that did not fill `len`, and what was taken of those behind it. */
    static lemma TakenBehind(head: seq<Octet>, met: seq<seq<Octet>>, len: nat, trims: bool)
      requires |head| < len
      ensures Taken([head] + met, len, trims) == head + Taken(met, if trims then len - |head| else len, trims)
      ensures !Wanting(met, if trims then len - |head| else len, trims) ==> !Wanting([head] + met, len, trims)
    {
      FlatHead([head] + met);
      assert forall i {:trigger met[i]} :: 0 <= i < |met| ==> met[i] == ([head] + met)[i + 1];
      assert ([head] + met)[1..] == met;
    }

    /**
     * sal_recvfrom.  `script` holds, batch by batch, what other tasks do before the reader looks
     * at the counter, while it waits for a packet, between its fetch and its RCVMINUS, and before it
     * decides whether to go on.
     */
    method RecvFrom(len: nat, peek: bool, dontwait: bool, script: seq<seq<Arrival>>)
      returns (r: Outcome, data: seq<Octet>, ghost met: seq<seq<Octet>>)
      requires Valid() && len > 0
      modifies this
      ensures Valid() && fetched == old(fetched) && old(arrived) <= arrived
      // nothing lost: with Valid, what non-peek reads returned and what waits is what arrived
      ensures r != Received ==> data == [] && returned == old(returned) && taken == old(taken)
      ensures isTcp && !peek ==> returned == old(returned) + data && taken == old(taken)
      ensures peek ==>
                returned == old(returned) && taken == old(taken) && waiting == old(waiting) + arrived[|old(arrived)|..]
      // what comes back: of the chunks that the read met, the first of what waited and came in
      ensures isTcp && !peek ==>
                met <= old(waiting) + arrived[|old(arrived)|..] && data == Taken(met, len, trims)
      ensures trims || !isTcp || peek ==> |data| <= len
      // the code as written, which does not trim, keeps to the buffer just for these
      ensures isTcp && !peek && !trims ==> (|data| <= len <==> |Flat(met)| <= len || FirstLength(met) >= len)
      ensures isTcp && !peek && old(waiting) != [] && |old(waiting)[0]| >= len && r == Received ==>
                data == old(waiting)[0][..len]
      ensures !isTcp && !peek && r == Received ==>
                taken == old(taken) + 1 && old(taken) < |arrived|
                && data == arrived[old(taken)][..Min(len, |arrived[old(taken)]|)]
      ensures peek && r == Received ==>
                lastdata.Holding? && waiting != [] && data == waiting[0][..Min(len, |waiting[0]|)]
      ensures old(lastdata).Holding? && old(waiting) != [] ==>
                old(waiting)[0][..Min(len, |old(waiting)[0]|)] <= data
      // it ends for a reason
      ensures r == WouldBlock ==> (dontwait || nonblocking) && rcvevent <= 0
      ensures r == TimedOut ==> waiting == []
      ensures isTcp && !peek ==> !Wanting(met, len, trims) || rcvevent <= 0 || waiting == []
      // with no buffer held, what comes in first is there before it looks
      ensures old(lastdata).Nothing? && script != [] ==>
                old(arrived) + Accepted(script[0], mboxSize - |old(recvmbox)|) <= arrived
      // a quiet read
      ensures old(Settled()) && script == [] ==> Settled() && arrived == old(arrived)
      ensures old(Settled()) && script == [] ==>
                r == if old(waiting) != [] then Received else if dontwait || nonblocking then WouldBlock else TimedOut
      ensures old(Settled()) && script == [] && isTcp && !peek ==> data == Taken(old(waiting), len, trims)
    {
      hide Valid, PostsIn, Accepted, Uncounted, Taken, Flat, FirstLength, Wanting, Settled;
      var more, s;
      ghost var head;
      r, data, more, s, head := Pass(len, peek, dontwait, script);
      met := if r == Received then [head] else [];
      TakenOne(head, len);
      if more {
        ghost var w, a := waiting, arrived;
        var rest;
        ghost var behind;
        r, rest, behind := ReadOn(if trims then len - |data| else len, dontwait, s);
        FirstMet(old(waiting), old(arrived), w, a, arrived, behind);
        TakenBehind(head, behind, len, trims);
        met := met + behind;
        data := data + rest;
      }
      if |data| > 0 { r := Received; }
      UntrimmedReadFits(met, len);
    }

    lemma TakenOne(head: seq<Octet>, len: nat)
      ensures Taken([], len, trims) == [] && Taken([head], len, trims) == head[..Min(len, |head|)]
      ensures |head| >= len ==> !Wanting([head], len, trims)
    {
      assert [head][0] == head && Flat([head]) == head + Flat([head][1..]);
    }
  }

  /** rcvevent is the mailbox's length just when as many posts as fetches, modulo 2^16, are not counted yet. */
  lemma CounterIsLength(k: RecvSock)
    requires k.Valid() && k.mboxSize < 0x8000
    ensures k.rcvevent == |k.recvmbox| <==> (k.posted - k.fetched) % 0x1_0000 == 0
  {
    hide Flat;
  }

  /** Whatever arrives before, between and during the calls: a peek shows a prefix of what the next read returns. */
  method PeekThenRead(sock: RecvSock, len: nat, dontwait: bool, script: seq<seq<Arrival>>, script': seq<seq<Arrival>>)
    returns (peeked: seq<Octet>, read: seq<Octet>)
    requires sock.Valid() && len > 0
    modifies sock
    ensures sock.Valid() && peeked <= read
    ensures sock.isTcp ==> sock.returned == old(sock.returned) + read
    // when nothing else happens, the first chunk, and then what a read takes
    ensures old(sock.Settled()) && script == script' == [] && old(sock.waiting) != [] ==>
              && peeked == old(sock.waiting)[0][..Min(len, |old(sock.waiting)[0]|)]
              && read == if sock.isTcp then Taken(old(sock.waiting), len, sock.trims) else peeked
  {
    var r, r';
    ghost var met;
    r, peeked, met := sock.RecvFrom(len, true, dontwait, script);
    ghost var waiting := sock.waiting;
    RecvSock.NoNews(old(sock.waiting), old(sock.arrived));
    if r == Received {
      sock.HeadHeld();
    }
    r', read, met := sock.RecvFrom(len, false, dontwait, script');
    if r == Received {
      assert peeked == waiting[0][..Min(len, |waiting[0]|)];
    }
  }

  /** sal_recvfrom as written: two packets of two bytes wait, and a read of three bytes copies four. */
  method UntrimmedReadOverruns() returns (sock: RecvSock, data: seq<Octet>)
    ensures sock.Valid() && sock.Settled() && sock.arrived == [[1, 2], [3, 4]]
    ensures data == [1, 2, 3, 4] && sock.returned == data
  {
    hide Taken, Flat;
    sock := new RecvSock(true, false, 8, false);
    sock.WaitingLength();
    Arrive(sock, [1, 2]);
    Arrive(sock, [3, 4]);
    assert sock.waiting == [[1, 2], [3, 4]];
    UntrimmedTaken();
    var r;
    ghost var met;
    r, data, met := sock.RecvFrom(3, false, false, []);
  }

  lemma UntrimmedTaken()
    ensures Taken([[1, 2], [3, 4]], 3, false) == [1, 2, 3, 4]
  {
    assert [[1, 2], [3, 4]][1..] == [[3, 4]];
  }

  lemma Short(data: seq<Octet>)
    requires |data| < 0x1_0000
    ensures data[..|data| % 0x1_0000] == data
  {
  }

  /** A packet comes in and is counted. */
  method Arrive(sock: RecvSock, data: seq<Octet>)
    requires sock.Valid() && sock.Settled() && 0 < |data| < 0x1_0000 && |sock.recvmbox| < sock.mboxSize
    modifies sock
    ensures sock.Valid() && sock.Settled() && |sock.recvmbox| == |old(sock.recvmbox)| + 1
    ensures sock.waiting == old(sock.waiting) + [data] && sock.arrived == old(sock.arrived) + [data]
    ensures sock.returned == old(sock.returned)
  {
    hide Flat, RecvSock.Valid;
    Short(data);
    var ok := sock.PacketInput(data);
    sock.RcvPlus();
  }
}
