/** MQTT-SN framing as the gateway service uses it, and the strings inside a PUBLISH. */
module MqttSn {
  import opened Common

  const ADVERTISE: Octet := 0
  const CONNECT: Octet := 4
  const CONNACK: Octet := 5
  const PUBLISH: Octet := 12
  const BUF_LEN := 256

  // ---------------------------------------------------------------- framing

  function HeaderLen(msgType: Octet): nat {
    if msgType == PUBLISH then 5
    else if msgType == CONNECT then 4
    else if msgType == CONNACK then 1
    else if msgType == ADVERTISE then 3
    else 0
  }

  /** A message with a body (header and payload); the length octet is one more than the whole, modulo 256. */
  function Framed(msgType: Octet, body: seq<Octet>): (m: seq<Octet>)
    ensures |m| == 2 + |body| && m[1] == msgType && m[2..] == body
  {
    [(2 + |body| + 1) % 256, msgType] + body
  }

  /** The bodies of the four messages the service uses, with a payload behind their fields. */
  datatype Body =
    | Publish(flags: Octet, topicId: (Octet, Octet), msgId: (Octet, Octet), payload: seq<Octet>)
    | Connect(flags: Octet, protocolId: Octet, duration: (Octet, Octet), payload: seq<Octet>)
    | ConnAck(returnCode: Octet, payload: seq<Octet>)
    | Advertise(gwId: Octet, duration: (Octet, Octet), payload: seq<Octet>)
  {
    function MsgType(): Octet {
      match this
      case Publish(_, _, _, _) => 12
      case Connect(_, _, _, _) => 4
      case ConnAck(_, _) => 5
      case Advertise(_, _, _) => 0
    }

    /** Packed, field behind field. */
    function Octets(): seq<Octet> {
      match this
      case Publish(flags, topicId, msgId, data) => [flags, topicId.0, topicId.1, msgId.0, msgId.1] + data
      case Connect(flags, protocolId, duration, data) => [flags, protocolId, duration.0, duration.1] + data
      case ConnAck(returnCode, data) => [returnCode] + data
      case Advertise(gwId, duration, data) => [gwId, duration.0, duration.1] + data
    }

    /** HeaderLen is the length of the fields. */
    lemma FieldsFit()
      ensures |Octets()| == HeaderLen(MsgType()) + |payload|
    {
    }
  }

  /** Other messages have no fields. */
  lemma OtherTypes(msgType: Octet)
    ensures HeaderLen(msgType) == 0 <== forall body: Body :: body.MsgType() != msgType
  {
    assert Publish(0, (0, 0), (0, 0), []).MsgType() == 12 && Connect(0, 0, (0, 0), []).MsgType() == 4;
    assert ConnAck(0, []).MsgType() == 5 && Advertise(0, (0, 0), []).MsgType() == 0;
  }

  /** msn_alloc: a buffer with its first two octets set; what is behind them is for the caller to fill. */
  method Alloc(msgType: Octet, payloadLen: nat) returns (buf: array<Octet>)
    ensures fresh(buf) && buf.Length == 2 + HeaderLen(msgType) + payloadLen
    ensures buf[..] == Framed(msgType, buf[2..])
    // it has room for the fields of that message and the payload, and no more
    ensures forall body: Body :: body.MsgType() == msgType && |body.payload| == payloadLen ==>
              buf.Length == 2 + |body.Octets()|
    ensures (forall body: Body :: body.MsgType() != msgType) ==> buf.Length == 2 + payloadLen
  {
    forall body: Body | body.MsgType() == msgType ensures |body.Octets()| == HeaderLen(msgType) + |body.payload| {
      body.FieldsFit();
    }
    OtherTypes(msgType);
    var len := 2 + HeaderLen(msgType) + payloadLen;
    buf := new Octet[len](_ => 0);
    buf[0] := (len + 1) % 256;
    buf[1] := msgType;
  }

  /** msn_parse_header: the length found, or -1, and where the message type should be. */
  function Parsed(b: seq<Octet>, l: nat): (int, nat)
    requires |b| >= 3
  {
    var len: int := if b[0] == 1 then (b[1] as int) * 256 + b[2] else (b[0] as int) - 1;
    var start := if b[0] == 1 then 3 else 1;
    (if l != len && l != len + 3 then -1 else len, start)
  }

  lemma ParsedStart(b: seq<Octet>, l: nat)
    requires |b| >= 3
    ensures 1 <= Parsed(b, l).1 <= 3
  {
  }

  /** What recvfrom leaves in the receive buffer: at most 256 octets of the datagram, over older contents. */
  ghost predicate Received(b: seq<Octet>, l: nat, m: seq<Octet>) {
    |b| == BUF_LEN && l == (if |m| < BUF_LEN then |m| else BUF_LEN) && b[..l] == m[..l]
  }

  lemma ReceivedSize(b: seq<Octet>, l: nat, m: seq<Octet>)
    requires Received(b, l, m)
    ensures |b| == BUF_LEN
  {
  }

  /** A message comes out as it went in, its type where the parser says, up to 254 octets in all. */
  lemma FramingRoundTrip(msgType: Octet, body: seq<Octet>, b: seq<Octet>, l: nat)
    requires Received(b, l, Framed(msgType, body)) && 2 + |body| <= 254
    ensures Parsed(b, l) == (2 + |body|, 1)
    ensures b[1] == msgType && b[2..l] == body
  {
    var m := Framed(msgType, body);
    assert m[..l] == m && b[0] == b[..l][0] && b[1] == b[..l][1];
    assert b[2..l] == b[..l][2..];
  }

  /** The message lengths for which a receiver finds the type octet. */
  predicate Parses(len: nat) { len <= 254 || (len > 256 && len % 256 == 253) }

  /**
   * The exact condition. Beyond 254 octets the parser is lost, but for datagrams cut off at 256 whose
   * length octet happens to say 253: those pass, short of their tail.
   */
  lemma FramingLimit(msgType: Octet, body: seq<Octet>, b: seq<Octet>, l: nat)
    requires Received(b, l, Framed(msgType, body))
    ensures var (ret, start) := Parsed(b, l);
            ret >= 0 && start == 1 <==> Parses(2 + |body|)
  {
    var m := Framed(msgType, body);
    assert b[0] == b[..l][0] == m[0] && b[1] == b[..l][1] == m[1];
    if |body| > 2 {
      assert b[2] == b[..l][2];
    }
  }

  /**
   * msn_parse_header: a framed message parses just when its length is right for it, and then yields its
   * type and body.
   */
  method ParseHeader(buf: array<Octet>, l: nat) returns (ret: int, start: nat)
    requires buf.Length == BUF_LEN
    ensures (ret, start) == Parsed(buf[..], l)
    ensures forall msgType, body {:trigger Framed(msgType, body)} :: Received(buf[..], l, Framed(msgType, body)) ==>
              (ret >= 0 && start == 1 <==> Parses(2 + |body|))
    ensures forall msgType, body {:trigger Framed(msgType, body)} ::
              Received(buf[..], l, Framed(msgType, body)) && 2 + |body| <= 254 ==>
              ret == l && buf[start] == msgType && buf[start + 1..l] == body
  {
    forall msgType, body | Received(buf[..], l, Framed(msgType, body))
      ensures var (ret, start) := Parsed(buf[..], l); ret >= 0 && start == 1 <==> Parses(2 + |body|)
      ensures 2 + |body| <= 254 ==> Parsed(buf[..], l) == (l, 1) && buf[1] == msgType && buf[2..l] == body
    {
      FramingLimit(msgType, body, buf[..], l);
      if 2 + |body| <= 254 {
        FramingRoundTrip(msgType, body, buf[..], l);
        assert buf[..][2..l] == buf[2..l];
      }
    }
    start := 0;
    var len: int := buf[start];
    start := start + 1;
    if len == 1 {
      len := buf[start];
      start := start + 1;
      len := len * 256;
      len := len + buf[start];
      start := start + 1;
    } else {
      len := len - 1;
    }
    ret := if l != len && l != len + 3 then -1 else len;
  }

  // ---------------------------------------------------------------- the strings of a PUBLISH

  /** The C string `s` lies at `i`. */
  ghost predicate CStringAt(b: seq<Octet>, i: nat, s: seq<Octet>) {
    i + |s| < |b| && b[i..i + |s|] == s && b[i + |s|] == 0 && 0 !in s
  }

  lemma CStringChars(b: seq<Octet>, i: nat, s: seq<Octet>)
    requires CStringAt(b, i, s)
    ensures forall k :: i <= k < i + |s| ==> b[k] != 0
  {
    assert forall k :: i <= k < i + |s| ==> b[k] == b[i..i + |s|][k - i] == s[k - i];
  }

  lemma CStringUnique(b: seq<Octet>, i: nat, s: seq<Octet>, t: seq<Octet>)
    requires CStringAt(b, i, s) && CStringAt(b, i, t)
    ensures s == t
  {
    CStringChars(b, i, s);
    CStringChars(b, i, t);
  }

  const RPT: seq<Octet> := [114, 112, 116]
  const GET: seq<Octet> := [103, 101, 116]
  const SET: seq<Octet> := [115, 101, 116]

  /** The payload both senders build: three strings with their terminators. */
  function Packed(op: seq<Octet>, name: seq<Octet>, value: seq<Octet>): seq<Octet> {
    op + [0] + name + [0] + value + [0]
  }

  method Copy(dst: array<Octet>, at: nat, src: seq<Octet>)
    requires at + |src| <= dst.Length
    modifies dst
    ensures dst[..] == old(dst[..at]) + src + old(dst[at + |src|..])
  {
    forall i | 0 <= i < |src| { dst[at + i] := src[i]; }
  }

  /** The sending half of aos_cloud_set_attr and gateway_cloud_report: `op` is "set" or "rpt". */
  method PackPublish(op: seq<Octet>, name: seq<Octet>, value: seq<Octet>) returns (buf: array<Octet>)
    requires |op| == 3
    ensures fresh(buf) && buf.Length == 13 + |name| + |value|
    ensures exists header :: |header| == 5 && buf[..] == Framed(PUBLISH, header + Packed(op, name, value))
  {
    buf := Alloc(PUBLISH, 4 + |name| + 1 + |value| + 1);
    ghost var header := buf[2..7];
    ghost var all := buf[..];
    Copy(buf, 7, op + [0]);
    Copy(buf, 11, name + [0]);
    ghost var most := buf[..];
    Appended(all, 7, op + [0], name + [0], most);
    Copy(buf, 12 + |name|, value + [0]);
    PackedWhole(all, op, name, value, buf[..]);
  }

  lemma Appended(all: seq<Octet>, at: nat, s: seq<Octet>, t: seq<Octet>, now: seq<Octet>)
    requires at + |s| + |t| <= |all|
    requires var mid := all[..at] + s + all[at + |s|..];
             now == mid[..at + |s|] + t + mid[at + |s| + |t|..]
    ensures now == all[..at] + s + t + all[at + |s| + |t|..]
  {
    var mid := all[..at] + s + all[at + |s|..];
    assert mid[..at + |s|] == all[..at] + s;
    assert mid[at + |s| + |t|..] == all[at + |s| + |t|..];
  }

  lemma PackedWhole(all: seq<Octet>, op: seq<Octet>, name: seq<Octet>, value: seq<Octet>, now: seq<Octet>)
    requires |op| == 3 && |all| == 13 + |name| + |value| && all == Framed(PUBLISH, all[2..])
    requires var most := all[..7] + (op + [0]) + (name + [0]) + all[12 + |name|..];
             now == most[..12 + |name|] + (value + [0]) + most[|all|..]
    ensures now == Framed(PUBLISH, all[2..7] + Packed(op, name, value))
  {
    var most := all[..7] + (op + [0]) + (name + [0]) + all[12 + |name|..];
    assert most[..12 + |name|] == all[..7] + (op + [0]) + (name + [0]);
    assert all[..7] == all[..2] + all[2..7];
    assert all[..2] == Framed(PUBLISH, all[2..])[..2];
    assert all[2..7] + Packed(op, name, value) == all[2..7] + (op + [0]) + (name + [0]) + (value + [0]);
  }

  /** The C string from `i` on, if it ends within the buffer. */
  function CString(b: seq<Octet>, i: nat): (r: Option<seq<Octet>>)
    requires i <= |b|
    decreases |b| - i
  {
    if i == |b| then None
    else if b[i] == 0 then Some([])
    else
      var rest := CString(b, i + 1);
      if rest.None? then None else Some([b[i]] + rest.value)
  }

  ghost predicate NoStringAt(b: seq<Octet>, i: nat) { forall k :: i <= k < |b| ==> b[k] != 0 }

  /** A string is found if and only if it is there. */
  lemma {:induction false} CStringFinds(b: seq<Octet>, i: nat)
    requires i <= |b|
    ensures CString(b, i).Some? ==> CStringAt(b, i, CString(b, i).value)
    ensures CString(b, i).None? <==> NoStringAt(b, i)
    decreases |b| - i
  {
    if i < |b| && b[i] != 0 {
      CStringFinds(b, i + 1);
    }
  }

  lemma CStringIs(b: seq<Octet>, i: nat, s: seq<Octet>)
    requires CStringAt(b, i, s)
    ensures CString(b, i) == Some(s)
  {
    CStringFinds(b, i);
    if CString(b, i).Some? {
      CStringUnique(b, i, s, CString(b, i).value);
    }
  }

  /** strlen and the string itself, or None when the array ends first. */
  method ReadCString(buf: array<Octet>, i: nat) returns (r: Option<seq<Octet>>)
    requires i <= buf.Length
    ensures r == CString(buf[..], i)
  {
    var end := i;
    while end < buf.Length && buf[end] != 0
      invariant i <= end <= buf.Length
      invariant forall k :: i <= k < end ==> buf[k] != 0
    {
      end := end + 1;
    }
    CStringFinds(buf[..], i);
    if end == buf.Length {
      return None;
    }
    assert buf[..][i..end] == buf[i..end];
    CStringIs(buf[..], i, buf[i..end]);
    return Some(buf[i..end]);
  }

  datatype Handled =
    | Stray // a report at a node that is no gateway
    | Unknown // a report from an address no client has
    | Posted(text: seq<Octet>)
    | Asked(name: seq<Octet>)
    | Told(name: seq<Octet>, value: seq<Octet>) // the value only goes to the log
    | Ignored
    | PastBuffer // a string that does not end in the receive buffer was needed

  const UUID_OPEN: seq<Octet> := [123, 34, 117, 117, 105, 100, 34, 58, 34] // {"uuid":"
  const UUID_CLOSE: seq<Octet> := [34, 44] // ",

  /** What snprintf leaves of the text when its buffer has `value` octets for the tail, and 20 to spare. */
  function PostText(uuid: seq<Octet>, tail: seq<Octet>, value: nat): seq<Octet> {
    UUID_OPEN + uuid + UUID_CLOSE + if |tail| <= value + 20 then tail else tail[..value + 20]
  }

  /** It is the whole text, cut to a buffer for the format, the UUID, the value and 16 octets more. */
  lemma PostTextFits(uuid: seq<Octet>, tail: seq<Octet>, value: nat)
    ensures var full, size := UUID_OPEN + uuid + UUID_CLOSE + tail, 16 + |uuid| + value + 16;
            PostText(uuid, tail, value) == if |full| < size then full else full[..size - 1]
  {
  }

  /**
   * handle_publish on any buffer; `at` is the octet behind the message type.  A report's value loses its
   * first character to the sender's UUID, and when it has none, its terminator.
   */
  function Handle(b: seq<Octet>, at: nat, gatewayMode: bool, uuid: Option<seq<Octet>>): Handled
    requires at + 9 <= |b|
  {
    var op, name := b[at + 5..at + 9], CString(b, at + 9);
    if name.None? then PastBuffer
    else if op == RPT + [0] then
      if !gatewayMode then Stray
      else if uuid.None? then Unknown
      else Report(b, at + 9 + |name.value| + 1, uuid.value)
    else if op == GET + [0] then Asked(name.value)
    else if op == SET + [0] then
      var value := Behind(b, at + 9 + |name.value| + 1);
      if value.None? then PastBuffer else Told(name.value, value.value)
    else Ignored
  }

  function Report(b: seq<Octet>, place: nat, uuid: seq<Octet>): Handled {
    var value, tail := Behind(b, place), Behind(b, place + 1);
    if value.None? || tail.None? then PastBuffer else Posted(PostText(uuid, tail.value, |value.value|))
  }

  /** The C string from `i` on; there is none where the buffer has ended. */
  function Behind(b: seq<Octet>, i: nat): Option<seq<Octet>> { if i <= |b| then CString(b, i) else None }

  /** What each operation comes to when the three strings say it all. */
  function Meaning(op: seq<Octet>, name: seq<Octet>, value: seq<Octet>,
                   gatewayMode: bool, uuid: Option<seq<Octet>>): Handled
    requires !EmptyReport(op, value, gatewayMode, uuid)
  {
    if op == RPT then
      if !gatewayMode then Stray
      else if uuid.None? then Unknown
      else Posted(UUID_OPEN + uuid.value + UUID_CLOSE + value[1..])
    else if op == GET then Asked(name)
    else if op == SET then Told(name, value)
    else Ignored
  }

  /** A report without a value that a gateway takes from a client it knows. */
  predicate EmptyReport(op: seq<Octet>, value: seq<Octet>, gatewayMode: bool, uuid: Option<seq<Octet>>) {
    op == RPT && value == [] && gatewayMode && uuid.Some?
  }

  /** The three strings lie where handle_publish looks for them. */
  ghost predicate StringsAt(b: seq<Octet>, at: nat, op: seq<Octet>, name: seq<Octet>, value: seq<Octet>) {
    |op| == 3 && CStringAt(b, at + 5, op) && CStringAt(b, at + 9, name) && CStringAt(b, at + 10 + |name|, value)
  }

  /** They decide what is done, but for an empty report: it posts what lies behind them. */
  lemma HandleMeans(b: seq<Octet>, at: nat, op: seq<Octet>, name: seq<Octet>, value: seq<Octet>,
                    gatewayMode: bool, uuid: Option<seq<Octet>>)
    requires StringsAt(b, at, op, name, value)
    ensures !EmptyReport(op, value, gatewayMode, uuid) ==>
              Handle(b, at, gatewayMode, uuid) == Meaning(op, name, value, gatewayMode, uuid)
    ensures EmptyReport(op, value, gatewayMode, uuid) ==>
              && (forall t :: CStringAt(b, at + 11 + |name|, t) ==>
                    Handle(b, at, gatewayMode, uuid) == Posted(PostText(uuid.value, t, 0)))
              && (NoStringAt(b, at + 11 + |name|) ==>
                    Handle(b, at, gatewayMode, uuid) == PastBuffer)
  {
    hide PostText, Report, CString;
    assert b[at + 5..at + 9] == op + [0];
    OpsDiffer(op);
    CStringIs(b, at + 9, name);
    CStringIs(b, at + 10 + |name|, value);
    if EmptyReport(op, value, gatewayMode, uuid) {
      EmptyValue(b, at + 10 + |name|, uuid.value);
    } else if op == RPT && gatewayMode && uuid.Some? {
      ValueTail(b, at + 10 + |name|, value, uuid.value);
    }
  }

  lemma ValueTail(b: seq<Octet>, place: nat, value: seq<Octet>, uuid: seq<Octet>)
    requires CStringAt(b, place, value) && value != []
    ensures Report(b, place, uuid) == Posted(UUID_OPEN + uuid + UUID_CLOSE + value[1..])
  {
    hide CString;
    CStringIs(b, place, value);
    assert b[place + 1..place + 1 + |value[1..]|] == b[place..place + |value|][1..];
    CStringIs(b, place + 1, value[1..]);
  }

  lemma EmptyValue(b: seq<Octet>, place: nat, uuid: seq<Octet>)
    requires CStringAt(b, place, [])
    ensures forall t :: CStringAt(b, place + 1, t) ==> Report(b, place, uuid) == Posted(PostText(uuid, t, 0))
    ensures NoStringAt(b, place + 1) ==> Report(b, place, uuid) == PastBuffer
  {
    hide CString, PostText;
    CStringIs(b, place, []);
    CStringFinds(b, place + 1);
    forall t | CStringAt(b, place + 1, t) ensures CString(b, place + 1) == Some(t) {
      CStringIs(b, place + 1, t);
    }
  }

  lemma OpsDiffer(op: seq<Octet>)
    requires |op| == 3
    ensures op + [0] == RPT + [0] <==> op == RPT
    ensures op + [0] == GET + [0] <==> op == GET
    ensures op + [0] == SET + [0] <==> op == SET
  {
    assert forall o: seq<Octet> {:trigger o + [0]} :: (o + [0])[..|o|] == o;
  }

  /** handle_publish, whatever the buffer holds. */
  method HandlePublish(buf: array<Octet>, at: nat, gatewayMode: bool, uuid: Option<seq<Octet>>) returns (h: Handled)
    requires at + 9 <= buf.Length
    ensures h == Handle(buf[..], at, gatewayMode, uuid)
    ensures forall op, name, value {:trigger StringsAt(buf[..], at, op, name, value)} ::
              StringsAt(buf[..], at, op, name, value) && !EmptyReport(op, value, gatewayMode, uuid) ==>
              h == Meaning(op, name, value, gatewayMode, uuid)
  {
    forall op, name, value | StringsAt(buf[..], at, op, name, value) && !EmptyReport(op, value, gatewayMode, uuid)
      ensures Handle(buf[..], at, gatewayMode, uuid) == Meaning(op, name, value, gatewayMode, uuid)
    {
      HandleMeans(buf[..], at, op, name, value, gatewayMode, uuid);
    }
    h := Act(buf, at, gatewayMode, uuid);
  }

  method Act(buf: array<Octet>, at: nat, gatewayMode: bool, uuid: Option<seq<Octet>>) returns (h: Handled)
    requires at + 9 <= buf.Length
    ensures h == Handle(buf[..], at, gatewayMode, uuid)
  {
    hide CString, PostText;
    var op := buf[at + 5..at + 9];
    assert op == buf[..][at + 5..at + 9];
    var name := ReadCString(buf, at + 9);
    if name.None? { return PastBuffer; }
    CStringFinds(buf[..], at + 9);
    var place := at + 9 + |name.value| + 1;
    if op == RPT + [0] {
      if !gatewayMode { return Stray; }
      if uuid.None? { return Unknown; }
      var value := ReadCString(buf, place);
      CStringFinds(buf[..], place);
      if value.None? { return PastBuffer; }
      var tail := ReadCString(buf, place + 1);
      if tail.None? { return PastBuffer; }
      return Posted(PostText(uuid.value, tail.value, |value.value|));
    }
    if op == GET + [0] { return Asked(name.value); }
    if op == SET + [0] {
      var value := ReadCString(buf, place);
      if value.None? { return PastBuffer; }
      return Told(name.value, value.value);
    }
    return Ignored;
  }

  /** The receiver finds the strings the sender packed; CStringUnique says that it can find no others. */
  lemma PublishRoundTrip(header: seq<Octet>, op: seq<Octet>, name: seq<Octet>, value: seq<Octet>, b: seq<Octet>, l: nat)
    requires |header| == 5 && |op| == 3 && 0 !in op && 0 !in name && 0 !in value
    requires Received(b, l, Framed(PUBLISH, header + Packed(op, name, value)))
    requires 13 + |name| + |value| <= 254
    ensures var (ret, start) := Parsed(b, l);
            && ret == l && b[start] == PUBLISH
            && CStringAt(b, start + 1 + 5, op) && CStringAt(b, start + 1 + 9, name)
            && CStringAt(b, start + 1 + 10 + |name|, value)
  {
    var body := header + Packed(op, name, value);
    FramingRoundTrip(PUBLISH, body, b, l);
    StringInside(b, l, body, 5, op);
    StringInside(b, l, body, 9, name);
    StringInside(b, l, body, 10 + |name|, value);
  }

  lemma StringInside(b: seq<Octet>, l: nat, body: seq<Octet>, i: nat, s: seq<Octet>)
    requires l <= |b| && 2 <= l && b[2..l] == body && CStringAt(body, i, s)
    ensures CStringAt(b, 2 + i, s)
  {
    assert forall k :: 0 <= k < |body| ==> b[2 + k] == body[k];
    assert forall k :: 0 <= k < |s| ==> body[i + k] == body[i..i + |s|][k] == s[k];
  }

  /** The datagram of a packed PUBLISH. */
  function Datagram(header: seq<Octet>, op: seq<Octet>, name: seq<Octet>, value: seq<Octet>): seq<Octet> {
    Framed(PUBLISH, header + Packed(op, name, value))
  }

  ghost predicate Packable(header: seq<Octet>, op: seq<Octet>, name: seq<Octet>, value: seq<Octet>) {
    |header| == 5 && |op| == 3 && 0 !in op && 0 !in name && 0 !in value && 13 + |name| + |value| <= 254
  }

  lemma PackedStrings(header: seq<Octet>, op: seq<Octet>, name: seq<Octet>, value: seq<Octet>, b: seq<Octet>, l: nat)
    requires Packable(header, op, name, value) && Received(b, l, Datagram(header, op, name, value))
    ensures StringsAt(b, 2, op, name, value) && Parsed(b, l) == (l, 1) && b[1] == PUBLISH && l == 13 + |name| + |value|
  {
    PublishRoundTrip(header, op, name, value, b, l);
  }

  /** Whatever string was left in the buffer behind an empty report is what gets posted. */
  lemma EmptyReportPosts(header: seq<Octet>, name: seq<Octet>, left: seq<Octet>, uuid: seq<Octet>)
    requires Packable(header, RPT, name, []) && 0 !in left && 13 + |name| + |left| < BUF_LEN
    ensures exists b {:trigger Received(b, 13 + |name|, Datagram(header, RPT, name, []))} ::
              && Received(b, 13 + |name|, Datagram(header, RPT, name, [])) && |b| == BUF_LEN
              && Handle(b, 2, true, Some(uuid)) == Posted(PostText(uuid, left, 0))
  {
    hide Handle, Framed;
    var m := Datagram(header, RPT, name, []);
    DatagramLength(header, RPT, name, []);
    var b := m + left + seq(BUF_LEN - |m| - |left|, _ => 0);
    assert b[..|m|] == m;
    assert Received(b, |m|, m);
    PackedStrings(header, RPT, name, [], b, |m|);
    assert CStringAt(b, 13 + |name|, left);
    HandleMeans(b, 2, RPT, name, [], true, Some(uuid));
  }

  lemma DatagramLength(header: seq<Octet>, op: seq<Octet>, name: seq<Octet>, value: seq<Octet>)
    requires Packable(header, op, name, value)
    ensures |Datagram(header, op, name, value)| == 13 + |name| + |value|
  {
  }

  /** The same datagram has the same effect, whatever was in the buffer before, unless it is an empty report. */
  lemma StringsDecide(header: seq<Octet>, op: seq<Octet>, name: seq<Octet>, value: seq<Octet>,
                      gatewayMode: bool, uuid: Option<seq<Octet>>)
    requires Packable(header, op, name, value)
    ensures (forall b, c, l, k :: Received(b, l, Datagram(header, op, name, value)) &&
                                  Received(c, k, Datagram(header, op, name, value)) ==>
               Handle(b, 2, gatewayMode, uuid) == Handle(c, 2, gatewayMode, uuid))
            <==> !EmptyReport(op, value, gatewayMode, uuid)
  {
    hide Handle, Framed, Datagram, StringsAt;
    var m := Datagram(header, op, name, value);
    if EmptyReport(op, value, gatewayMode, uuid) {
      EmptyReportPosts(header, name, [], uuid.value);
      EmptyReportPosts(header, name, [1], uuid.value);
      var b :| Received(b, 13 + |name|, m) && Handle(b, 2, true, uuid) == Posted(PostText(uuid.value, [], 0));
      var c :| Received(c, 13 + |name|, m) && Handle(c, 2, true, uuid) == Posted(PostText(uuid.value, [1], 0));
      assert |PostText(uuid.value, [], 0)| < |PostText(uuid.value, [1], 0)|;
    } else {
      forall b, l | Received(b, l, m)
        ensures Handle(b, 2, gatewayMode, uuid) == Meaning(op, name, value, gatewayMode, uuid)
      {
        PackedStrings(header, op, name, value, b, l);
        HandleMeans(b, 2, op, name, value, gatewayMode, uuid);
      }
    }
  }

  /** What a packed PUBLISH that has come in at `l` octets comes to. */
  ghost predicate MeansWhatWasSent(b: seq<Octet>, l: nat, gatewayMode: bool, uuid: Option<seq<Octet>>,
                                   op: seq<Octet>, name: seq<Octet>, value: seq<Octet>, h: Option<Handled>) {
    if !EmptyReport(op, value, gatewayMode, uuid) then h == Some(Meaning(op, name, value, gatewayMode, uuid))
    else
      && (forall t :: CStringAt(b, l, t) ==> h == Some(Posted(PostText(uuid.value, t, 0))))
      && (NoStringAt(b, l) ==> h == Some(PastBuffer))
  }

  lemma PackedMeans(b: seq<Octet>, l: nat, gatewayMode: bool, uuid: Option<seq<Octet>>, header: seq<Octet>,
                    op: seq<Octet>, name: seq<Octet>, value: seq<Octet>)
    requires Packable(header, op, name, value) && Received(b, l, Datagram(header, op, name, value))
    ensures |b| == BUF_LEN && l > 2 && Parsed(b, l) == (l, 1) && b[1] == PUBLISH
    ensures MeansWhatWasSent(b, l, gatewayMode, uuid, op, name, value, Some(Handle(b, 2, gatewayMode, uuid)))
  {
    hide Handle, Framed, Datagram, Received, Parsed;
    ReceivedSize(b, l, Datagram(header, op, name, value));
    PackedStrings(header, op, name, value, b, l);
    HandleMeans(b, 2, op, name, value, gatewayMode, uuid);
  }

  /**
   * gateway_sock_read_cb and handle_msg, as far as PUBLISH goes: a PUBLISH that a sender packed means what
   * was sent, and what does not parse, is too short or has another type is not handled as one.
   */
  method ReadPublish(buf: array<Octet>, l: nat, gatewayMode: bool, uuid: Option<seq<Octet>>)
    returns (h: Option<Handled>)
    requires buf.Length == BUF_LEN
    ensures var (ret, start) := Parsed(buf[..], l);
            && (h.None? <==> l <= 2 || ret < 0 || buf[start] != PUBLISH)
            && (h.Some? ==> h.value == Handle(buf[..], start + 1, gatewayMode, uuid))
    ensures forall header, op, name, value {:trigger Datagram(header, op, name, value)} ::
              Packable(header, op, name, value) && Received(buf[..], l, Datagram(header, op, name, value)) ==>
              MeansWhatWasSent(buf[..], l, gatewayMode, uuid, op, name, value, h)
  {
    hide Handle, Framed, Datagram, Received, Parsed, MeansWhatWasSent, Packable;
    ParsedStart(buf[..], l);
    forall header, op, name, value
      | Packable(header, op, name, value) && Received(buf[..], l, Datagram(header, op, name, value))
      ensures l > 2 && Parsed(buf[..], l) == (l, 1) && buf[1] == PUBLISH
      ensures MeansWhatWasSent(buf[..], l, gatewayMode, uuid, op, name, value,
                               Some(Handle(buf[..], 2, gatewayMode, uuid)))
    {
      PackedMeans(buf[..], l, gatewayMode, uuid, header, op, name, value);
    }
    var ret, start := ParseHeader(buf, l);
    if l <= 2 || ret < 0 || buf[start] != PUBLISH {
      return None;
    }
    var handled := HandlePublish(buf, start + 1, gatewayMode, uuid);
    h := Some(handled);
  }
}
