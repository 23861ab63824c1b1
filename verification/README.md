# Models and proofs for AliOS Things

Dafny 4.11 models of the parts of AliOS Things whose correctness is hardest to see by reading,
with proofs of what they promise. `dafny verify dfyconfig.toml` checks the project.

The centre is the SAL socket layer (`device/sal/sal_sockets.c`):

- `SelectProtocol.dfy` is the select/notify protocol as a state machine. One step is one region
  between `SAL_ARCH_PROTECT` and `SAL_ARCH_UNPROTECT`: `RunScan` is one round of the loop of
  `sal_selscan` (lines 1143-1183), `RunEnlist` lines 966-979, `RunCount` one round of lines
  983-1007, `RunWait` lines 1028-1033, `RunUncount` one round of lines 1037-1064, `RunDelist` lines
  1066-1109, `BeginWalk` lines 1516-1592 for the first node and `ContinueWalk` lines 1590-1597 for
  the next. A behaviour is any interleaving of any number of selects and notifiers.
  `SelectSafety.dfy` proves the invariant, `SelectTheorems.dfy` the properties of whole behaviours,
  `SelectAnswers.dfy` what a call returns, `SelectList.dfy` that the linked nodes realise the list
  operations.
- `ReceivePath.dfy` and `SendPath.dfy` are the two mailboxes, the counters that shadow them in
  separate steps, and the byte stream of TCP reads. A read takes a script of what other tasks do
  at each point where it can be interrupted.
- `PcbTable.dfy` and `SocketTable.dfy` are the PCB lists, the ephemeral port search, and
  socket, bind, connect and close over them. `Orders.dfy` has the sequences behind linked lists,
  `Common.dfy` the types that several models share.

Around it:

- `Ip4Text.dfy`, `Ip4Aton.dfy`, `Ip4Print.dfy`, `Ip4Codecs.dfy`, `Ip4Agreement.dfy`: the IPv4 text
  parsers and printers of `ip4_addr.c`, `sal_sockets.c` and `netmgr.c`. The loose form is the one that section 3.1.1
  of RFC 6943 describes.
- `AtText.dfy`, `AtWorker.dfy`: the AT parser's worker over its bounded buffer, against matching on
  the whole history of bytes.
- `EventLoop.dfy`, `Ageing.dfy`, `Gateway.dfy`: the gateway service's flags, timers and clients.
- `MqttSn.dfy`: MQTT-SN framing and the strings of a PUBLISH. The length octet is one more than the
  message's length, so the format agrees with itself but not with section 5.2.1 of MQTT-SN 1.2.
- `VFlash.dfy`: file writes on flash memory by rewriting whole sectors.
- `ComponentTree.dfy`, `ComponentLoader.dfy`: the build system's closure over component dependencies.
- `WifiMonitor.dfy`: each station's best access point and the reverse index.

## Where the code does not keep a promise

The models do what the code does. Where that falls short of what the code is for, there is an example
of the failure and a theorem that says exactly when it happens:

- `select_waiting` is a `uint8_t`: with 256 selects at once on one socket it wraps to 0 and a
  wake-up is lost (`CrowdSleeps`). `UnsignedByteIsTheLimit` shows that 256 is the exact bound.
- Data in `lastdata` counts as readable for a scan and not for a notifier (`LeftoverWakesNobody`). When all
  is quiet that is the only thing a scan would still mark for a sleeping select
  (`SleepsOnLeftoversOnly`).
- An async connect writes `sendevent` without notifying (`ConnectWakesNobody`). When all is quiet it leaves a
  select asleep on a ready socket exactly if one asleep had asked to write to that socket
  (`ConnectLosesWriters`). The no-lost-wake-up theorem therefore speaks of the counters, and asks that a
  socket be connected only while no select counts it.
- `sal_recvfrom` never reduces `len` between passes, although the guard at line 1262 expects it.
  `RecvSock.trims` chooses: false is the code as written, true the code with the decrement. The stream
  is conserved either way. A read as written keeps to the caller's buffer exactly if the chunks it met hold no
  more, or the first with anything in it fills the buffer (`RecvFrom`, `UntrimmedReadFits`);
  `UntrimmedReadOverruns` is a run in which it does not.
- `sendevent` wraps while steps are pending: a full mailbox can look writable (`WritableWhileFull`). It tells
  the truth exactly when as many posts as fetches, modulo 2^16, are uncounted (`CounterIsRoom`).
- Off the canonical form the IPv4 parsers disagree (`LeadingZeroDisagrees`). On four decimal fields they
  agree exactly when every field is an octet that a leading zero does not change (`BothParsers`).
- The AT worker compacts its buffer to the longest delimiter of the last task served. A handler's prefix
  that straddles the compaction can be lost (`LostPrefix`): a frame begins if and only if the bytes since
  the last clearing end in the prefix, the buffer still holds that many, and no handler before it has emptied
  the buffer in the same turn (`Worker.Feed`). A prefix no longer than what compaction keeps is not lost.
- Cancelling takes out one of possibly several clearing timers, so a node can be disconnected though it
  hears its gateway (`ClearedTooSoon`): an advertisement postpones the clearing exactly if no second one is
  due (`KeepAlive`).  A reconnection cancels the clearing before its answer is in, so a node can stay
  connected for ever (`StuckConnected`), exactly when no clearing is pending (`Service.Hush`).
- A CONNACK is not checked against the gateway's address (`ConnectedToNobody`): a connected node's last
  answer is its gateway's exactly if it came from the gateway's address of that moment
  (`Service.ConnectedToGateway`).
- An MQTT-SN message of more than 254 octets is not parsed, but for cut-off datagrams of particular
  lengths (`FramingLimit`). An empty report at a gateway from a known client posts whatever string the receive
  buffer held behind it (`EmptyReportPosts`), and is the only packed PUBLISH of up to 254 octets whose effect
  its three strings do not decide (`StringsDecide`).
- A component is loaded again on every naming exactly if it is found elsewhere than under its name
  (`Config.NamedTwice`). Such names can lead to each other without end (`SelfNamed`); the recursion exceeds
  every limit exactly for a name from which a chain of dependencies leads there without passing a loaded name
  (`Config.AddDependency`; `DoomedName`), and so does the whole exactly if board or application lead there
  (`Config.GenerateAll`).
- A station has no access point exactly if none of its reports reaches -1000 (`BestIsArgmax`). An access
  point without a name has the stations that last moved to none in its presence, gone or not, instead
  (`Mgr.NamelessMeans`, `NamelessNotIndexed`).

## Model

| member | source | states |
|---|---|---|
| `SelectTheorems.InvAlways` | device/sal/sal_sockets.c:908-1124 | every state of every behaviour, whatever the interleaving of selects and notifiers, keeps the whole invariant: the list, the semaphores, the counters, the walks, and that what is owed is on its way |
| `SelectTheorems.NoLostWakeup` | device/sal/sal_sockets.c:965-1033 | a select past its second scan of a socket, unsignalled, whose socket's counters are now in its favour has a notifier still to reach it; when no notifier is under way no select sleeps on a ready socket |
| `SelectTheorems.WalkSafety` | device/sal/sal_sockets.c:1556-1597 | a notifier follows `next` only from a node that is still listed, to the node after it in the list, and no select is signalled twice |
| `SelectTheorems.WalkShrinks` | device/sal/sal_sockets.c:1590-1596 | each turn of a walk brings it nearer its end |
| `SelectTheorems.WalkFinishes` | device/sal/sal_sockets.c:1556-1598 | between two changes of the list a walk takes at most one lock region per listed select and one more, whatever the other tasks do |
| `SelectTheorems.WaitingIsCount` | device/sal/sal_sockets.c:981-1064 | `select_waiting` of a socket is the number of selects that have counted it and not uncounted it, each once; it is 0 again once no select is in progress, whichever exits they took |
| `SelectTheorems.UnsignedByteIsTheLimit` | device/sal/sal_sockets.c:993-995 | both promises hold for exactly the numbers of concurrent selects below 256: the counter is a `uint8_t` |
| `SelectTheorems.CrowdSleeps` | device/sal/sal_sockets.c:1544-1548 | with 256 or more, a behaviour in which a packet arrives and a select sleeps on it for ever |
| `SelectTheorems.SleepsOnLeftoversOnly` | device/sal/sal_sockets.c:1155-1166 | in every quiet state of every behaviour, what a scan would mark for a sleeping select on an open socket it watches is exactly readability by `lastdata` |
| `SelectTheorems.LeftoverWakesNobody` | device/sal/sal_sockets.c:1236-1246 | a behaviour that gets there: a reader fetches a packet before it is counted and keeps the rest of it, and the select sleeps where a new one would return |
| `SelectTheorems.ConnectLosesWriters` | device/sal/sal_sockets.c:796-797 | in every quiet state, connecting a socket leaves a select asleep on a ready socket if and only if one asleep had asked to write to that socket |
| `SelectTheorems.ConnectWakesNobody` | device/sal/sal_sockets.c:796-797 | a behaviour that gets there |
| `SelectAnswers.ScanTotals` | device/sal/sal_sockets.c:1143-1190 | an undisturbed loop of `sal_selscan` adds up one mark for each set and each open socket that is ready for it, and decides by their number, in the first two scans, or returns it, in the last |
| `SelectAnswers.TotalIsMembers` | device/sal/sal_sockets.c:1143-1190 | that is as many as the three sets handed back have members |
| `SelectAnswers.FirstScanDecides` | device/sal/sal_sockets.c:931-942 | a select returns from its first scan, with that number, just when there are marks or the timeout is zero |
| `SelectAnswers.LastScanReturns` | device/sal/sal_sockets.c:1107-1123 | an undisturbed scan after the wait returns the number of readable, writable and failed sockets of the request |
| `SelectAnswers.SelectAnswer` | device/sal/sal_sockets.c:908-1124 | what `sal_select` returns, in every behaviour: the marks of its one scan if it never went on the list; else -1 exactly if a set has an fd that is no open socket, 0 if the wait timed out, and otherwise the marks of the scan after it left the list, as always when it took its semaphore, which was signalled once and is back at 0 |
| `SelectAnswers.CallFinishes` | device/sal/sal_sockets.c:908-1124 | a call takes a bounded number of lock regions and scan rounds of its own, at most eight rounds of its fds (`LeftBound`), whatever the other tasks do |
| `SelectAnswers.SignalledWhenDue` | device/sal/sal_sockets.c:1560-1588 | a semaphore is signalled only for a select on the list that was not signalled before and has a socket that is ready for it |
| `SelectAnswers.BumpsCount` | device/sal/sal_sockets.c:1524-1546 | after any run of events the two counters are what they were plus what was counted less what was uncounted, as far as an `int16_t` and a `uint16_t` can tell, and the error flag is set exactly if there was an error |
| `SelectSafety.OwnStepKeeps` | device/sal/sal_sockets.c:1009-1033 | what a step of one select must preserve, apart from the list, for the whole invariant to survive it |
| `SelectSafety.ListChangeKeeps` | device/sal/sal_sockets.c:1065-1080 | every change of the list bumps `select_cb_ctr`, so each walk under way starts over and nothing owed is missed |
| `SelectSafety.ClaimKeeps` | device/sal/sal_sockets.c:989-995 | counting one socket does not wrap the counter while fewer than 256 selects exist |
| `SelectSafety.ContinueKeeps` | device/sal/sal_sockets.c:1590-1597 | a notifier that goes on, from the head if the list changed and to the next node if not, leaves no select behind that it owed |
| `SelectSafety.DealKeeps` | device/sal/sal_sockets.c:1522-1560 | an event makes only its own socket's selects due, and the walk it starts begins before all of them |
| `SelectSafety.VisitKeepsWake` | device/sal/sal_sockets.c:1560-1588 | visiting a node discharges what is owed to it and leaves the later ones to the walk |
| `SelectList.SelectCbList.Insert` | device/sal/sal_sockets.c:949-976 | putting a node on top keeps the list a well-formed doubly linked one and prepends to its order |
| `SelectList.SelectCbList.Remove` | device/sal/sal_sockets.c:1066-1079 | unlinking a node anywhere keeps the links in both directions and takes exactly that node out of the order |
| `SelectList.SelectCbList.Next` | device/sal/sal_sockets.c:1557 | `next` of a listed node is its successor in the order the protocol uses |
| `ReceivePath.RecvSock.PacketInput` | device/sal/sal_sockets.c:1439-1502 | refuses no data and a full mailbox, changing nothing; otherwise the packet, its length cut to 16 bits, joins the end of what waits |
| `ReceivePath.RecvSock.RcvPlus` | device/sal/sal_sockets.c:1507-1526 | counting a posted packet keeps `rcvevent`, an `int16_t`, equal to the mailbox's length less the posted and uncounted plus the fetched and uncounted, up to wraps of 2^16 |
| `ReceivePath.RecvSock.RcvMinus` | device/sal/sal_sockets.c:902 | the same for uncounting a fetched packet |
| `ReceivePath.RecvSock.Deliver` | device/sal/sal_sockets.c:1439-1529 | what other tasks do in between: exactly the packets that find room are taken, in order, and exactly those not counted yet stay uncounted |
| `ReceivePath.RecvSock.Fill` | device/sal/sal_sockets.c:1220-1247 | has a buffer unless the read would block, with nothing counted, or times out, with nothing waiting; a buffer kept from the last read comes first; nothing waiting is lost or reordered while other tasks post |
| `ReceivePath.RecvSock.CopyOut` | device/sal/sal_sockets.c:1248-1298 | one pass copies a prefix of the oldest chunk, drops exactly that from a TCP stream or the whole datagram for UDP, and goes on only if the chunk was used up and more is counted |
| `ReceivePath.RecvSock.RecvFrom` | device/sal/sal_sockets.c:1193-1303 | over any interleaving with arrivals, what non-peek reads returned, followed by what waits, is what arrived; a peek changes nothing; datagrams come one a read, cut to `len`; a read takes, chunk after chunk, from the first of what waited and came in, with the decrement at most `len` bytes, and as written so many exactly if those chunks hold no more or the first with anything in it has at least `len`; it ends only when it has enough or nothing more is counted or waits; a quiet read of either protocol returns exactly if something waits, else would block or times out, and leaves the socket quiet |
| `ReceivePath.TrimmedReadIsTake` | device/sal/sal_sockets.c:1252-1299 | with `len` reduced by what was copied, a quiet read returns the first `len` bytes of the stream, or all of it |
| `ReceivePath.UntrimmedReadFits` | device/sal/sal_sockets.c:1252-1271 | as written, `len` never goes down: a read over given chunks keeps to the caller's buffer if and only if they hold no more than `len` bytes or the first with anything in it has at least `len` |
| `ReceivePath.UntrimmedTakes` | device/sal/sal_sockets.c:1252-1271 | as written, a read takes everything that waits unless it stops having returned at least `len` bytes |
| `ReceivePath.TakenOnto` | device/sal/sal_sockets.c:1252-1299 | one more chunk after those that a read took whole adds as much of it as `len` leaves |
| `ReceivePath.UntrimmedReadOverruns` | device/sal/sal_sockets.c:1252-1259 | a run from a new socket: two packets of two bytes come in and a read of three bytes returns four |
| `ReceivePath.ReadIsPrefix` | device/sal/sal_sockets.c:1218-1299 | either way what a quiet read takes is a prefix of the stream |
| `ReceivePath.CounterIsLength` | device/sal/sal_sockets.c:1507-1529 | `rcvevent` is the mailbox's length if and only if as many posts as fetches, modulo 2^16, are uncounted |
| `ReceivePath.PeekThenRead` | device/sal/sal_sockets.c:1266-1298 | whatever arrives before, during and between the calls, what a peek shows is a prefix of what the next read of the same length returns; with nothing else going on, it shows the first chunk and the read takes what a read takes |
| `SendPath.SendSock.Post` | device/sal/sal_sockets.c:1315-1405 | refuses nothing and too much; otherwise reports the size, queueing the packet just when the mailbox has room and dropping it silently when not |
| `SendPath.SendSock.SendMinus` | device/sal/sal_sockets.c:1393-1395 | `sendevent`, a `uint16_t`, stays the mailbox's room plus the posted and uncounted less the fetched and uncounted, up to wraps of 2^16 |
| `SendPath.SendSock.Fetch` | device/sal/sal_sockets.c:1703-1707 | the output task takes the oldest packet, or none when there is none |
| `SendPath.SendSock.SendPlus` | device/sal/sal_sockets.c:1703-1709 | the same for the output task's half |
| `SendPath.SendSock.ModuleSend` | device/sal/sal_sockets.c:1710-1717 | the module gets the accepted packets in the order the mailbox took them, none twice and none left out |
| `SendPath.CounterIsRoom` | device/sal/sal_sockets.c:797 | `sendevent` is the number of free slots if and only if as many posts as fetches, modulo 2^16, are uncounted; a full mailbox shows as not writable exactly then, and one with room as writable unless the uncounted cancel the room |
| `SendPath.WritableWhileFull` | device/sal/sal_sockets.c:1530-1535 | in between it does wrap: for every size of the mailbox, a run that leaves a socket writable, at 0xffff, with its mailbox full |
| `PcbTable.EnsureRangeBits` | device/sal/sal_sockets.c:198 | the masking macro, on 32-bit words, yields 0xc000 plus the remainder modulo 0x4000 |
| `PcbTable.PcbList.NewPort` | device/sal/sal_sockets.c:210-235 | 0 exactly when all 16384 ports are listed, otherwise the first free one cyclically after the last port tried, which stays in range |
| `PcbTable.PcbList.Search` | device/sal/sal_sockets.c:311-336 | the same for the loop from the label `again`, with the number of trials, at most 16384, that it takes |
| `PcbTable.PcbList.Bind` | device/sal/sal_sockets.c:237-287 | fails with `ERR_BUF` exactly when an automatic port is asked for and none is free, with `ERR_USE` exactly when another listed PCB has the port, and then changes no PCB; otherwise the PCB has the port, an automatic one being the first free after the last one tried, and is listed once; only an automatic port moves the search on |
| `PcbTable.PcbList.Remove` | device/sal/sal_sockets.c:289-309 | takes exactly that PCB out, if it is there, leaving the list acyclic, duplicate-free and with distinct ports |
| `PcbTable.FullCircle` | device/sal/sal_sockets.c:224-231 | 16384 ports in use in a row from anywhere are the whole range |
| `SocketTable.SocketTable.Socket` | device/sal/sal_sockets.c:1602-1685 | the first free slot, with a PCB of its own that is on no list; -1 exactly when every slot is open |
| `SocketTable.SocketTable.Bind` | device/sal/sal_sockets.c:846-879 | fails exactly as the list of the socket's protocol does, changing no PCB, and otherwise binds that socket's PCB alone; keeps each list equal to the PCBs of its protocol's open sockets with a port |
| `SocketTable.SocketTable.ConnectUdp` | device/sal/sal_sockets.c:748-777 | the module is given the socket's port or the first free one, 0 if there is none; it fails exactly if the module refuses or there is no free port, and then no PCB and no list has changed, though the last port tried has moved on; otherwise the port handed over is the PCB's |
| `SocketTable.SocketTable.Connect` | device/sal/sal_sockets.c:721-807 | an open socket in the initial state connects unless the module refuses, or it is a UDP socket without a port and none is free; a refusal changes no socket, PCB or list; success sets the state and the remote port, and leaves every other socket alone |
| `SocketTable.SocketTable.Close` | device/sal/sal_sockets.c:684-719 | frees the slot and takes its PCB, and no other, off its list |
| `Ip4Aton.Aton` | device/sal/ip4_addr.c:28-140 | accepts exactly the texts of one to four dotted C-style numbers, each modulo 2^32, ended by NUL or white space, whose parts fit, and stores the base-256 sum of the parts in network order |
| `Ip4Aton.ScanIsGrammar` | device/sal/ip4_addr.c:38-90 | the character-by-character scanner accepts a text just when the grammar spells it, and reads the values the grammar gives |
| `Ip4Aton.CollectDigits` | device/sal/ip4_addr.c:58-68 | the digit loop: as many characters as the base allows, and their value modulo 2^32; an octal number may hold 8 and 9 |
| `Ip4Aton.AddDigit` | device/sal/ip4_addr.c:59-64 | the shift and or for a hexadecimal digit is multiplication and addition modulo 2^32 |
| `Ip4Aton.Concoct` | device/sal/ip4_addr.c:95-135 | the range checks and the shift and or of the parts are the base-256 sum, each part but the last below 256 and the last within the bytes left |
| `Ip4Print.NtoaR` | device/sal/ip4_addr.c:151-188 | fails exactly when `buflen` is less than the text's length plus one, and writes nothing beyond `buflen`; otherwise the canonical dotted quad and a NUL |
| `Ip4Print.SockaddrToIpstr` | device/sal/sal_sockets.c:412-434 | the canonical dotted quad, NUL to the end of the 16-byte buffer |
| `Ip4Print.FormatIp` | framework/netmgr/netmgr.c:70-81 | the dotted quad of the word's octets, least significant first |
| `Ip4Codecs.IpstrToU32` | device/sal/sal_sockets.c:436-468 | refuses exactly a character other than digits and dots, or a fourth dot, among the first 15; otherwise writes each field's octet and leaves the octets it has no field for |
| `Ip4Codecs.FieldOctetsAreValues` | device/sal/sal_sockets.c:449-464 | those octets are the decimal values of the fields between the dots, modulo 256 |
| `Ip4Codecs.TranslateAddr` | framework/netmgr/netmgr.c:118-129 | the word's octets, the first least significant, are the four values converted, or left from before where a conversion did not take place, if and only if these are octets |
| `Ip4Codecs.SscanfFields` | framework/netmgr/netmgr.c:122 | the conversions of any fields of white space, sign and digits with dots between them, up to as many as are wanted or until something else comes, are the fields' values |
| `Ip4Codecs.SscanfDotted` | framework/netmgr/netmgr.c:122 | the conversions of a canonical dotted quad are its four octets |
| `Ip4Codecs.AtonOfNtoa` | device/sal/ip4_addr.c:28-188 | `ip4addr_aton` undoes `ip4addr_ntoa_r` on every address |
| `Ip4Codecs.IpstrOfSockaddr` | device/sal/sal_sockets.c:412-468 | `ipstr_to_u32` undoes `ip4_sockaddr_to_ipstr_port` on every address |
| `Ip4Codecs.TranslateOfFormat` | framework/netmgr/netmgr.c:70-129 | `translate_addr` undoes `format_ip` on every word |
| `Ip4Codecs.ThreeParsersAgree` | device/sal/ip4_addr.c:28-140 | the three parsers give the same four octets on every canonical dotted quad |
| `Ip4Agreement.BothParsers` | device/sal/ip4_addr.c:44-68 | on four decimal fields within 15 characters both parsers accept and give the same octets if and only if every field is at most 255 and either does not begin with 0 or has only 0 before its last digit |
| `Ip4Agreement.OctalIsDecimal` | device/sal/ip4_addr.c:49-60 | a digit string has the same value in octal and decimal if and only if all digits but the last are 0 |
| `Ip4Agreement.LeadingZeroDisagrees` | device/sal/ip4_addr.c:49-57 | on "010.0.0.1" the parsers give 8.0.0.1 and 10.0.0.1 |
| `AtText.FirstIsLeast` | framework/atparser/atparser.c:719-722 | where a response begins: at the last byte of the first occurrence of the prefix that ends in the bytes read, no handler having emptied the buffer within it, though it may begin in what the buffer held |
| `AtText.ResponseIsShortestRun` | framework/atparser/atparser.c:724-746 | the first byte that ends the quiet makes the response the shortest run, from where it begins, that ends in the success or the fail postfix; or the run has outgrown the caller's buffer by one |
| `AtText.QuietRun` | framework/atparser/atparser.c:719-730 | until then the machine holds all that was received since the buffer was last emptied, and the response under way |
| `AtText.BegunTakesAll` | framework/atparser/atparser.c:724-737 | a response under way takes every byte, and is done exactly when that completes it, whether a handler empties the buffer on it or not |
| `AtWorker.Oob.Take` | framework/atparser/atparser.c:647-671 | a byte added to a frame: too long, complete with exactly those bytes given to the callback, or neither; every frame ever given to the callback was a suffix of the bytes received by then, began with the prefix, ended at the first postfix far enough behind it and was no longer than `maxlen` |
| `AtWorker.Worker.RegisterOob` | framework/atparser/atparser.c:538-587 | refuses exactly a sixth handler and a prefix already registered |
| `AtWorker.Worker.Collect` | framework/atparser/atparser.c:637-679 | a frame begins if and only if the bytes since the last clearing end in the prefix and the buffer still holds that many of them; a frame under way takes the byte; the buffer is emptied exactly when the handler that took the byte is done or the buffer is too full |
| `AtWorker.LostPrefix` | framework/atparser/atparser.c:747-756 | a run of 512 bytes from the start in which compaction splits a prefix and its handler never begins |
| `AtWorker.Worker.CollectAll` | framework/atparser/atparser.c:637-680 | in a turn a handler at work takes the byte, and one that is idle begins a frame if and only if the bytes since the last clearing end in its prefix, the buffer holds that many, and no handler before it has emptied the buffer in this turn; each one's frames stay sound |
| `AtWorker.Worker.UnheardTurn` | framework/atparser/atparser.c:637-680 | a byte that completes no prefix in the buffer while no handler is at work empties nothing and changes no handler |
| `AtWorker.Task.Take` | framework/atparser/atparser.c:725-745 | a byte joins the response, which is done just when it ends in a postfix; a full buffer reports the fail postfix instead |
| `AtWorker.Worker.ServeHead` | framework/atparser/atparser.c:690-746 | what the head task gets is one step of matching on the whole history, also on a byte on which a handler has emptied the buffer; a response under way takes the byte |
| `AtWorker.Worker.CheckBuffer` | framework/atparser/atparser.c:747-756 | compaction keeps a suffix of the history long enough for the longest delimiter of the task last served, and the copy does not overlap |
| `AtWorker.Worker.Feed` | framework/atparser/atparser.c:619-757 | one turn of the loop, with any handlers and tasks: the drop branch at line 630 is never taken; which handlers begin and take the byte is as for the loop over them, on the whole history; a prefix no longer than what compaction keeps is not lost; the head task is signalled at most once, and whether or not a handler empties the buffer the turn is for it one step of matching on the history since the last clearing, a response under way taking the byte |
| `AtWorker.Worker.AddTask` | framework/atparser/atparser.c:298-310 | a new task goes to the end of the list; handlers and the other tasks keep their invariant |
| `AtWorker.Worker.DeleteTask` | framework/atparser/atparser.c:312-331 | exactly that task leaves the list, wherever it is |
| `AtWorker.Worker.Receive` | framework/atparser/atparser.c:619-757 | over any input and with any handlers, a task found at the head in any state without a response yet, the buffer holding enough to tell its delimiters, is signalled at the first byte that completes the shortest run or overflows, with exactly that run, or the fail postfix, in its buffer; before that it has what arrived since the prefix; the handlers' turns say on which bytes the buffer was emptied, which only delays a response that has not begun |
| `EventLoop.Loop.Post` | kernel/yloop/yloop.c:165-193 | a delayed action goes behind everything due no later |
| `EventLoop.Loop.Cancel` | kernel/yloop/yloop.c:195-217 | cancelling takes out the first match only |
| `Gateway.Service.HandleAdv` | framework/gateway/gateway_service.c:287-335 | keeps the connection flags' invariant: connected implies an answered CONNECT since the address last changed, and, unless a reconnection is due, a pending clearing within five intervals and a pending reconnection within fifteen |
| `Gateway.Service.HandleConnack` | framework/gateway/gateway_service.c:582-613 | keeps it; on success the node is connected with both timers armed, and the last answer is the gateway's if and only if its sender is |
| `Gateway.Service.Hush` | kernel/yloop/yloop.c:239-298 | while no message comes, the connection ends by a given time exactly when some clearing was due by then; without a reconnection due it ends within five intervals; the ageing passes that take place are one for the time the advertisement timer falls due and one for each interval after it, up to that time |
| `Gateway.Service.Fire` | framework/gateway/gateway_service.c:243-251 | a due timer of each kind does what it should and keeps the invariant: an advertisement timer is armed again and, with an address, the gateway advertises and makes one ageing pass; no other timer is lost |
| `Gateway.SilentUntil` | framework/gateway/gateway_service.c:664-730 | a gateway that hears nothing until any given time: each ageing pass due adds one to a client's counter, up to 48, and its silence, and the client is logged out once exactly if its counter reaches 48 in that time |
| `Gateway.StuckConnected` | framework/gateway/gateway_service.c:325-334 | a run after which a node is connected at any later time with no timer left: the reconnection cancelled the clearing and its answer was lost |
| `Gateway.Service.ConnectedToGateway` | framework/gateway/gateway_service.c:582-602 | in every state a connected node's last answer came from its gateway if and only if, when it came, it came from what was the gateway's address |
| `Gateway.ConnectedToNobody` | framework/gateway/gateway_service.c:582-602 | a run after which a node is connected to a gateway that never answered: a late answer of the one before counts |
| `Gateway.KeepAlive` | framework/gateway/gateway_service.c:317-323 | an advertisement of its gateway keeps a connected node connected until any time within five intervals if and only if no second clearing timer falls due by then |
| `Gateway.StaysConnected` | framework/gateway/gateway_service.c:317-323 | with one clearing timer at most, a node that hears its gateway again and again within five intervals stays connected, reconnections included |
| `Gateway.ClearedTooSoon` | framework/gateway/gateway_service.c:602 | a run in which two answers leave two timers, and the node is disconnected six seconds after hearing its gateway |
| `Gateway.Service.CloudReport` | framework/gateway/gateway_service.c:553-580 | a report goes out exactly when the cloud is not reached directly and the node is connected |
| `Gateway.Service.SocketReplaced` | framework/gateway/gateway_service.c:760-764 | losing the socket ends the connection and keeps the invariant |
| `Gateway.Service.NewClient` | framework/gateway/gateway_service.c:461-522 | finds the client by its IEEE address or appends it, so that addresses stay distinct, and restarts its silence |
| `Gateway.Service.HandleConnect` | framework/gateway/gateway_service.c:524-551 | answers in gateway mode only, with success exactly when the client list now has that client at the sender's address; other clients stay as they were |
| `Gateway.Service.Age` | framework/gateway/gateway_service.c:713-729 | one ageing pass: every counter below 48 goes up by one, those that reach it are logged out in list order, and every client stays in step with its history |
| `Gateway.Service.AdvertiseNow` | framework/gateway/gateway_service.c:664-730 | re-arms its timer first; without an address of its own the gateway neither advertises nor ages its clients |
| `Ageing.LogoutAtTheMaximum` | framework/gateway/gateway_service.c:713-717 | a client is logged out for silence exactly at the 48th ageing pass since its last CONNECT, and has then been so once |
| `Gateway.Service.Stop` | framework/gateway/gateway_service.c:956-982 | ends the connection, drops every client in order and leaves at most the surplus clearing timers |
| `Gateway.Service.OnEvent` | framework/gateway/gateway_service.c:989-1022 | a mesh or cloud event sets the mode, starts or stops the service, and leaves one advertisement timer exactly in gateway mode on a mesh |
| `MqttSn.Alloc` | framework/gateway/mqtt_sn.h:119-149 | the first two octets of a message of given type and payload length, the length octet one more than the whole modulo 256; the buffer has room for exactly the fields of that message and the payload |
| `MqttSn.ParseHeader` | framework/gateway/mqtt_sn.h:96-117 | of any framed message received, it finds the type octet if and only if the length is one that parses, and up to 254 octets it yields length, type and body |
| `MqttSn.FramingRoundTrip` | framework/gateway/mqtt_sn.h:96-149 | up to 254 octets in all, parsing what was framed yields the length and the type octet's place, and body and type are intact |
| `MqttSn.FramingLimit` | framework/gateway/mqtt_sn.h:96-149 | for every length: the parser points at the type octet if and only if the message has at most 254 octets, or is cut off by the 256-octet receive buffer with a length of 253 modulo 256 |
| `MqttSn.PackPublish` | framework/gateway/gateway_service.c:567-574 | what the senders of "set" and "rpt" build is the framing of three terminated strings behind a PUBLISH header |
| `MqttSn.HandlePublish` | framework/gateway/gateway_service.c:338-378 | on any buffer, looks for three C strings where they lie one behind the other and acts on them: a report at a gateway from a known client with the UUID put in front, get, set, or nothing; three strings that are there decide what is done, but for an empty report |
| `MqttSn.HandleMeans` | framework/gateway/gateway_service.c:338-378 | where the three strings lie they decide the action; an empty report at a gateway from a known client instead posts the C string one octet behind the value's place, or runs off the buffer |
| `MqttSn.PostTextFits` | framework/gateway/gateway_service.c:352-360 | the text posted is the whole of it, cut to the buffer that the format, the UUID, the value and 16 octets make up |
| `MqttSn.EmptyReportPosts` | framework/gateway/gateway_service.c:352-360 | for every string that fits behind an empty report there is a receive buffer with that report in which the string is what gets posted |
| `MqttSn.StringsDecide` | framework/gateway/gateway_service.c:338-378 | a packed PUBLISH has the same effect whatever the buffer held before if and only if it is not an empty report at a gateway from a known client |
| `MqttSn.PublishRoundTrip` | framework/gateway/gateway_service.c:230-235 | the strings a sender packed lie where the receiver looks for them |
| `MqttSn.CStringUnique` | framework/gateway/gateway_service.c:341-343 | and a place holds at most one terminated string |
| `MqttSn.CStringFinds` | framework/gateway/gateway_service.c:343 | the scan for a terminator finds the string that is there, and fails exactly when the buffer ends first |
| `MqttSn.ReadPublish` | framework/gateway/gateway_service.c:641-662 | from the datagram to the action, on any buffer: what is too short, does not parse or has another type is not handled as a PUBLISH; a packed PUBLISH of at most 254 octets means to the receiver what its three strings say; an empty report that a gateway takes means what the first octets behind the datagram say |
| `VFlash.WriteSizeIsLeast` | example/vflashdemo/main.c:29-30 | the sectors rewritten start at the last boundary not after the write and are the fewest that cover it |
| `VFlash.File.Write` | example/vflashdemo/main.c:22-65 | a successful write leaves the flat array with the bytes laid over it and nothing else changed; each failure leaves what it leaves: unchanged before the erase, erased sectors after it, a part of them when the write stops short |
| `VFlash.File.Read` | example/vflashdemo/main.c:67-80 | each byte read is the last one written there by any run of successful writes, or the original one |
| `VFlash.LastWriteDecides` | example/vflashdemo/main.c:44-60 | the overlay of a run of writes has, at each place, the byte of the last write over it, or the original byte |
| `VFlash.UncoveredUnchanged` | example/vflashdemo/main.c:44-60 | a byte that no write covers is as it was |
| `ComponentLoader.Config.AddDependency` | site_scons/site_init.py:391-399 | over every tree: a name from which a chain of dependencies leads into a trap of aliases without passing a loaded name exceeds every limit, loading at each level, and for any other one a limit above the given depth suffices; then all that the name needs is loaded, and in no case anything else; with canonical names nothing is loaded twice |
| `ComponentLoader.Config.AddAll` | site_scons/site_init.py:508-510 | the loop over the list it extends ends; it succeeds, with a deep enough recursion, exactly if the loaded directories lie in a set closed under dependencies that needs no trap, and the list is then closed, with nothing in it that is not needed |
| `ComponentLoader.Config.GenerateAll` | site_scons/site_init.py:478-510 | exits early exactly when the board or the application is missing, or the board builds itself; otherwise exceeds every limit exactly if a trap can be reached from board or application, and if none can, a limit above the bound suffices and exactly the existing directories that can be reached are loaded, once each with canonical names |
| `ComponentLoader.Config.NamedTwice` | site_scons/site_init.py:391-394 | naming a component a second time loads its directory again if and only if it is found elsewhere than under its name |
| `ComponentTree.Tree.TrailTraps` | site_scons/site_init.py:396-399 | a chain of aliases, each needed by the one before, that comes back to itself is one without end |
| `ComponentTree.Tree.FineNotDoomed` | site_scons/site_init.py:391-399 | when the recursion has seen to a name and to all it loaded, no chain from that name led into a trap |
| `ComponentTree.Tree.ReachedClosed` | site_scons/site_init.py:391-399 | what can be reached from two names is closed under dependencies, and needs no trap if no trap can be reached |
| `ComponentTree.Tree.LoadSum` | site_scons/site_init.py:508-510 | what an entry of the growing list adds to it by its aliases is finite, and is the sum of what each of them adds, which is why the loop ends |
| `ComponentLoader.SelfNamed` | site_scons/site_init.py:370-374 | there is such a tree: a component found by the path search that names itself |
| `ComponentLoader.DoomedName` | site_scons/site_init.py:391-399 | and a name that is no alias and in no trap, but exceeds every limit since it depends on one |
| `WifiMonitor.Sta.UpdateMax` | example/wifimonitor/wifimonitor.py:20-27 | for any order of the dictionary, the strongest of the stored reports no weaker than -1000, or none |
| `WifiMonitor.BestIsArgmax` | example/wifimonitor/wifimonitor.py:20-27 | the stored access point is an argmax of the reports if and only if one of them reaches -1000 |
| `WifiMonitor.Sta.Expired` | example/wifimonitor/wifimonitor.py:37-48 | exactly the reports younger than 30 seconds stay, the best one with them, and it tells whether none is left |
| `WifiMonitor.Mgr.MaxChanged` | example/wifimonitor/wifimonitor.py:86-94 | the reverse index follows one station from one access point to another |
| `WifiMonitor.Mgr.IndexMeans` | example/wifimonitor/wifimonitor.py:86-94 | in every state between calls an access point's stations are exactly those whose stored best it is |
| `WifiMonitor.Mgr.ReportRssi` | example/wifimonitor/wifimonitor.py:130-142 | a report keeps index and best ones right, adds the station and the access point if they are new, and touches no other station |
| `WifiMonitor.Mgr.HouseKeeping` | example/wifimonitor/wifimonitor.py:96-106 | for any order, exactly the unexpired reports and the stations that still have one stay, with index and best ones right |
| `WifiMonitor.Mgr.NamelessMeans` | example/wifimonitor/wifimonitor.py:86-94 | in every state between calls, an access point without a name has exactly the stations that last moved to none in its presence; beyond those that hear none now that is those of them that are gone |
| `WifiMonitor.StraysAre` | example/wifimonitor/wifimonitor.py:86-94 | the stations that last moved to none in its presence, move by move |
| `WifiMonitor.NamelessNotIndexed` | example/wifimonitor/wifimonitor.py:87-88 | a run with a station missing |

## Left out

- SelectProtocol: eventfd objects in select, which have a single semaphore slot.
- SelectProtocol: closing or reallocating a socket while it is selected on, which the code marks as unresolved (line 1047), and failure to create a semaphore; the sets of open sockets are therefore fixed in a behaviour.
- SelectProtocol: the out-sets of `sal_selscan`; only how many members they get is modelled. The lengths of timeouts are left to chance: a limited wait may expire at any time.
- SelectTheorems.NoLostWakeup: asks that no notifier be held up between two lock regions through 2^32 changes of the list, since `select_cb_ctr` has 32 bits.
- ReceivePath.RecvSock.RecvFrom: `lastdata` is set in one step with the fetch; in the code RCVMINUS comes between, when only the reader looks at it. The sender's address, `errno` and the -1 of a failed first pass are not modelled beyond the outcome.
- ReceivePath.RecvSock.RecvFrom: one reader at a time; the code does not protect `lastdata` against two.
- SendPath.SendSock.Post: the connect that a UDP send to an unconnected socket makes first, outside the core lock; synchronous mode, which has no mailbox.
- PcbTable.PcbList.Bind: one class stands for the TCP and the UDP list, whose code is the same; the `ERR_VAL` of a null PCB.
- Ip4Codecs.Convert: numbers that do not fit an `int`, whose conversion the C standard leaves undefined.
- SocketTable.SocketTable: a table of slots as a sequence, with no allocation failures; the drain of a socket that found no slot, listening and raw sockets.
- SocketTable.SocketTable.Close: the wait for the send mailbox to empty, the module's close, and the error event before the core lock.
- AtWorker.Worker: handlers without a postfix, whose branch clears `offset` bytes where it means the prefix's length (line 644); UART, mutexes, sending, task timeouts and allocation failures.
- AtWorker.Worker.AddTask: delimiters of 256 characters and more, for which the compaction's copy would overlap, and fail postfixes that do not fit the response buffer.
- Gateway.Service: sockets, encryption, device manager, and time other than in the event loop's terms; the fields of a CONNECT other than the IEEE address and the login flag. One event loop stands for the worker's and the main task's.
- MqttSn.HandlePublish: what a string that does not end in the receive buffer comes to, beyond that it runs off; whether the log is compiled in, without which nobody reads the value of a `set`.
- VFlash.File.Write: offsets and lengths that overflow 32 bits, and a write of no bytes at a sector boundary where allocating nothing yields a null pointer.
- ComponentLoader.Config.GenerateAll: Python's limit on recursion is a number of levels. Scripts that make no component or several, the test case list of `yts`, and config observers.
- WifiMonitor: the socket, the JSON and the plots; times are reals and a report's strength an integer.
- Thin wrappers, `sal_getaddrinfo`, socket options, logging, and the rest of the build system: nothing hard to prove.
