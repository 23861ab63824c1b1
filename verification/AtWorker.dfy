/** The AT parser's worker (framework/atparser/atparser.c): bounded buffers fed one byte at a time. */
module AtWorker {
  import opened AtText

  const RECV_BUFFER_SIZE := 512
  const OOB_MAX := 5

  /** One registered out-of-band handler, always with a postfix. */
  class Oob {
    const spec: Spec
    const data: array<char>
    var reallen: nat
    var calls: seq<string> // what the callback has been given
    ghost var times: seq<nat> // and how many bytes had been received by then

    constructor (spec: Spec)
      ensures this.spec == spec && reallen == 0 && calls == [] && times == []
      ensures fresh(data) && data.Length == spec.maxlen
    {
      this.spec := spec;
      data := new char[spec.maxlen](_ => '\0');
      reallen, calls, times := 0, [], [];
    }

    ghost function Got(): (s: string)
      reads this, data
      ensures reallen <= data.Length ==> |s| == reallen
    {
      if reallen <= data.Length then data[..reallen] else []
    }

    ghost function Now(): Gathering
      reads this, data
    {
      Gathering(Got(), calls)
    }

    /** Sound after the bytes `h`. */
    ghost predicate Good(h: string)
      reads this, data
    {
      && spec.Ok() && data.Length == spec.maxlen && reallen <= data.Length
      && (reallen > 0 ==> spec.Collecting(Got(), h))
      && spec.Frames(calls, times, h)
    }

    /** The bytes gathered before `c`: on a fresh match all of the prefix but its last byte. */
    ghost function Before(): string
      reads this, data
      requires spec.prefix != []
    {
      if reallen == 0 then spec.prefix[..|spec.prefix| - 1] else Got()
    }

    /** Line 647: start afresh from the prefix just matched. */
    method Begin()
      requires spec.Ok() && data.Length == spec.maxlen && reallen == 0
      modifies this`reallen, data
      ensures reallen == |spec.prefix| - 1 && Got() == old(Before())
    {
      forall i | 0 <= i < data.Length { data[i] := '\0'; }
      forall i | 0 <= i < |spec.prefix| - 1 { data[i] := spec.prefix[i]; }
      reallen := |spec.prefix| - 1;
    }

    /** Whether the bytes gathered are long enough and end in the postfix. */
    method AtPostfix() returns (end: bool)
      requires reallen <= data.Length
      ensures end <==> |spec.prefix| + |spec.postfix| <= reallen && EndsWith(Got(), spec.postfix)
    {
      end := |spec.prefix| + |spec.postfix| <= reallen
             && data[reallen - |spec.postfix|..reallen] == spec.postfix;
      assert |spec.postfix| <= reallen ==> Got()[reallen - |spec.postfix|..] == data[reallen - |spec.postfix|..reallen];
    }

    /** Lines 647-671: take one more byte; `clear` when the receive buffer is to be emptied. */
    method Take(c: char, ghost h: string) returns (clear: bool)
      requires Good(h)
      requires reallen > 0 || EndsWith(h + [c], spec.prefix)
      modifies this, data
      ensures Good(h + [c])
      ensures spec.Added(old(Now()), Now(), c) && (clear <==> reallen == 0)
    {
      hide EndsWith, Spec.NoEnd, Spec.Frames, Spec.Frame, Spec.Collecting, Got;
      ghost var was := Before();
      ghost var got := was + [c];
      Gathered(was, got, c, h);
      spec.Gathers(was, c, h + [c]);
      spec.FramesOn(calls, times, h, c);
      if reallen == 0 {
        Begin();
      }
      clear := true;
      if reallen < spec.maxlen {
        Store(c);
        var end := AtPostfix();
        if end {
          var frame := Contents();
          spec.FramesMore(calls, times, h + [c], got);
          calls, times := calls + [frame], times + [|h + [c]|];
          reallen := 0;
        } else {
          clear := false;
        }
      } else {
        reallen := 0;
      }
      NothingGot();
    }

    method Store(c: char)
      requires reallen < data.Length
      modifies this`reallen, data
      ensures reallen == old(reallen) + 1 && Got() == old(Got()) + [c]
    {
      data[reallen] := c;
      reallen := reallen + 1;
    }

    method Contents() returns (s: string)
      requires reallen <= data.Length
      ensures s == Got()
    {
      s := data[..reallen];
    }

    lemma NothingGot()
      ensures reallen == 0 ==> Got() == []
    {
    }

    lemma Gathered(was: string, got: string, c: char, h: string)
      requires Good(h) && was == Before() && got == was + [c]
      requires reallen > 0 || EndsWith(h + [c], spec.prefix)
      ensures EndsWith(h + [c], got) && spec.prefix <= got && spec.NoEnd(was, |was|)
    {
      if reallen > 0 {
        EndsWithSnoc(h, was, c);
        assert spec.NoEnd(was, |was|);
      } else {
        var p := spec.prefix;
        assert (h + [c])[|h + [c]| - |p|..][|p| - 1] == c;
        assert got == p;
      }
    }
  }

  /** A command waiting for its response; an empty delimiter stands for the parser's default. */
  class Task {
    const own: Delims
    const rsp: array<char>
    var offset: nat
    var signalled: nat

    constructor (own: Delims, rsp: array<char>)
      ensures this.own == own && this.rsp == rsp && offset == 0 && signalled == 0
    {
      this.own, this.rsp, offset, signalled := own, rsp, 0, 0;
    }

    ghost function Text(): (s: string)
      reads this, rsp
      ensures offset <= rsp.Length ==> |s| == offset
    {
      if offset <= rsp.Length then rsp[..offset] else []
    }

    /** The caller's buffer holds the fail postfix as a C string, which is how an overflow is reported. */
    ghost predicate Overflown(fail: string)
      reads this, rsp
    {
      offset == rsp.Length && |fail| < rsp.Length && fail <= rsp[..] && rsp[|fail|] == '\0'
    }

    /** Lines 729-732: the response now ends in one of its postfixes. */
    method Ended(d: Delims) returns (end: bool)
      requires offset <= rsp.Length
      ensures end <==> Complete(d, Text())
    {
      var s := |d.success| <= offset && rsp[offset - |d.success|..offset] == d.success;
      var f := |d.fail| <= offset && rsp[offset - |d.fail|..offset] == d.fail;
      assert |d.success| <= offset ==> Text()[offset - |d.success|..] == rsp[offset - |d.success|..offset];
      assert |d.fail| <= offset ==> Text()[offset - |d.fail|..] == rsp[offset - |d.fail|..offset];
      end := s || f;
    }

    /** Lines 725-745: a byte of the response; `done` when the waiter was signalled. */
    method Take(d: Delims, c: char) returns (done: bool)
      requires offset <= rsp.Length && |d.fail| < rsp.Length
      modifies this`offset, this`signalled, rsp
      ensures offset <= rsp.Length
      ensures signalled == old(signalled) + if done then 1 else 0
      ensures old(offset) < rsp.Length ==> Text() == old(Text()) + [c] && (done <==> Complete(d, Text()))
      ensures old(offset) == rsp.Length ==> done && Overflown(d.fail)
    {
      if offset < rsp.Length {
        rsp[offset] := c;
        offset := offset + 1;
        assert Text() == old(Text()) + [c];
        done := Ended(d);
      } else {
        forall i | 0 <= i < rsp.Length { rsp[i] := '\0'; }
        forall i | 0 <= i < |d.fail| { rsp[i] := d.fail[i]; }
        done := true;
      }
      if done {
        signalled := signalled + 1;
      }
    }
  }

  /** One turn of the handlers: where they were, the bytes in the buffer, and the first that emptied it. */
  datatype Turn = Turn(was: seq<Gathering>, room: nat, first: nat)

  class Worker {
    const defaults: Delims
    const buf: array<char>
    var offset: nat
    var begun: bool
    var kept: Delims // the delimiters of the last task served, all empty before the first
    var oobs: seq<Oob>
    var tasks: seq<Task>
    ghost var since: string // the bytes received since `buf` was last emptied
    ghost var h: string // all bytes received

    function Resolve(own: Delims): Delims {
      Delims(if own.prefix != [] then own.prefix else defaults.prefix,
             if own.success != [] then own.success else defaults.success,
             if own.fail != [] then own.fail else defaults.fail)
    }

    /** A task's own delimiters hold where it has them, the parser's where it has not. */
    lemma DelimitersOf(own: Delims)
      ensures Resolve(Delims("", "", "")) == defaults
      ensures own.prefix != "" && own.success != "" && own.fail != "" ==> Resolve(own) == own
      ensures Resolve(own).prefix == Resolve(Delims(own.prefix, "", "")).prefix
      ensures Resolve(own).success == Resolve(Delims("", own.success, "")).success
      ensures Resolve(own).fail == Resolve(Delims("", "", own.fail)).fail
    {
    }

    // ---------------------------------------------------------------- invariant

    /** What the receive buffer says about the past. */
    ghost predicate Held()
      reads this`offset, this`since, this`h, buf
    {
      && buf.Length == RECV_BUFFER_SIZE && offset < RECV_BUFFER_SIZE
      && EndsWith(since, buf[..offset]) && EndsWith(h, since)
      && forall i :: offset <= i < buf.Length ==> buf[i] == '\0'
    }

    /** The buffer is long enough to tell whether the bytes since it was last emptied end in `n` given ones. */
    ghost predicate Sees(n: nat)
      reads this`offset, this`since
    {
      offset == |since| || n <= offset
    }

    ghost predicate OobsApart()
      reads this`oobs
    {
      && |oobs| <= OOB_MAX
      && (forall i {:trigger oobs[i]} :: 0 <= i < |oobs| ==> oobs[i].data != buf)
      && (forall i, j {:trigger oobs[i], oobs[j]} :: 0 <= i < j < |oobs| ==>
            oobs[i] != oobs[j] && oobs[i].data != oobs[j].data && oobs[i].spec.prefix != oobs[j].spec.prefix)
    }

    ghost predicate OobsGood(past: string)
      reads this`oobs, oobs, set o | o in oobs :: o.data
    {
      forall i {:trigger oobs[i]} :: 0 <= i < |oobs| ==> oobs[i].Good(past)
    }

    ghost predicate Serves(t: Task)
      reads this`oobs, t
    {
      && t.offset <= t.rsp.Length && t.rsp != buf
      && Resolve(t.own).Longest() < 256 && |Resolve(t.own).fail| < t.rsp.Length
      && forall i {:trigger oobs[i]} :: 0 <= i < |oobs| ==> oobs[i].data != t.rsp
    }

    ghost predicate TasksGood()
      reads this`oobs, this`tasks, tasks
    {
      forall i {:trigger tasks[i]} :: 0 <= i < |tasks| ==> Serves(tasks[i])
    }

    /** The handlers after the bytes `past`, and the tasks. */
    ghost predicate Rest(past: string)
      reads this`oobs, this`tasks, oobs, (set o | o in oobs :: o.data), tasks
    {
      OobsApart() && OobsGood(past) && TasksGood()
    }

    ghost predicate Valid()
      reads this, buf, oobs, (set o | o in oobs :: o.data), tasks
    {
      Held() && offset <= RECV_BUFFER_SIZE - 2 && kept.Longest() < 256 && Rest(h)
    }

    constructor (defaults: Delims)
      ensures Valid() && fresh(buf)
      ensures this.defaults == defaults && oobs == [] && tasks == [] && h == since == [] && !begun
      ensures offset == 0 && kept == Delims([], [], [])
    {
      this.defaults := defaults;
      buf := new char[RECV_BUFFER_SIZE](_ => '\0');
      offset, begun, kept, oobs, tasks, since, h := 0, false, Delims([], [], []), [], [], [], [];
    }

    // ---------------------------------------------------------------- registration

    /** at_oob: whether the prefix is registered already. */
    method Registered(prefix: string) returns (dup: bool)
      ensures dup <==> exists i {:trigger oobs[i]} :: 0 <= i < |oobs| && oobs[i].spec.prefix == prefix
    {
      dup := false;
      var i := 0;
      while i < |oobs|
        invariant 0 <= i <= |oobs|
        invariant forall j {:trigger oobs[j]} :: 0 <= j < i ==> oobs[j].spec.prefix != prefix
      {
        if oobs[i].spec.prefix == prefix {
          return true;
        }
        i := i + 1;
      }
    }

    /** at_oob, for a handler with a postfix. */
    method RegisterOob(spec: Spec) returns (ok: bool)
      requires Valid() && spec.Ok()
      modifies this`oobs
      ensures Valid()
      ensures ok <==> old(|oobs|) < OOB_MAX && forall o :: o in old(oobs) ==> o.spec.prefix != spec.prefix
      ensures if ok then |oobs| == |old(oobs)| + 1 && oobs[..|old(oobs)|] == old(oobs) && fresh(oobs[|old(oobs)|])
                         && fresh(oobs[|old(oobs)|].data) && oobs[|old(oobs)|].reallen == 0
                         && oobs[|old(oobs)|].spec == spec && oobs[|old(oobs)|].calls == []
              else oobs == old(oobs)
    {
      hide Held, Oob.Good;
      if |oobs| >= OOB_MAX {
        return false;
      }
      var dup := Registered(spec.prefix);
      if dup {
        return false;
      }
      var o := new Oob(spec);
      NewIsGood(o);
      oobs := oobs + [o];
      ok := true;
    }

    lemma NewIsGood(o: Oob)
      requires o.spec.Ok() && o.data.Length == o.spec.maxlen && o.reallen == 0 && o.calls == [] && o.times == []
      ensures o.Good(h)
    {
    }

    /** at_worker_task_add. */
    method AddTask(t: Task)
      requires Valid() && Serves(t)
      modifies this`tasks
      ensures Valid() && tasks == old(tasks) + [t]
    {
      tasks := tasks + [t];
    }

    /** at_worker_task_del. */
    method DeleteTask(k: nat)
      requires Valid() && k < |tasks|
      modifies this`tasks
      ensures Valid() && tasks == old(tasks[..k] + tasks[k + 1..])
    {
      tasks := tasks[..k] + tasks[k + 1..];
      assert forall i {:trigger tasks[i]} :: 0 <= i < |tasks| ==> tasks[i] == old(tasks)[if i < k then i else i + 1];
    }

    // ---------------------------------------------------------------- one byte

    /** Lines 634-635. */
    method Append(c: char)
      requires Held() && offset <= RECV_BUFFER_SIZE - 2 && Rest(h)
      modifies this`offset, this`since, this`h, buf
      ensures Rest(old(h)) && Handlers() == old(Handlers())
      ensures Held() && offset == old(offset) + 1 && (forall n: nat {:trigger Sees(n)} :: old(Sees(n)) ==> Sees(n))
      ensures since == old(since) + [c] && h == old(h) + [c]
    {
      hide EndsWith, Oob.Good, Oob.Now;
      EndsWithSnoc(since, buf[..offset], c);
      EndsWithSnoc(h, since, c);
      ghost var text := buf[..offset] + [c];
      buf[offset] := c;
      offset := offset + 1;
      buf[offset] := '\0';
      since, h := since + [c], h + [c];
      assert buf[..offset] == text;
    }

    /** memset(buf, 0, offset); offset = 0. */
    method Clear()
      requires Held()
      modifies this`offset, this`since, buf
      ensures Held() && offset == 0 && since == []
    {
      forall i | 0 <= i < offset { buf[i] := '\0'; }
      offset, since := 0, [];
    }

    /** The buffer ends in `p`: memcmp(p, buf + offset - strlen(p), strlen(p)) == 0. */
    method Matches(p: string) returns (m: bool)
      requires Held()
      ensures m <==> EndsWith(buf[..offset], p)
      ensures m ==> EndsWith(h, p)
      ensures m <==> Hears(p, since, offset)
    {
      hide EndsWith;
      m := |p| <= offset && buf[offset - |p|..offset] == p;
      assert |p| <= offset ==> buf[..offset][offset - |p|..] == buf[offset - |p|..offset];
      EndsWithIs(buf[..offset], p);
      EndsWithIs(since, p);
      EndsWithTrans(h, since, buf[..offset]);
      if m {
        EndsWithTrans(h, buf[..offset], p);
      }
      if |p| <= offset {
        EndsWithLong(since, buf[..offset], p);
      }
    }

    /** `text` ends in `p`, and a buffer with its last `n` bytes shows it. */
    static ghost predicate Hears(p: string, text: string, n: nat) { (n == |text| || |p| <= n) && EndsWith(text, p) }

    /** A handler that took the byte empties the buffer, which has `n` bytes, when it is done or that is too full. */
    static ghost predicate Clears(was: Gathering, now: Gathering, heard: bool, n: nat) {
      (was.got != [] || heard) && (now.got == [] || n > RECV_BUFFER_SIZE - 2)
    }

    /**
     * Lines 638-679 for one handler: a frame begins if and only if the bytes since the last clearing end in
     * the prefix and the buffer still holds that many of them.
     */
    method Collect(o: Oob, c: char, ghost was: string) returns (clears: bool, ghost heard: bool)
      requires Held() && h == was + [c] && o.Good(was) && o.data != buf
      modifies this`offset, this`since, buf, o, o.data
      ensures Held() && o.Good(h)
      ensures heard == Hears(o.spec.prefix, old(since), old(offset))
      ensures o.spec.Took(old(o.Now()), o.Now(), c, heard)
      ensures clears <==> Clears(old(o.Now()), o.Now(), heard, old(offset))
      ensures if clears then offset == 0 && since == [] else offset == old(offset) && since == old(since)
    {
      hide EndsWith, Spec.Added, Spec.Frames, Spec.Collecting;
      var m := Matches(o.spec.prefix);
      clears, heard := false, m;
      if o.reallen > 0 || m {
        clears := o.Take(c, was);
        if clears {
          Clear();
        }
        if offset > RECV_BUFFER_SIZE - 2 {
          Clear();
          clears := true;
        }
      } else {
        o.spec.FramesOn(o.calls, o.times, was, c);
      }
    }

    function OobData(): set<array<char>>
      reads this`oobs
    {
      set o | o in oobs :: o.data
    }

    function HeadParts(): set<object>
      reads this`tasks
    {
      if tasks == [] then {} else {tasks[0], tasks[0].rsp}
    }

    ghost function Handlers(): (g: seq<Gathering>)
      reads this`oobs, oobs, set o | o in oobs :: o.data
      ensures |g| == |oobs| && forall i {:trigger g[i]} :: 0 <= i < |g| ==> g[i] == oobs[i].Now()
    {
      Gatherings(oobs)
    }

    static ghost function Gatherings(os: seq<Oob>): (g: seq<Gathering>)
      reads os, set o | o in os :: o.data
      ensures |g| == |os| && forall i {:trigger g[i]} :: 0 <= i < |g| ==> g[i] == os[i].Now()
    {
      if os == [] then [] else Gatherings(os[..|os| - 1]) + [os[|os| - 1].Now()]
    }

    /** Handler `k` may hear its prefix when the first to clear the buffer is `first`. */
    ghost predicate MayHear(k: nat, first: nat, text: string, n: nat)
      requires k < |oobs|
      reads this`oobs
    {
      k <= first && Hears(oobs[k].spec.prefix, text, n)
    }

    /**
     * What a turn does to the handlers, the bytes since the last clearing being `text`, the last of them `c`,
     * and `n` of them in the buffer: each takes the byte if it is at work, and begins a frame just when it
     * hears its prefix and none before it has cleared the buffer; `first` is the first that does, if any.
     */
    ghost predicate Turned(was: seq<Gathering>, now: seq<Gathering>, c: char, text: string, n: nat, first: nat)
      reads this`oobs
    {
      && |oobs| == |was| == |now| && first <= |oobs|
      && forall k {:trigger oobs[k]} :: 0 <= k < |oobs| ==> TurnOf(k, was[k], now[k], c, text, n, first)
    }

    ghost predicate TurnOf(k: nat, was: Gathering, now: Gathering, c: char, text: string, n: nat, first: nat)
      requires k < |oobs|
      reads this`oobs
    {
      && oobs[k].spec.Took(was, now, c, MayHear(k, first, text, n))
      && (k <= first ==> (k == first <==> Clears(was, now, MayHear(k, first, text, n), n)))
    }

    /** No handler is at work, nor would one begin with `n` bytes of `text` in the buffer. */
    ghost predicate Unheard(was: seq<Gathering>, text: string, n: nat)
      reads this`oobs
    {
      && |oobs| == |was|
      && forall k {:trigger oobs[k]} :: 0 <= k < |oobs| ==> was[k].got == [] && !Hears(oobs[k].spec.prefix, text, n)
    }

    lemma TurnAt(was: seq<Gathering>, now: seq<Gathering>, c: char, text: string, n: nat, first: nat, k: nat)
      requires Turned(was, now, c, text, n, first) && k < |oobs|
      ensures TurnOf(k, was[k], now[k], c, text, n, first)
    {
    }

    /** A byte that no handler hears changes nothing for them. */
    lemma UnheardTurn(was: seq<Gathering>, now: seq<Gathering>, c: char, text: string, n: nat, first: nat)
      requires Turned(was, now, c, text, n, first)
      ensures Unheard(was, text, n) ==> first == |oobs| && now == was
    {
      hide Spec.Added, Hears;
      if Unheard(was, text, n) {
        if first < |oobs| {
          TurnAt(was, now, c, text, n, first, first);
          assert false;
        }
        forall k | 0 <= k < |oobs| ensures now[k] == was[k] {
          TurnAt(was, now, c, text, n, first, k);
        }
      }
    }

    /** The first `k` handlers have had their turn, the others are as they were. */
    ghost predicate Midway(k: nat, c: char, was: string, start: seq<Gathering>, text: string, n: nat, first: nat)
      requires |start| == |oobs|
      reads this`oobs, oobs, set o | o in oobs :: o.data
    {
      forall i {:trigger oobs[i]} :: 0 <= i < |oobs| ==>
        if i < k then oobs[i].Good(was + [c]) && TurnOf(i, start[i], oobs[i].Now(), c, text, n, first)
        else oobs[i].Good(was) && oobs[i].Now() == start[i]
    }

    /** The buffer before and after the first clearing. */
    ghost predicate Emptied(text: string, n: nat, first: nat)
      reads this`oobs, this`offset, this`since
    {
      if first == |oobs| then offset == n && since == text else offset == 0 && since == []
    }

    method CollectNext(k: nat, c: char, ghost was: string, ghost start: seq<Gathering>, ghost text: string,
                       ghost n: nat, first: nat)
      returns (first': nat)
      requires Held() && OobsApart() && TasksGood() && h == was + [c]
      requires k < |oobs| == |start| && (first < k || first == |oobs|)
      requires Midway(k, c, was, start, text, n, first) && Emptied(text, n, first)
      modifies this`offset, this`since, buf, oobs[k], oobs[k].data
      ensures Held() && OobsApart() && TasksGood() && (first' <= k || first' == |oobs|)
      ensures Midway(k + 1, c, was, start, text, n, first') && Emptied(text, n, first')
    {
      hide Held, Oob.Good, Oob.Now, Spec.Ok, Spec.Took, Clears, Hears, EndsWith;
      OnlyWhole(oobs[k], was);
      var clears;
      ghost var heard;
      clears, heard := Collect(oobs[k], c, was);
      first' := if first == |oobs| && clears then k else first;
      ghost var now := oobs[k].Now();
      assert TurnOf(k, start[k], now, c, text, n, first');
    }

    /** Nothing is heard in an empty buffer. */
    static lemma OnlyWhole(o: Oob, past: string)
      requires o.Good(past)
      ensures !Hears(o.spec.prefix, [], 0)
    {
    }

    /** The loop of lines 637-680: every handler sees the byte. */
    method CollectAll(c: char, ghost was: string) returns (first: nat)
      requires Held() && Rest(was) && h == was + [c]
      modifies this`offset, this`since, buf, oobs, OobData()
      ensures Held() && Rest(h)
      ensures Turned(old(Handlers()), Handlers(), c, old(since), old(offset), first)
      ensures first <= |oobs| && Emptied(old(since), old(offset), first)
    {
      hide EndsWith, Held, Oob.Good, Oob.Now, Spec.Ok, Spec.Took, Handlers, Serves, TurnOf;
      ghost var start, text, n := Handlers(), since, offset;
      first := |oobs|;
      var k := 0;
      while k < |oobs|
        invariant 0 <= k <= |oobs| && (first < k || first == |oobs|)
        invariant Held() && OobsApart() && TasksGood() && Midway(k, c, was, start, text, n, first)
        invariant Emptied(text, n, first)
      {
        first := CollectNext(k, c, was, start, text, n, first);
        k := k + 1;
      }
    }

    /** The part of the worker that one task sees. */
    ghost function State(t: Task): Rx
      reads this`since, this`begun, t, t.rsp
    {
      Rx(since, begun, t.Text())
    }

    /** There is a task, and the buffer is long enough to tell its delimiters. */
    ghost predicate HeadSeen()
      reads this`offset, this`since, this`tasks
    {
      tasks != [] && Sees(Resolve(tasks[0].own).Longest())
    }

    lemma HeadServed()
      requires Rest(h) && tasks != []
      ensures Serves(tasks[0])
    {
    }

    /** Lines 719-722. */
    method Watch(prefix: string)
      requires Held()
      modifies this`begun
      ensures Held()
      ensures begun == (old(begun) || Hears(prefix, since, offset))
    {
      var m := Matches(prefix);
      if !begun && m {
        begun := true;
      }
    }

    /** Lines 724-746: a byte of the response, once it has begun. */
    method Respond(t: Task, c: char) returns (done: bool)
      requires Held() && Rest(h) && t in tasks && kept == Resolve(t.own)
      modifies this`offset, this`begun, this`since, buf, t`offset, t`signalled, t.rsp
      ensures Held() && Rest(h) && Handlers() == old(Handlers())
      ensures t.signalled == old(t.signalled) + if done then 1 else 0
      ensures if done then offset == 0 && since == [] && old(begun) && !begun
              else offset == old(offset) && since == old(since) && begun == old(begun)
      ensures !old(begun) ==> t.Text() == old(t.Text())
      ensures old(begun) && old(t.offset) < t.rsp.Length ==>
                t.Text() == old(t.Text()) + [c] && (done <==> Complete(kept, t.Text()))
      ensures old(begun) && old(t.offset) >= t.rsp.Length ==>
                done && t.Overflown(kept.fail)
    {
      hide Held, Rest, Handlers, Complete, Task.Text, Task.Overflown;
      RspApart(t);
      done := false;
      if begun {
        done := TakeByte(t, c);
        if done {
          begun := false;
          Discard();
        }
      }
    }

    lemma RspApart(t: Task)
      requires Rest(h) && t in tasks
      ensures t.rsp != buf && t.offset <= t.rsp.Length
    {
      hide OobsGood;
    }

    method TakeByte(t: Task, c: char) returns (done: bool)
      requires Rest(h) && t in tasks && kept == Resolve(t.own)
      modifies t`offset, t`signalled, t.rsp
      ensures Rest(h) && Handlers() == old(Handlers()) && (old(Held()) ==> Held())
      ensures t.signalled == old(t.signalled) + if done then 1 else 0
      ensures old(t.offset) < t.rsp.Length ==> t.Text() == old(t.Text()) + [c] && (done <==> Complete(kept, t.Text()))
      ensures old(t.offset) >= t.rsp.Length ==> done && t.Overflown(kept.fail)
    {
      hide Held, OobsGood, Oob.Now, Complete, Delims.Longest, Task.Text, Task.Overflown;
      done := t.Take(kept, c);
    }

    method Discard()
      requires Held() && Rest(h)
      modifies this`offset, this`since, buf
      ensures Held() && Rest(h) && Handlers() == old(Handlers())
      ensures offset == 0 && since == []
    {
      hide Held, Oob.Good, Oob.Now;
      Clear();
    }

    /** Lines 690-746: the head of the task list; `c` is the byte just received, after `past`. */
    method ServeHead(t: Task, c: char, ghost past: string, ghost cleared: bool) returns (done: bool)
      requires Held() && Rest(h) && tasks != [] && tasks[0] == t
      modifies this`offset, this`begun, this`kept, this`since, buf, t`offset, t`signalled, t.rsp
      ensures Held() && Rest(h) && Handlers() == old(Handlers())
      ensures kept == Resolve(t.own) && kept.Longest() < 256
      ensures (offset == old(offset) && since == old(since)) || (offset == 0 && since == [])
      ensures t.signalled == old(t.signalled) + if done then 1 else 0
      ensures old(since == (if cleared then [] else past + [c]) && Sees(Resolve(t.own).Longest())) ==>
                Reached(t, Rx(past, old(begun), old(t.Text())), Byte(c, cleared), done)
      ensures old(begun) ==> Answering(t, old(t.Text()), c, done)
    {
      hide Held, Rest, Handlers, Complete, EndsWith, TasksGood, Task.Text, Task.Overflown, Delims.Longest, Resolve;
      kept := Resolve(t.own);
      HeadServed();
      Watch(kept.prefix);
      done := Respond(t, c);
    }

    /** A response under way, `was` so far, has taken a byte, and is done exactly if that completes it. */
    ghost predicate Answering(t: Task, was: string, c: char, done: bool)
      reads t, t.rsp
    {
      if |was| < t.rsp.Length then t.Text() == was + [c] && (done <==> Complete(Resolve(t.own), was + [c]))
      else done && t.Overflown(Resolve(t.own).fail)
    }

    /**
     * The worker and the task are where one step from `was` leads; an overflow leaves the fail postfix as
     * the response.
     */
    ghost predicate Reached(t: Task, was: Rx, b: Byte, done: bool)
      reads this`since, this`begun, t, t.rsp
    {
      var (st, out) := Step(Resolve(t.own), t.rsp.Length, was, b);
      && since == st.since && begun == st.begun && (done <==> !out.Waiting?)
      && match out
         case Waiting | Done(_) => t.Text() == st.rsp
         case Overflow => t.Overflown(Resolve(t.own).fail)
    }

    /** Lines 749-756: a full buffer keeps as many bytes as the longest delimiter has. */
    method CheckBuffer()
      requires Held() && kept.Longest() < 256 && Rest(h)
      modifies this`offset, buf
      ensures Rest(h) && Handlers() == old(Handlers())
      ensures Held() && offset <= RECV_BUFFER_SIZE - 2
      ensures forall n: nat {:trigger Sees(n)} :: n <= kept.Longest() && old(Sees(n)) ==> Sees(n)
      ensures offset == if old(offset) > RECV_BUFFER_SIZE - 2 then kept.Longest() else old(offset)
    {
      hide Held, EndsWith, Oob.Good, Oob.Now;
      if offset > RECV_BUFFER_SIZE - 2 {
        Compact(kept.Longest());
      }
    }

    /** The last `m` bytes move to the front. */
    method Compact(m: nat)
      requires Held() && 2 * m <= offset
      modifies this`offset, buf
      ensures Held() && offset == m
    {
      hide EndsWith;
      ghost var tail := buf[offset - m..offset];
      TailEnds(since, buf[..offset], m);
      assert buf[..offset][offset - m..] == tail;
      forall i | 0 <= i < m { buf[i] := buf[offset - m + i]; }
      forall i | m <= i < offset { buf[i] := '\0'; }
      offset := m;
      assert buf[..offset] == tail;
    }

    static lemma TailEnds(s: string, t: string, m: nat)
      requires EndsWith(s, t) && m <= |t|
      ensures EndsWith(s, t[|t| - m..])
    {
      EndsWithTrans(s, t, t[|t| - m..]);
    }

    /** Lines 634-680. */
    method Arrive(c: char) returns (first: nat)
      requires Valid()
      modifies this`offset, this`since, this`h, buf, oobs, OobData()
      ensures Held() && Rest(h) && h == old(h) + [c]
      ensures Turned(old(Handlers()), Handlers(), c, old(since) + [c], old(offset) + 1, first)
      ensures first <= |oobs| && Emptied(old(since) + [c], old(offset) + 1, first)
      ensures forall n: nat {:trigger Sees(n)} :: old(Sees(n)) ==> Sees(n)
    {
      hide Held, Rest, Handlers, Turned, EndsWith;
      Append(c);
      first := CollectAll(c, old(h));
    }

    /** Lines 683-756. */
    method Settle(c: char, ghost past: string, ghost cleared: bool) returns (done: bool)
      requires Held() && Rest(h) && kept.Longest() < 256
      modifies this`offset, this`begun, this`kept, this`since, buf, HeadParts()
      ensures Valid() && Handlers() == old(Handlers())
      ensures if tasks == [] then !done else tasks[0].signalled == old(tasks[0].signalled) + if done then 1 else 0
      ensures old(since == (if cleared then [] else past + [c]) && HeadSeen()) ==>
                HeadSeen() && Reached(tasks[0], Rx(past, old(begun), old(tasks[0].Text())), Byte(c, cleared), done)
      ensures tasks != [] && old(begun) ==> Answering(tasks[0], old(tasks[0].Text()), c, done)
      ensures forall n: nat {:trigger Sees(n)} :: n <= kept.Longest() && old(Sees(n)) ==> Sees(n)
      ensures tasks == [] ==>
                && kept == old(kept) && since == old(since)
                && offset == if old(offset) > RECV_BUFFER_SIZE - 2 then kept.Longest() else old(offset)
    {
      hide Held, Rest, Handlers, Turned, Unheard, Step, Task.Text, Task.Overflown, Reached, Answering;
      hide Delims.Longest, Resolve;
      done := false;
      if tasks != [] {
        HeadServed();
        done := ServeHead(tasks[0], c, past, cleared);
      }
      CheckBuffer();
    }

    /** One turn of the worker's loop, for a byte read from the UART. */
    method Feed(c: char) returns (dropped: bool, done: bool, first: nat)
      requires Valid()
      modifies this`offset, this`begun, this`kept, this`since, this`h, buf, oobs, OobData(), HeadParts()
      ensures Valid() && !dropped && h == old(h) + [c]
      ensures Turned(old(Handlers()), Handlers(), c, old(since) + [c], old(offset) + 1, first)
      // no prefix is lost that is no longer than what compaction keeps
      ensures forall n: nat {:trigger Sees(n)} :: n <= kept.Longest() && old(Sees(n)) ==> Sees(n)
      ensures if tasks == [] then !done else tasks[0].signalled == old(tasks[0].signalled) + if done then 1 else 0
      // the head task, whether a handler has emptied the buffer or not
      ensures tasks != [] && (old(HeadSeen()) || first < |oobs|) ==>
                HeadSeen() && Reached(tasks[0], old(State(tasks[0])), Byte(c, first < |oobs|), done)
      ensures tasks != [] && old(begun) ==> Answering(tasks[0], old(tasks[0].Text()), c, done)
      ensures tasks == [] ==>
                && kept == old(kept) && since == (if first == |oobs| then old(since) + [c] else [])
                && offset == if first < |oobs| then 0
                             else if old(offset) >= RECV_BUFFER_SIZE - 2 then kept.Longest() else old(offset) + 1
    {
      hide Held, Rest, Handlers, Turned, Unheard, Step, Task.Text, Task.Overflown, Reached, Answering;
      hide Delims.Longest, Resolve;
      done, first := false, 0;
      if tasks != [] {
        HeadServed();
      }
      dropped := offset + 1 >= RECV_BUFFER_SIZE; // "Fatal error, no one is handling AT uart"
      if !dropped {
        first := Arrive(c);
        done := Settle(c, old(since), first < |oobs|);
      }
    }

    /** What is known when `xs` has gone to a task found in state `start` and it has not been signalled. */
    ghost predicate Serving(t: Task, start: Rx, xs: seq<Byte>)
      reads this`since, this`begun, this`offset, t, t.rsp
    {
      var d := Resolve(t.own);
      && start.rsp == [] && Quiet(d, t.rsp.Length, start, xs)
      && State(t) == Run(d, t.rsp.Length, start, xs).0 && Sees(d.Longest())
    }

    /** What has become of a task, found in state `start`, that was signalled on the last byte of `xs`. */
    ghost predicate Served(t: Task, start: Rx, xs: seq<Byte>)
      reads t, t.rsp
    {
      var d, size, r := Resolve(t.own), t.rsp.Length, Response(Resolve(t.own), start, xs);
      && xs != [] && Quiet(d, size, start, xs[..|xs| - 1]) && 0 < |r| <= size + 1
      && (forall m :: 0 < m < |r| ==> !Complete(d, r[..m]))
      && if |r| <= size then Complete(d, r) && t.Text() == r else t.Overflown(d.fail)
    }

    lemma Advance(t: Task, start: Rx, xs: seq<Byte>, b: Byte, done: bool)
      requires Quiet(Resolve(t.own), t.rsp.Length, start, xs) && Sees(Resolve(t.own).Longest()) && start.rsp == []
      requires Reached(t, Run(Resolve(t.own), t.rsp.Length, start, xs).0, b, done)
      ensures if done then Served(t, start, xs + [b]) && since == [] && !begun else Serving(t, start, xs + [b])
    {
      hide Complete, Response, EndsWith, Run, Quiet, Task.Text, Task.Overflown, Delims.Longest, First;
      var d, size := Resolve(t.own), t.rsp.Length;
      assert (xs + [b])[..|xs|] == xs;
      RunSnoc(d, size, start, xs, b);
      ResponseFits(d, size, start, xs);
      ResponseFits(d, size, start, xs + [b]);
      if Quiet(d, size, start, xs + [b]) {
        QuietRun(d, size, start, xs + [b]);
      } else {
        ResponseIsShortestRun(d, size, start, xs, b);
        StepIdles(d, size, Run(d, size, start, xs).0, b);
      }
    }

    lemma Begin(t: Task)
      requires t.Text() == [] && Sees(Resolve(t.own).Longest())
      ensures Serving(t, State(t), [])
    {
      QuietEmpty(Resolve(t.own), t.rsp.Length, State(t));
    }

    lemma Finish(t: Task, start: Rx, xs: seq<Byte>)
      requires Serving(t, start, xs)
      ensures Quiet(Resolve(t.own), t.rsp.Length, start, xs) && t.Text() == Response(Resolve(t.own), start, xs)
      ensures since == Since(start, xs)
    {
      QuietRun(Resolve(t.own), t.rsp.Length, start, xs);
    }

    /** The handlers' turns on the bytes of `xs`, after `start`, from one state of theirs to another. */
    ghost predicate Turns(log: seq<Turn>, start: Rx, xs: seq<Byte>, was: seq<Gathering>, now: seq<Gathering>)
      reads this`oobs
    {
      |log| == |xs| &&
      if log == [] then now == was
      else
        var turn, k := log[|log| - 1], |log| - 1;
        && xs[k].cleared == (turn.first < |oobs|)
        && Turned(turn.was, now, xs[k].c, Since(start, xs[..k]) + [xs[k].c], turn.room, turn.first)
        && Turns(log[..k], start, xs[..k], was, turn.was)
    }

    lemma TurnsSnoc(log: seq<Turn>, start: Rx, xs: seq<Byte>, was: seq<Gathering>, mid: seq<Gathering>,
                    now: seq<Gathering>, c: char, room: nat, first: nat)
      requires Turns(log, start, xs, was, mid)
      requires Turned(mid, now, c, Since(start, xs) + [c], room, first)
      ensures Turns(log + [Turn(mid, room, first)], start, xs + [Byte(c, first < |oobs|)], was, now)
    {
      hide Turned, Since;
      var more, ys := log + [Turn(mid, room, first)], xs + [Byte(c, first < |oobs|)];
      assert more[..|log|] == log && ys[..|xs|] == xs;
    }

    method Pass(t: Task, c: char, ghost start: Rx, ghost past: seq<Byte>, ghost log: seq<Turn>,
                ghost was: seq<Gathering>)
      returns (done: bool, ghost b: Byte, ghost turn: Turn)
      requires Valid() && tasks != [] && t == tasks[0] && Serving(t, start, past)
      requires Turns(log, start, past, was, Handlers())
      modifies this`offset, this`begun, this`kept, this`since, this`h, buf, t, t.rsp, oobs, OobData()
      ensures Valid() && h == old(h) + [c] && b.c == c
      ensures t.signalled == old(t.signalled) + if done then 1 else 0
      ensures Turns(log + [turn], start, past + [b], was, Handlers())
      ensures if done then Served(t, start, past + [b]) && since == [] && !begun else Serving(t, start, past + [b])
    {
      hide Valid, Served, Reached, Answering, Run, Quiet, Response, Turned, Turns, Handlers, Since;
      hide Task.Text, Resolve, Delims.Longest;
      Finish(t, start, past);
      var dropped, first;
      dropped, done, first := Feed(c);
      b, turn := Byte(c, first < |oobs|), Turn(old(Handlers()), old(offset) + 1, first);
      TurnsSnoc(log, start, past, was, old(Handlers()), Handlers(), c, old(offset) + 1, first);
      Advance(t, start, past, b, done);
    }

    /**
     * The worker with a task without a response yet at the head of its list, until the task is signalled or
     * `xs` is used up.  The buffer may hold anything, as long as that is enough to tell the delimiters; the
     * prefix may have begun in it.  `bs` says on which bytes a handler emptied the buffer, which delays a
     * response that has not begun, and `log` what the handlers did.
     */
    method Receive(t: Task, xs: string) returns (n: nat, done: bool, ghost bs: seq<Byte>, ghost log: seq<Turn>)
      requires Valid() && tasks != [] && t == tasks[0]
      requires t.Text() == [] && Sees(Resolve(t.own).Longest())
      modifies this`offset, this`begun, this`kept, this`since, this`h, buf, t, t.rsp, oobs, OobData()
      ensures Valid() && n <= |xs| && h == old(h) + xs[..n] && Chars(bs) == xs[..n]
      ensures t.signalled == old(t.signalled) + if done then 1 else 0
      ensures Turns(log, old(State(t)), bs, old(Handlers()), Handlers())
      ensures if done then Served(t, old(State(t)), bs) && since == [] && !begun
              else n == |xs| && Quiet(Resolve(t.own), t.rsp.Length, old(State(t)), bs)
                   && t.Text() == Response(Resolve(t.own), old(State(t)), bs)
    {
      hide Valid, Served, Serving, Reached, Run, Quiet, Response, Turns, Handlers, Since, Chars;
      hide Task.Text, Resolve, State, Sees;
      ghost var start, was := State(t), Handlers();
      n, done, bs, log := 0, false, [], [];
      NoTurns(start, was);
      Begin(t);
      while n < |xs| && !done
        invariant n <= |xs| && Valid() && h == old(h) + xs[..n] && Chars(bs) == xs[..n]
        invariant t.signalled == old(t.signalled) + if done then 1 else 0
        invariant Turns(log, start, bs, was, Handlers())
        invariant if done then Served(t, start, bs) && since == [] && !begun else Serving(t, start, bs)
      {
        ghost var b, turn;
        assert xs[..n + 1] == xs[..n] + [xs[n]];
        done, b, turn := Pass(t, xs[n], start, bs, log, was);
        CharsSnoc(bs, b);
        bs, log := bs + [b], log + [turn];
        n := n + 1;
      }
      if !done {
        assert xs[..n] == xs;
        Finish(t, start, bs);
      }
    }

    lemma NoTurns(start: Rx, was: seq<Gathering>)
      ensures Turns([], start, [], was, was) && Chars([]) == ""
    {
    }
  }

  // ---------------------------------------------------------------- a prefix lost

  /** A worker that has served no task, with an idle handler for "ab"; `n` bytes since the last clearing. */
  ghost predicate Listening(w: Worker, n: nat, offset: nat)
    reads w, w.buf, w.oobs, (set o | o in w.oobs :: o.data), w.tasks
  {
    && w.Valid() && w.tasks == [] && w.kept == Delims([], [], []) && w.offset == offset && |w.since| == n
    && |w.oobs| == 1 && w.oobs[0].spec == Spec("ab", "c", 16) && w.oobs[0].Now() == Gathering([], [])
  }

  /** A byte that does not complete the prefix in the buffer goes unheard. */
  method Listen(w: Worker, c: char, ghost n: nat, ghost offset: nat)
    requires Listening(w, n, offset)
    requires c != 'b' || (offset == 0 && 0 < n)
    modifies w`offset, w`begun, w`kept, w`since, w`h, w.buf, w.oobs, w.OobData()
    ensures Listening(w, n + 1, if offset >= RECV_BUFFER_SIZE - 2 then 0 else offset + 1)
    ensures w.since == old(w.since) + [c]
  {
    hide Worker.Rest, Worker.Held, Worker.Turned, Worker.Hears;
    ghost var text := w.since + [c];
    NotHeard(w.since, c, w.offset + 1);
    assert w.HeadParts() == {};
    ghost var before := w.Handlers();
    assert before[0] == w.oobs[0].Now();
    var dropped, done, first := w.Feed(c);
    w.UnheardTurn(before, w.Handlers(), c, text, old(w.offset) + 1, first);
    assert w.Handlers()[0] == w.oobs[0].Now();
  }

  lemma NotHeard(since: string, c: char, n: nat)
    requires c != 'b' || (n == 1 && since != [])
    ensures !Worker.Hears("ab", since + [c], n)
  {
    assert (since + [c])[|since|] == c;
  }

  /**
   * A prefix split by the compaction is lost. No task has been served, so the compaction keeps nothing:
   * after 511 bytes the buffer is empty, and the handler for "ab" never sees the 'a' with the 'b'.
   */
  method LostPrefix() returns (w: Worker)
    ensures fresh(w) && w.Valid() && EndsWith(w.since, "ab")
    ensures |w.oobs| == 1 && w.oobs[0].spec.prefix == "ab" && w.oobs[0].Now() == Gathering([], [])
  {
    hide Listening, Worker.Valid;
    w := Listener();
    ghost var o := w.oobs[0];
    var n := 0;
    while n < RECV_BUFFER_SIZE - 2
      invariant n <= RECV_BUFFER_SIZE - 2 && Listening(w, n, n)
      invariant fresh(w) && fresh(w.buf) && w.oobs == [o] && fresh(o) && fresh(o.data)
    {
      Listen(w, 'x', n, n);
      n := n + 1;
    }
    Listen(w, 'a', n, n);
    Listen(w, 'b', n + 1, 0);
    Heard(w, n + 2, 1);
    assert w.since[|w.since| - 2..] == "ab";
  }

  lemma Heard(w: Worker, n: nat, offset: nat)
    requires Listening(w, n, offset)
    ensures w.Valid() && |w.oobs| == 1 && w.oobs[0].spec.prefix == "ab" && w.oobs[0].Now() == Gathering([], [])
  {
  }

  method Listener() returns (w: Worker)
    ensures Listening(w, 0, 0) && |w.oobs| == 1
    ensures fresh(w) && fresh(w.buf) && fresh(w.oobs[0]) && fresh(w.oobs[0].data)
  {
    w := new Worker(Delims([], [], []));
    var ok := w.RegisterOob(Spec("ab", "c", 16));
    assert w.oobs[0].Now() == Gathering([], []);
  }
}
