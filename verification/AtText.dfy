/** Matching on the whole history of bytes: what the AT worker's bounded buffers stand for. */
module AtText {

  ghost predicate EndsWith(s: string, t: string) { |t| <= |s| && s[|s| - |t|..] == t }

  lemma EndsWithIs(s: string, t: string)
    ensures EndsWith(s, t) <==> |t| <= |s| && s[|s| - |t|..] == t
  {
  }

  lemma EndsWithSnoc(s: string, t: string, c: char)
    requires EndsWith(s, t)
    ensures EndsWith(s + [c], t + [c])
  {
  }

  lemma EndsWithTrans(s: string, t: string, u: string)
    requires EndsWith(s, t) && EndsWith(t, u)
    ensures EndsWith(s, u)
  {
    assert s[|s| - |u|..] == s[|s| - |t|..][|t| - |u|..];
  }

  /** A suffix long enough for `u` ends with it just when the whole does. */
  lemma EndsWithLong(s: string, t: string, u: string)
    requires EndsWith(s, t) && |u| <= |t|
    ensures EndsWith(s, u) <==> EndsWith(t, u)
  {
    assert s[|s| - |u|..] == s[|s| - |t|..][|t| - |u|..];
  }

  // ---------------------------------------------------------------- out-of-band frames

  /** What a handler has gathered of a frame, and the frames its callback was given. */
  datatype Gathering = Gathering(got: string, calls: seq<string>)

  /** What an out-of-band handler wants: from its prefix to the first postfix far enough behind it. */
  datatype Spec = Spec(prefix: string, postfix: string, maxlen: nat) {
    ghost predicate Ok() { prefix != [] && |prefix| - 1 <= maxlen }

    /** No end of frame among the first `n` characters of `got`. */
    ghost predicate NoEnd(got: string, n: nat)
      requires n <= |got|
    {
      forall m :: |prefix| + |postfix| <= m <= n ==> !EndsWith(got[..m], postfix)
    }

    /** `got` is being collected when the bytes received so far are `h`. */
    ghost predicate Collecting(got: string, h: string) {
      EndsWith(h, got) && prefix <= got && |got| <= maxlen && NoEnd(got, |got|)
    }

    /** `frame` may be handed to the callback when the bytes received so far are `h`. */
    ghost predicate Frame(frame: string, h: string) {
      && EndsWith(h, frame) && prefix <= frame && |frame| <= maxlen
      && 0 < |frame| && |prefix| + |postfix| <= |frame| && EndsWith(frame, postfix)
      && NoEnd(frame[..|frame| - 1], |frame| - 1)
    }

    /** Each of `calls` was a frame when `times` bytes of `h` had been received. */
    ghost predicate Frames(calls: seq<string>, times: seq<nat>, h: string) {
      && |times| == |calls|
      && forall i {:trigger calls[i]} :: 0 <= i < |calls| ==> times[i] <= |h| && Frame(calls[i], h[..times[i]])
    }

    lemma FramesOn(calls: seq<string>, times: seq<nat>, h: string, c: char)
      requires Frames(calls, times, h)
      ensures Frames(calls, times, h + [c])
    {
      forall i | 0 <= i < |calls|
        ensures times[i] <= |h + [c]| && Frame(calls[i], (h + [c])[..times[i]])
      {
        assert Frame(calls[i], h[..times[i]]);
        assert (h + [c])[..times[i]] == h[..times[i]];
      }
    }

    lemma FramesMore(calls: seq<string>, times: seq<nat>, h: string, got: string)
      requires Frames(calls, times, h) && Frame(got, h)
      ensures Frames(calls + [got], times + [|h|], h)
    {
      assert h[..|h|] == h;
    }

    /** All of the prefix but its last byte. */
    function Lead(): string { if prefix == [] then [] else prefix[..|prefix| - 1] }

    /** A byte has been added to a frame, perhaps a new one: it is now too long, complete, or neither. */
    ghost predicate Added(was: Gathering, now: Gathering, c: char) {
      var got := (if was.got == [] then Lead() else was.got) + [c];
      now == if |got| > maxlen then Gathering([], was.calls)
             else if |prefix| + |postfix| <= |got| && EndsWith(got, postfix) then Gathering([], was.calls + [got])
             else Gathering(got, was.calls)
    }

    /** A byte has gone by: a frame under way took it, and one began with it if its prefix was `heard`. */
    ghost predicate Took(was: Gathering, now: Gathering, c: char, heard: bool) {
      if was.got != [] || heard then Added(was, now, c) else now == was
    }

    /** One more byte to bytes that end no frame: too many, a frame, or still none. */
    lemma Gathers(was: string, c: char, h: string)
      requires NoEnd(was, |was|) && EndsWith(h, was + [c]) && prefix <= was + [c]
      ensures var got := was + [c];
              |got| <= maxlen ==>
                if |prefix| + |postfix| <= |got| && EndsWith(got, postfix) then Frame(got, h) else Collecting(got, h)
    {
      var got := was + [c];
      assert got[..|was| + 1] == got && got[..|got| - 1] == was;
      assert forall m :: 0 <= m <= |was| ==> got[..m] == was[..m];
    }
  }

  // ---------------------------------------------------------------- responses

  datatype Delims = Delims(prefix: string, success: string, fail: string) {
    function Longest(): (n: nat)
      ensures |prefix| <= n && |success| <= n && |fail| <= n
    {
      var m := if |prefix| > |success| then |prefix| else |success|;
      if m > |fail| then m else |fail|
    }
  }

  ghost predicate Complete(d: Delims, rsp: string) { EndsWith(rsp, d.success) || EndsWith(rsp, d.fail) }

  /** A byte, and whether an out-of-band handler emptied the buffer on it. */
  datatype Byte = Byte(c: char, cleared: bool)

  function Chars(xs: seq<Byte>): (s: string)
    ensures |s| == |xs|
  {
    seq(|xs|, i requires 0 <= i < |xs| => xs[i].c)
  }

  lemma CharsSnoc(xs: seq<Byte>, b: Byte)
    ensures Chars(xs + [b]) == Chars(xs) + [b.c]
  {
  }

  /** The bytes since the buffer was last cleared, and the response begun in them. */
  datatype Rx = Rx(since: string, begun: bool, rsp: string)

  datatype Outcome = Waiting | Done(rsp: string) | Overflow

  /** One byte, matched on the whole history. */
  ghost function Step(d: Delims, size: nat, st: Rx, b: Byte): (Rx, Outcome) {
    var since := if b.cleared then [] else st.since + [b.c];
    if !st.begun && !EndsWith(since, d.prefix) then (Rx(since, false, st.rsp), Waiting)
    else if |st.rsp| >= size then (Rx([], false, st.rsp), Overflow)
    else
      var rsp := st.rsp + [b.c];
      if Complete(d, rsp) then (Rx([], false, rsp), Done(rsp)) else (Rx(since, true, rsp), Waiting)
  }

  /** A response under way takes every byte, whether the buffer is emptied on it or not. */
  lemma BegunTakesAll(d: Delims, size: nat, st: Rx, b: Byte)
    requires st.begun && |st.rsp| < size
    ensures Step(d, size, st, b).0.rsp == st.rsp + [b.c]
    ensures Step(d, size, st, b).1.Done? <==> Complete(d, st.rsp + [b.c])
  {
  }

  lemma StepIdles(d: Delims, size: nat, st: Rx, b: Byte)
    ensures var (nx, out) := Step(d, size, st, b);
            out.Waiting? || (nx.since == [] && !nx.begun && (out.Done? ==> nx.rsp == out.rsp))
  {
  }

  /** The state after `xs` has come in state `st`, and what its last byte led to. */
  ghost function Run(d: Delims, size: nat, st: Rx, xs: seq<Byte>): (Rx, Outcome) {
    if xs == [] then (st, Waiting) else Step(d, size, Run(d, size, st, xs[..|xs| - 1]).0, xs[|xs| - 1])
  }

  /** The bytes since the buffer was last emptied, by a handler or before. */
  ghost function Since(st: Rx, xs: seq<Byte>): string {
    if xs == [] then st.since
    else
      var b := xs[|xs| - 1];
      if b.cleared then [] else Since(st, xs[..|xs| - 1]) + [b.c]
  }

  lemma SinceSnoc(st: Rx, xs: seq<Byte>, b: Byte)
    ensures Since(st, []) == st.since
    ensures Since(st, xs + [b]) == if b.cleared then [] else Since(st, xs) + [b.c]
  {
    assert (xs + [b])[..|xs|] == xs;
  }

  /** If no handler empties it, these are all bytes. */
  lemma {:induction false} SinceUncleared(st: Rx, xs: seq<Byte>)
    requires forall i :: 0 <= i < |xs| ==> !xs[i].cleared
    ensures Since(st, xs) == st.since + Chars(xs)
  {
    if xs == [] {
      assert st.since + Chars(xs) == st.since;
    } else {
      var init := xs[..|xs| - 1];
      SinceUncleared(st, init);
      assert Chars(xs) == Chars(init) + [xs[|xs| - 1].c];
    }
  }

  /**
   * Where in `xs` the response begins: at the last byte of the first occurrence of `prefix` that ends in
   * `xs` with the buffer not emptied within it, though it may begin in what was received before; at once
   * if it has begun; never is |xs|.
   */
  ghost function First(prefix: string, st: Rx, xs: seq<Byte>): (p: nat)
    ensures p <= |xs|
  {
    if xs == [] || st.begun then 0 else
    var p := First(prefix, st, xs[..|xs| - 1]);
    if p < |xs| - 1 || EndsWith(Since(st, xs), prefix) then p else |xs|
  }

  lemma {:induction false} FirstIsLeast(prefix: string, st: Rx, xs: seq<Byte>)
    requires !st.begun
    ensures forall m :: 0 < m <= First(prefix, st, xs) ==> !EndsWith(Since(st, xs[..m]), prefix)
    ensures First(prefix, st, xs) < |xs| ==> EndsWith(Since(st, xs[..First(prefix, st, xs) + 1]), prefix)
  {
    hide EndsWith, Since;
    if xs != [] {
      var init := xs[..|xs| - 1];
      FirstIsLeast(prefix, st, init);
      assert forall m :: 0 < m <= |init| ==> xs[..m] == init[..m];
      assert xs[..|xs|] == xs;
    }
  }

  lemma FirstSnoc(prefix: string, st: Rx, xs: seq<Byte>, b: Byte)
    ensures First(prefix, st, xs + [b])
         == if st.begun then 0
            else if First(prefix, st, xs) < |xs| || EndsWith(Since(st, xs + [b]), prefix) then First(prefix, st, xs)
            else |xs| + 1
  {
    hide Since;
    assert (xs + [b])[..|xs|] == xs;
  }

  lemma RunSnoc(d: Delims, size: nat, st: Rx, xs: seq<Byte>, b: Byte)
    ensures Run(d, size, st, xs + [b]) == Step(d, size, Run(d, size, st, xs).0, b)
  {
    assert (xs + [b])[..|xs|] == xs;
  }

  /** The response under way: everything from where it begins. */
  ghost function Response(d: Delims, st: Rx, xs: seq<Byte>): string { Chars(xs[First(d.prefix, st, xs)..]) }

  lemma DropSnoc(xs: seq<Byte>, b: Byte, p: nat)
    requires p <= |xs|
    ensures Chars((xs + [b])[p..]) == Chars(xs[p..]) + [b.c]
  {
  }

  lemma ResponseSnoc(d: Delims, st: Rx, xs: seq<Byte>, b: Byte)
    ensures var p := First(d.prefix, st, xs + [b]);
            && (p <= |xs| ==> Response(d, st, xs + [b]) == Response(d, st, xs) + [b.c])
            && (p > |xs| ==> Response(d, st, xs + [b]) == Response(d, st, xs) == [])
  {
    hide First, EndsWith, Since, Chars;
    FirstSnoc(d.prefix, st, xs, b);
    FirstBegun(d.prefix, st, xs);
    DropSnoc(xs, b, First(d.prefix, st, xs));
    hide Response;
    ResponseIs(d, st, xs);
    ResponseIs(d, st, xs + [b]);
  }

  lemma FirstBegun(prefix: string, st: Rx, xs: seq<Byte>)
    ensures st.begun || xs == [] ==> First(prefix, st, xs) == 0
  {
  }

  lemma ResponseIs(d: Delims, st: Rx, xs: seq<Byte>)
    ensures Response(d, st, xs) == Chars(xs[First(d.prefix, st, xs)..])
  {
  }

  /** Up to the end of `xs` no run from where the response begins is complete, and none has outgrown `size`. */
  ghost predicate Quiet(d: Delims, size: nat, st: Rx, xs: seq<Byte>) {
    var r := Response(d, st, xs);
    |r| <= size && forall m :: 0 < m <= |r| ==> !Complete(d, r[..m])
  }

  lemma QuietSnoc(d: Delims, size: nat, st: Rx, xs: seq<Byte>, b: Byte)
    ensures var r := Response(d, st, xs + [b]);
            Quiet(d, size, st, xs + [b])
            <==> Quiet(d, size, st, xs) && |r| <= size && (r != [] ==> !Complete(d, r))
  {
    hide First, Complete, Response;
    var q, r := Response(d, st, xs), Response(d, st, xs + [b]);
    FirstSnoc(d.prefix, st, xs, b);
    ResponseSnoc(d, st, xs, b);
    assert r[..|r|] == r;
    assert forall m :: 0 < m <= |q| && r == q + [b.c] ==> r[..m] == q[..m];
  }

  lemma QuietMeans(d: Delims, size: nat, st: Rx, xs: seq<Byte>)
    requires Quiet(d, size, st, xs)
    ensures forall m :: 0 < m <= |Response(d, st, xs)| ==> !Complete(d, Response(d, st, xs)[..m])
  {
  }

  lemma QuietEmpty(d: Delims, size: nat, st: Rx)
    ensures Response(d, st, []) == [] && Quiet(d, size, st, []) && Run(d, size, st, []) == (st, Waiting)
  {
  }

  /** While quiet, the machine holds everything received, and the response under way. */
  lemma {:induction false} QuietRun(d: Delims, size: nat, st: Rx, xs: seq<Byte>)
    requires Quiet(d, size, st, xs) && st.rsp == []
    ensures Run(d, size, st, xs)
         == (Rx(Since(st, xs), st.begun || First(d.prefix, st, xs) < |xs|, Response(d, st, xs)), Waiting)
  {
    hide First, Complete, Response, EndsWith, Run, Quiet, Since;
    QuietEmpty(d, size, st);
    FirstBegun(d.prefix, st, xs);
    if xs == [] {
      SinceSnoc(st, [], Byte(' ', true));
    } else {
      var init, b := xs[..|xs| - 1], xs[|xs| - 1];
      assert xs == init + [b];
      SinceSnoc(st, init, b);
      QuietSnoc(d, size, st, init, b);
      QuietRun(d, size, st, init);
      RunSnoc(d, size, st, init, b);
      FirstSnoc(d.prefix, st, init, b);
      ResponseSnoc(d, st, init, b);
      ResponseFits(d, size, st, init);
    }
  }

  lemma ResponseFits(d: Delims, size: nat, st: Rx, xs: seq<Byte>)
    ensures Quiet(d, size, st, xs) ==> |Response(d, st, xs)| <= size
    ensures |Response(d, st, xs)| == |xs| - First(d.prefix, st, xs)
  {
  }

  /**
   * The first byte that ends the quiet: the response is the shortest run, from where it begins, that ends
   * in a success or fail postfix; or it has outgrown the caller's buffer.
   */
  lemma ResponseIsShortestRun(d: Delims, size: nat, st: Rx, xs: seq<Byte>, b: Byte)
    requires Quiet(d, size, st, xs) && !Quiet(d, size, st, xs + [b]) && st.rsp == []
    ensures First(d.prefix, st, xs + [b]) <= |xs|
    ensures var r := Response(d, st, xs + [b]);
            && (forall m :: 0 < m < |r| ==> !Complete(d, r[..m]))
            && Run(d, size, st, xs + [b]).1 == (if |r| <= size then Done(r) else Overflow)
            && (if |r| <= size then Complete(d, r) else |r| == size + 1)
  {
    var q, r := Response(d, st, xs), Response(d, st, xs + [b]);
    hide First, Complete, Response, EndsWith, Run, Quiet, Since;
    SinceSnoc(st, xs, b);
    QuietMeans(d, size, st, xs);
    QuietRun(d, size, st, xs);
    RunSnoc(d, size, st, xs, b);
    FirstSnoc(d.prefix, st, xs, b);
    ResponseSnoc(d, st, xs, b);
    QuietSnoc(d, size, st, xs, b);
    ResponseFits(d, size, st, xs);
    ResponseFits(d, size, st, xs + [b]);
    assert forall m :: 0 < m <= |q| && r == q + [b.c] ==> r[..m] == q[..m];
  }
}
