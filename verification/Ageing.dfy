/** What the gateway does to its clients over time, and how long each has been silent. */
module Ageing {

  const MAX_RECONNECT_TIMEOUT := 48

  datatype Event =
    | Connected(ieee: int, login: bool) // a CONNECT was accepted
    | Tick // an ageing pass began
    | TimedOut(ieee: int) // logged out for its silence
    | Left(ieee: int) // removed because the service stopped

  /** Ageing passes since the last CONNECT of `ieee`. */
  ghost function Silence(trace: seq<Event>, ieee: int): nat {
    if trace == [] then 0 else
    var e, before := trace[|trace| - 1], Silence(trace[..|trace| - 1], ieee);
    match e
    case Connected(i, _) => if i == ieee then 0 else before
    case Tick => before + 1
    case _ => before
  }

  /** Logouts of `ieee` for silence since its last CONNECT. */
  ghost function Logouts(trace: seq<Event>, ieee: int): nat {
    if trace == [] then 0 else
    var e, before := trace[|trace| - 1], Logouts(trace[..|trace| - 1], ieee);
    match e
    case Connected(i, _) => if i == ieee then 0 else before
    case TimedOut(i) => if i == ieee then before + 1 else before
    case _ => before
  }

  lemma Snoc(trace: seq<Event>, e: Event, ieee: int)
    ensures Silence(trace + [e], ieee)
         == match e
            case Connected(i, _) => if i == ieee then 0 else Silence(trace, ieee)
            case Tick => Silence(trace, ieee) + 1
            case _ => Silence(trace, ieee)
    ensures Logouts(trace + [e], ieee)
         == match e
            case Connected(i, _) => if i == ieee then 0 else Logouts(trace, ieee)
            case TimedOut(i) => if i == ieee then Logouts(trace, ieee) + 1 else Logouts(trace, ieee)
            case _ => Logouts(trace, ieee)
  {
    assert (trace + [e])[..|trace|] == trace;
  }

  datatype Client = Client(ieee: int, uuid: string, addr: int, timeout: nat)

  /**
   * The counter is the silence, up to the maximum, and a client has been logged out for its silence
   * once when it has reached the maximum, and never before.
   */
  ghost predicate InStep(c: Client, trace: seq<Event>) {
    var silence := Silence(trace, c.ieee);
    && c.timeout == (if silence < MAX_RECONNECT_TIMEOUT then silence else MAX_RECONNECT_TIMEOUT)
    && Logouts(trace, c.ieee) == if silence >= MAX_RECONNECT_TIMEOUT then 1 else 0
  }

  /** An ageing pass has begun but has not come to `c` yet. */
  ghost predicate Due(c: Client, trace: seq<Event>) {
    var silence := Silence(trace, c.ieee) - 1;
    && 0 <= silence
    && c.timeout == (if silence < MAX_RECONNECT_TIMEOUT then silence else MAX_RECONNECT_TIMEOUT)
    && Logouts(trace, c.ieee) == if silence >= MAX_RECONNECT_TIMEOUT then 1 else 0
  }

  ghost predicate Distinct(cs: seq<Client>) {
    forall i, j {:trigger cs[i], cs[j]} :: 0 <= i < j < |cs| ==> cs[i].ieee != cs[j].ieee
  }

  ghost predicate AllInStep(cs: seq<Client>, trace: seq<Event>) {
    forall i {:trigger cs[i]} :: 0 <= i < |cs| ==> InStep(cs[i], trace)
  }

  /** One client of an ageing pass. */
  ghost function Aged(c: Client): Client {
    if c.timeout < MAX_RECONNECT_TIMEOUT then c.(timeout := c.timeout + 1) else c
  }

  ghost function AgeEvents(c: Client): seq<Event> {
    if c.timeout == MAX_RECONNECT_TIMEOUT - 1 then [TimedOut(c.ieee)] else []
  }

  lemma TickDue(c: Client, trace: seq<Event>)
    requires InStep(c, trace)
    ensures Due(c, trace + [Tick])
  {
    Snoc(trace, Tick, c.ieee);
  }

  lemma AgedInStep(c: Client, trace: seq<Event>)
    requires Due(c, trace)
    ensures InStep(Aged(c), trace + AgeEvents(c))
  {
    if AgeEvents(c) == [] {
      assert trace + [] == trace;
    } else {
      Snoc(trace, TimedOut(c.ieee), c.ieee);
    }
  }

  lemma OthersKept(c: Client, trace: seq<Event>, e: Event)
    requires e.TimedOut? || e.Left? || (e.Connected? && e.ieee != c.ieee)
    requires e.TimedOut? ==> e.ieee != c.ieee
    ensures InStep(c, trace) ==> InStep(c, trace + [e])
    ensures Due(c, trace) ==> Due(c, trace + [e])
  {
    Snoc(trace, e, c.ieee);
  }

  lemma FreshInStep(c: Client, trace: seq<Event>, login: bool)
    requires c.timeout == 0
    ensures InStep(c, trace + [Connected(c.ieee, login)])
  {
    Snoc(trace, Connected(c.ieee, login), c.ieee);
  }

  // ---------------------------------------------------------------- pass after pass

  /** The timeout logouts of one ageing pass. */
  ghost function TimedOuts(cs: seq<Client>): seq<Event> {
    if cs == [] then [] else TimedOuts(cs[..|cs| - 1]) + AgeEvents(cs[|cs| - 1])
  }

  lemma NoneTimedOut()
    ensures TimedOuts([]) == []
  {
  }

  lemma TimedOutsSnoc(cs: seq<Client>, k: nat)
    requires k < |cs|
    ensures TimedOuts(cs[..k + 1]) == TimedOuts(cs[..k]) + AgeEvents(cs[k])
  {
    assert cs[..k + 1][..k] == cs[..k];
  }

  /** A client after `k` passes without a word from it. */
  ghost function AgedBy(c: Client, k: nat): Client {
    c.(timeout := if c.timeout + k <= MAX_RECONNECT_TIMEOUT then c.timeout + k
                  else if c.timeout <= MAX_RECONNECT_TIMEOUT then MAX_RECONNECT_TIMEOUT
                  else c.timeout)
  }

  ghost function AgedAll(cs: seq<Client>, k: nat): seq<Client> {
    seq(|cs|, i requires 0 <= i < |cs| => AgedBy(cs[i], k))
  }

  lemma AgedMore(cs: seq<Client>, k: nat, now: seq<Client>)
    requires |now| == |cs| && forall i {:trigger now[i]} :: 0 <= i < |cs| ==> now[i] == Aged(AgedAll(cs, k)[i])
    ensures now == AgedAll(cs, k + 1)
  {
  }

  lemma AgedNone(cs: seq<Client>)
    ensures AgedAll(cs, 0) == cs
  {
  }

  /** What `k` passes add to the history. */
  ghost function Passes(cs: seq<Client>, k: nat): seq<Event> {
    if k == 0 then [] else Passes(cs, k - 1) + ([Tick] + TimedOuts(AgedAll(cs, k - 1)))
  }

  lemma PassesMore(cs: seq<Client>, k: nat)
    ensures Passes(cs, k + 1) == Passes(cs, k) + ([Tick] + TimedOuts(AgedAll(cs, k)))
  {
  }

  lemma {:induction false} TimeoutsAreSilent(trace: seq<Event>, cs: seq<Client>, ieee: int)
    ensures Silence(trace + TimedOuts(cs), ieee) == Silence(trace, ieee)
  {
    if cs == [] {
      assert trace + [] == trace;
    } else {
      var c := cs[|cs| - 1];
      var before := trace + TimedOuts(cs[..|cs| - 1]);
      TimeoutsAreSilent(trace, cs[..|cs| - 1], ieee);
      assert trace + TimedOuts(cs) == before + AgeEvents(c);
      if AgeEvents(c) != [] {
        Snoc(before, TimedOut(c.ieee), ieee);
      } else {
        assert before + [] == before;
      }
    }
  }

  /** Each pass is one more in everybody's silence. */
  lemma {:induction false} PassesAreSilence(trace: seq<Event>, cs: seq<Client>, k: nat, ieee: int)
    ensures Silence(trace + Passes(cs, k), ieee) == Silence(trace, ieee) + k
  {
    hide Silence, TimedOuts, Passes, AgedAll;
    if k == 0 {
      PassesNone(cs);
      assert trace + [] == trace;
    } else {
      var before, outs := trace + Passes(cs, k - 1), TimedOuts(AgedAll(cs, k - 1));
      PassesAreSilence(trace, cs, k - 1, ieee);
      Snoc(before, Tick, ieee);
      TimeoutsAreSilent(before + [Tick], AgedAll(cs, k - 1), ieee);
      PassesMore(cs, k - 1);
      Regrouped(trace, Passes(cs, k - 1), Tick, outs);
    }
  }

  lemma PassesNone(cs: seq<Client>)
    ensures Passes(cs, 0) == []
  {
  }

  lemma Regrouped(a: seq<Event>, b: seq<Event>, e: Event, c: seq<Event>)
    ensures a + (b + ([e] + c)) == a + b + [e] + c
  {
  }

  /** A client that was in step and has been silent for `k` more passes: at 48 it has been logged out, once. */
  lemma SilentFor(c: Client, trace: seq<Event>, cs: seq<Client>, k: nat)
    requires InStep(c, trace) && InStep(AgedBy(c, k), trace + Passes(cs, k))
    ensures Silence(trace + Passes(cs, k), c.ieee) == Silence(trace, c.ieee) + k
    ensures Logouts(trace + Passes(cs, k), c.ieee)
         == Logouts(trace, c.ieee) + if c.timeout < MAX_RECONNECT_TIMEOUT <= c.timeout + k then 1 else 0
  {
    PassesAreSilence(trace, cs, k, c.ieee);
  }

  /** The one logout of a silent period comes with its 48th ageing pass. */
  lemma LogoutAtTheMaximum(c: Client, trace: seq<Event>)
    requires InStep(c, trace)
    ensures AgeEvents(c) != [] <==> Silence(trace + [Tick], c.ieee) == MAX_RECONNECT_TIMEOUT
    ensures InStep(Aged(c), trace + [Tick] + AgeEvents(c))
  {
    Snoc(trace, Tick, c.ieee);
    TickDue(c, trace);
    AgedInStep(c, trace + [Tick]);
  }
}
