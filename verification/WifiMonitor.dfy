/** Which access point hears each station best (example/wifimonitor/wifimonitor.py), kept with a reverse index. */
module WifiMonitor {

  datatype Report = Report(rssi: int, at: real)

  /** The reports stored, station by station and access point by access point. */
  type Stored = map<string, map<string, Report>>

  const FLOOR := -1000
  const LIFETIME := 30.0

  /** `ap` is what the stored reports say: the strongest of those no weaker than the floor, or "". */
  ghost predicate IsBest(rssis: map<string, Report>, ap: string) {
    if forall m :: m in rssis ==> rssis[m].rssi < FLOOR then ap == ""
    else ap in rssis && FLOOR <= rssis[ap].rssi && forall m :: m in rssis ==> rssis[m].rssi <= rssis[ap].rssi
  }

  /** The stored access point is an argmax of the reports just when one of them reaches the floor. */
  lemma BestIsArgmax(rssis: map<string, Report>, ap: string)
    requires IsBest(rssis, ap) && "" !in rssis
    ensures (ap in rssis && forall m :: m in rssis ==> rssis[m].rssi <= rssis[ap].rssi)
            <==> exists m :: m in rssis && FLOOR <= rssis[m].rssi
  {
  }

  function Unexpired(rssis: map<string, Report>, now: real): map<string, Report> {
    map m | m in rssis && now - rssis[m].at < LIFETIME :: rssis[m]
  }

  function TidiedOne(reports: Stored, sta: string, now: real): Stored
    requires sta in reports
  {
    var left := Unexpired(reports[sta], now);
    if left == map[] then reports - {sta} else reports[sta := left]
  }

  /** All but the stations in `todo` have lost their old reports, and are gone if there were no others. */
  function PartlyTidied(reports: Stored, todo: set<string>, now: real): Stored {
    map s | s in reports && (s in todo || Unexpired(reports[s], now) != map[]) ::
      if s in todo then reports[s] else Unexpired(reports[s], now)
  }

  function Tidied(reports: Stored, now: real): Stored {
    map s | s in reports && Unexpired(reports[s], now) != map[] :: Unexpired(reports[s], now)
  }

  lemma TidiedOneIs(reports: Stored, sta: string, now: real)
    requires sta in reports
    ensures var left := Unexpired(reports[sta], now);
            TidiedOne(reports, sta, now) == if left == map[] then reports[sta := left] - {sta} else reports[sta := left]
  {
    hide Unexpired;
    var left := Unexpired(reports[sta], now);
    assert reports[sta := left] - {sta} == reports - {sta};
  }

  lemma NothingTidied(reports: Stored, now: real)
    ensures PartlyTidied(reports, reports.Keys, now) == reports
  {
  }

  lemma AllTidied(reports: Stored, now: real)
    ensures PartlyTidied(reports, {}, now) == Tidied(reports, now)
  {
  }

  lemma TidyStep(reports: Stored, todo: set<string>, sta: string, now: real)
    requires sta in todo && sta in PartlyTidied(reports, todo, now)
    ensures TidiedOne(PartlyTidied(reports, todo, now), sta, now) == PartlyTidied(reports, todo - {sta}, now)
    ensures todo <= PartlyTidied(reports, todo, now).Keys ==>
              todo - {sta} <= PartlyTidied(reports, todo - {sta}, now).Keys
  {
    hide Unexpired;
  }

  class Sta {
    const mac: string
    var rssis: map<string, Report>
    var maxRssi: int
    var maxAp: string

    constructor (mac: string)
      ensures this.mac == mac && rssis == map[] && maxAp == ""
    {
      this.mac, rssis, maxRssi, maxAp := mac, map[], -500, "";
    }

    /** _update_max, for any order of the dictionary. */
    method UpdateMax()
      modifies this`maxRssi, this`maxAp
      ensures IsBest(rssis, maxAp)
    {
      maxRssi, maxAp := FLOOR, "";
      var todo := rssis.Keys;
      while todo != {}
        invariant todo <= rssis.Keys && FLOOR <= maxRssi
        invariant forall m :: m in rssis && m !in todo ==> rssis[m].rssi <= maxRssi
        invariant (maxAp in rssis && maxAp !in todo && rssis[maxAp].rssi == maxRssi)
               || (maxAp == "" && maxRssi == FLOOR && forall m :: m in rssis && m !in todo ==> rssis[m].rssi < FLOOR)
        decreases todo
      {
        var m :| m in todo;
        todo := todo - {m};
        if rssis[m].rssi >= maxRssi {
          maxRssi, maxAp := rssis[m].rssi, m;
        }
      }
    }

    method UpdateRssi(apMac: string, rssi: int, now: real)
      modifies this
      ensures rssis == old(rssis)[apMac := Report(rssi, now)] && IsBest(rssis, maxAp)
    {
      rssis := rssis[apMac := Report(rssi, now)];
      UpdateMax();
    }

    /** expired: old reports go; true if none is left. */
    method Expired(now: real) returns (none: bool)
      requires IsBest(rssis, maxAp)
      modifies this
      ensures rssis == Unexpired(old(rssis), now) && IsBest(rssis, maxAp)
      ensures none <==> rssis == map[]
    {
      var shouldUpdate := false;
      var todo := rssis.Keys;
      ghost var was, best := rssis, maxAp;
      while todo != {}
        invariant todo <= was.Keys && maxAp == best
        invariant rssis == map m | m in was && (m in todo || now - was[m].at < LIFETIME) :: was[m]
        invariant shouldUpdate || rssis == was
        decreases todo
      {
        var m :| m in todo;
        todo := todo - {m};
        if now - rssis[m].at >= LIFETIME {
          rssis := rssis - {m};
          shouldUpdate := true;
        }
      }
      assert rssis == Unexpired(was, now);
      if shouldUpdate {
        UpdateMax();
      }
      none := |rssis| <= 0;
    }
  }

  class Ap {
    const mac: string
    var stas: set<string>

    constructor (mac: string)
      ensures this.mac == mac && stas == {}
    {
      this.mac, stas := mac, {};
    }

    method AddSta(sta: string)
      modifies this
      ensures stas == old(stas) + {sta}
    {
      stas := stas + {sta};
    }

    method DelSta(sta: string)
      modifies this
      ensures stas == old(stas) - {sta}
    {
      if sta in stas {
        stas := stas - {sta};
      }
    }
  }

  /** The stations of `best` whose access point is `ap`. */
  ghost function Hearers(best: map<string, string>, ap: string): set<string> { set s | s in best && best[s] == ap }

  lemma HearersMove(best: map<string, string>, sta: string, ap: string)
    ensures forall a: string :: a != "" ==>
              (Hearers(best[sta := ap], a)
               == if a == ap then Hearers(best, a) + {sta}
                  else if sta in best && a == best[sta] then Hearers(best, a) - {sta}
                  else Hearers(best, a))
  {
  }

  lemma HearersLeave(best: map<string, string>, sta: string)
    requires sta in best && best[sta] == ""
    ensures forall a :: a != "" ==> Hearers(best - {sta}, a) == Hearers(best, a)
  {
  }

  /** A station's best access point has changed; `nameless` if there was an access point without a name. */
  datatype Move = Move(sta: string, from: string, to: string, nameless: bool)

  /** The stations whose last move was to no access point, when there was one without a name. */
  ghost function Strays(moves: seq<Move>): set<string> {
    if moves == [] then {} else
    var m := moves[|moves| - 1];
    if m.to == "" && m.nameless then Strays(moves[..|moves| - 1]) + {m.sta} else Strays(moves[..|moves| - 1]) - {m.sta}
  }

  lemma StraysSnoc(moves: seq<Move>, m: Move)
    ensures Strays(moves + [m]) == if m.to == "" && m.nameless then Strays(moves) + {m.sta} else Strays(moves) - {m.sta}
  {
    assert (moves + [m])[..|moves|] == moves;
  }

  /** Move `i` is the last one of its station. */
  ghost predicate IsLast(moves: seq<Move>, i: nat)
    requires i < |moves|
  {
    forall j {:trigger moves[j]} :: i < j < |moves| ==> moves[j].sta != moves[i].sta
  }

  lemma {:induction false} StraysAre(moves: seq<Move>, s: string)
    ensures s in Strays(moves)
            <==> exists i :: 0 <= i < |moves| && moves[i].sta == s && IsLast(moves, i)
                             && moves[i].to == "" && moves[i].nameless
  {
    if moves != [] {
      var n := |moves| - 1;
      var init := moves[..n];
      StraysAre(init, s);
      assert IsLast(moves, n);
      forall i | 0 <= i < n ensures IsLast(moves, i) <==> IsLast(init, i) && moves[n].sta != moves[i].sta {
        assert forall j {:trigger moves[j]} :: i < j < n ==> moves[j] == init[j];
      }
    }
  }

  class Mgr {
    var aps: map<string, Ap>
    var stas: map<string, Sta>
    ghost var best: map<string, string> // each station's max_ap
    ghost var moves: seq<Move> // every change of it that the index was told of

    ghost var apObjs: set<Ap> // where the access points and the stations are
    ghost var staObjs: set<Sta>

    ghost predicate Distinct()
      reads this`aps, this`stas, this`apObjs, this`staObjs
    {
      && (forall a :: a in aps ==> aps[a] in apObjs) && (forall s :: s in stas ==> stas[s] in staObjs)
      && (forall a, b :: a in aps && b in aps && a != b ==> aps[a] != aps[b])
      && (forall s, t :: s in stas && t in stas && s != t ==> stas[s] != stas[t])
    }

    /**
     * The index agrees with the stations, for access points that have a name; one without a name has the
     * stations gone astray.
     */
    ghost predicate Index()
      reads this`aps, this`best, this`moves, this`apObjs, apObjs
    {
      && (forall a :: a in aps && a != "" ==> aps[a] in apObjs && aps[a].stas == Hearers(best, a))
      && (if "" in aps then aps[""] in apObjs && aps[""].stas == Strays(moves) else Strays(moves) == {})
      && (forall s :: s in best && best[s] != "" ==> s !in Strays(moves))
    }

    ghost predicate Settled(s: string, sta: Sta)
      reads this`aps, this`best, sta
    {
      Sound(best, aps.Keys, s, sta.rssis, sta.maxAp)
    }

    static ghost predicate Sound(
      best: map<string, string>, known: set<string>, s: string, rssis: map<string, Report>, maxAp: string)
    {
      s in best && best[s] == maxAp && IsBest(rssis, maxAp) && rssis.Keys <= known
    }

    static lemma SoundMore(best: map<string, string>, known: set<string>, more: set<string>)
      requires known <= more
      ensures forall s, rssis, maxAp :: Sound(best, known, s, rssis, maxAp) ==> Sound(best, more, s, rssis, maxAp)
    {
      hide IsBest;
    }

    ghost predicate Stations()
      reads this, staObjs
    {
      best.Keys == stas.Keys && forall s :: s in stas ==> stas[s] in staObjs && Settled(s, stas[s])
    }

    ghost predicate Core()
      reads this, apObjs, staObjs
    {
      Distinct() && Stations() && Index()
    }

    /** Between calls every station has been heard. */
    ghost predicate Valid()
      reads this, apObjs, staObjs
    {
      Core() && forall s :: s in stas ==> stas[s].rssis != map[]
    }

    /** What Valid() says of the index, station by station. */
    lemma IndexMeans(a: string, s: string)
      requires Valid() && a in aps && a != ""
      ensures s in aps[a].stas <==> s in stas && stas[s].maxAp == a
    {
      assert s in stas ==> Settled(s, stas[s]);
    }

    /**
     * The access point without a name has the stations that last moved to none in its presence. Beyond those
     * that hear none now, that is those of them that are gone.
     */
    lemma NamelessMeans()
      requires Valid() && "" in aps
      ensures aps[""].stas == Strays(moves)
      ensures var none := set s | s in stas && stas[s].maxAp == ""; aps[""].stas - none == Strays(moves) - stas.Keys
    {
      hide Strays;
      forall s | s in stas ensures s in Strays(moves) ==> stas[s].maxAp == "" {
        assert Settled(s, stas[s]);
      }
    }

    constructor ()
      ensures Valid() && aps == map[] && stas == map[] && apObjs == {} && staObjs == {} && moves == []
    {
      aps, stas, best, moves, apObjs, staObjs := map[], map[], map[], [], {}, {};
    }

    lemma Unheard(mac: string)
      requires Core() && mac !in aps && mac != ""
      ensures Hearers(best, mac) == {}
    {
      forall s | s in best ensures best[s] != mac {
        assert Settled(s, stas[s]);
      }
    }

    method AddAp(mac: string)
      requires Core()
      modifies this`aps, this`apObjs
      ensures fresh(apObjs - old(apObjs)) && old(apObjs) <= apObjs
      ensures Core() && aps.Keys == old(aps.Keys) + {mac}
      ensures forall a :: a in old(aps) ==> aps[a] == old(aps)[a]
      ensures mac !in old(aps) ==> fresh(aps[mac]) && aps[mac].stas == {}
    {
      hide Strays, Hearers, IsBest, Core;
      if mac in aps {
        return;
      }
      if mac != "" {
        Unheard(mac);
      }
      var ap := new Ap(mac);
      PutAp(mac, ap);
    }

    method PutAp(mac: string, ap: Ap)
      requires Core() && mac !in aps && ap.stas == {} && ap !in apObjs
      requires mac != "" ==> Hearers(best, mac) == {}
      modifies this`aps, this`apObjs
      ensures Core() && aps == old(aps)[mac := ap] && apObjs == old(apObjs) + {ap}
    {
      hide Strays, Hearers, Sound;
      SoundMore(best, aps.Keys, aps.Keys + {mac});
      aps, apObjs := aps[mac := ap], apObjs + {ap};
      assert aps.Keys == old(aps.Keys) + {mac};
    }

    /** sta_rssi_max_changed: the index follows one station. */
    method MaxChanged(sta: string, oldMax: string, newMax: string)
      requires Distinct() && Index() && sta in best && best[sta] == oldMax
      modifies this`best, this`moves, apObjs
      ensures Index() && best == old(best)[sta := newMax]
      ensures moves == old(moves) + if oldMax == newMax then [] else [Move(sta, oldMax, newMax, "" in aps)]
    {
      hide Strays, Hearers;
      HearersMove(best, sta, newMax);
      best := best[sta := newMax];
      if oldMax == newMax {
        assert best == old(best) && moves + [] == moves;
        return;
      }
      StraysSnoc(moves, Move(sta, oldMax, newMax, "" in aps));
      moves := moves + [Move(sta, oldMax, newMax, "" in aps)];
      Reassign(sta, oldMax, newMax);
    }

    method Reassign(sta: string, oldMax: string, newMax: string)
      requires Distinct() && oldMax != newMax
      modifies apObjs
      ensures forall a :: a in aps ==>
                (aps[a].stas
                 == if a == newMax then old(aps[a].stas) + {sta}
                    else if a == oldMax then old(aps[a].stas) - {sta}
                    else old(aps[a].stas))
    {
      if oldMax in aps {
        aps[oldMax].DelSta(sta);
      }
      if newMax in aps {
        aps[newMax].AddSta(sta);
      }
    }

    /** The station for a report, new if need be. */
    method FindSta(staMac: string) returns (sta: Sta)
      requires Valid()
      modifies this`stas, this`best, this`staObjs
      ensures fresh(staObjs - old(staObjs)) && old(staObjs) <= staObjs
      ensures Core() && stas.Keys == old(stas.Keys) + {staMac} && sta == stas[staMac]
      ensures if staMac in old(stas) then sta == old(stas)[staMac]
              else fresh(sta) && sta.rssis == map[] && sta.maxAp == ""
      ensures stas == if staMac in old(stas) then old(stas) else old(stas)[staMac := sta]
    {
      if staMac in stas {
        return stas[staMac];
      }
      sta := NewSta(staMac);
    }

    /** A station nobody hears yet belongs to no access point. */
    ghost method Enlist(staMac: string)
      requires Distinct() && Index() && Stations() && staMac !in best
      modifies this`best
      ensures Distinct() && Index() && best == old(best)[staMac := ""]
      ensures forall s :: s in stas ==> stas[s] in staObjs && Settled(s, stas[s])
    {
      hide Strays, Hearers, IsBest;
      HearersMove(best, staMac, "");
      best := best[staMac := ""];
    }

    method NewSta(staMac: string) returns (sta: Sta)
      requires Core() && staMac !in stas
      modifies this`stas, this`best, this`staObjs
      ensures fresh(staObjs - old(staObjs)) && old(staObjs) <= staObjs
      ensures Core() && stas == old(stas)[staMac := sta] && fresh(sta) && sta.rssis == map[] && sta.maxAp == ""
    {
      hide Strays, Hearers, IsBest, Index, Distinct, Settled;
      Enlist(staMac);
      sta := new Sta(staMac);
      PutSta(staMac, sta);
    }

    method PutSta(k: string, sta: Sta)
      requires Distinct() && Index() && k !in stas && best.Keys == stas.Keys + {k} && best[k] == ""
      requires forall s :: s in stas ==> stas[s] in staObjs && Settled(s, stas[s])
      requires sta !in staObjs && sta.rssis == map[] && sta.maxAp == ""
      modifies this`stas, this`staObjs
      ensures Core() && stas == old(stas)[k := sta] && staObjs == old(staObjs) + {sta}
    {
      hide Index, Settled, Hearers, Strays, IsBest, Sound;
      NewSettled(k, sta);
      stas, staObjs := stas[k := sta], staObjs + {sta};
    }

    lemma NewSettled(k: string, sta: Sta)
      requires k in best && best[k] == "" && sta.rssis == map[] && sta.maxAp == ""
      ensures Settled(k, sta)
    {
    }

    lemma Apart(staMac: string)
      requires Core() && staMac in stas
      ensures stas[staMac] in staObjs && forall s :: s in stas && s != staMac ==> stas[s] != stas[staMac]
    {
    }

    /** Lines 131-137: the station and the access point of a report, new if need be. */
    method Prepare(staMac: string, apMac: string)
      requires Valid()
      modifies this
      ensures fresh(apObjs - old(apObjs)) && fresh(staObjs - old(staObjs))
      ensures Core() && aps.Keys == old(aps.Keys) + {apMac} && moves == old(moves)
      ensures forall a :: a in old(aps) ==> aps[a] == old(aps)[a]
      ensures apMac !in old(aps) ==> fresh(aps[apMac]) && aps[apMac].stas == {}
      ensures staMac in stas && stas == if staMac in old(stas) then old(stas) else old(stas)[staMac := stas[staMac]]
      ensures (staMac !in old(stas) ==> fresh(stas[staMac]) && stas[staMac].rssis == map[] && stas[staMac].maxAp == "")
    {
      hide *;
      var sta := FindSta(staMac);
      AddAp(apMac);
    }

    /** report_rssi. */
    method ReportRssi(staMac: string, apMac: string, rssi: int, now: real)
      requires Valid()
      modifies this, apObjs, staObjs
      ensures Valid()
      ensures stas.Keys == old(stas.Keys) + {staMac} && aps.Keys == old(aps.Keys) + {apMac}
      ensures stas[staMac].rssis ==
                (if staMac in old(stas) then old(stas[staMac].rssis) else map[])[apMac := Report(rssi, now)]
      ensures forall s :: s in old(stas) && s != staMac ==> stas[s] == old(stas)[s] && unchanged(stas[s])
      ensures Moved(staMac, if staMac in old(stas) then old(stas[staMac].maxAp) else "", old(moves))
    {
      hide *;
      AllHeard();
      Prepare(staMac, apMac);
      Apart(staMac);
      Follow(staMac, apMac, rssi, now);
      assert apMac in stas[staMac].rssis;
      StillValid();
    }

    lemma AllHeard()
      requires Valid()
      ensures forall s :: s in stas ==> stas[s].rssis != map[] && stas[s] in staObjs
    {
    }

    lemma StillValid()
      requires Core() && forall s :: s in stas ==> stas[s].rssis != map[]
      ensures Valid()
    {
    }

    ghost predicate OthersSettled(k: string)
      reads this, staObjs
    {
      best.Keys == stas.Keys && k in stas && forall s :: s in stas && s != k ==>
        stas[s] in staObjs && Settled(s, stas[s])
    }

    /** The index catches up with station `k`. */
    method Reindex(k: string, oldMax: string)
      requires Distinct() && Index() && OthersSettled(k) && best[k] == oldMax
      requires IsBest(stas[k].rssis, stas[k].maxAp) && stas[k].rssis.Keys <= aps.Keys
      modifies this`best, this`moves, apObjs
      ensures Core()
      ensures moves == old(moves) + if oldMax == stas[k].maxAp then [] else [Move(k, oldMax, stas[k].maxAp, "" in aps)]
    {
      hide Strays, Hearers, IsBest, Index;
      MaxChanged(k, oldMax, stas[k].maxAp);
    }

    /** A station may change without harm to the others. */
    method Update(k: string, apMac: string, rssi: int, now: real) returns (oldMax: string)
      requires Core() && k in stas && apMac in aps
      modifies stas[k]
      ensures Distinct() && Index() && OthersSettled(k) && best[k] == oldMax == old(stas[k].maxAp)
      ensures stas[k].rssis == old(stas[k].rssis)[apMac := Report(rssi, now)] && stas[k].rssis.Keys <= aps.Keys
      ensures IsBest(stas[k].rssis, stas[k].maxAp)
    {
      hide Strays, Hearers, IsBest, Index;
      assert Settled(k, stas[k]);
      oldMax := stas[k].maxAp;
      stas[k].UpdateRssi(apMac, rssi, now);
    }

    /** Station `k`, whose best was `oldMax`, has been moved, if at all. */
    ghost predicate Moved(k: string, oldMax: string, was: seq<Move>)
      requires k in stas
      reads this`aps, this`stas, this`moves, stas[k]
    {
      var now := stas[k].maxAp;
      moves == was + if oldMax == now then [] else [Move(k, oldMax, now, "" in aps)]
    }

    /** Lines 139-142. */
    method Follow(staMac: string, apMac: string, rssi: int, now: real)
      requires Core() && staMac in stas && apMac in aps
      modifies this`best, this`moves, apObjs, stas[staMac]
      ensures Core()
      ensures stas[staMac].rssis == old(stas[staMac].rssis)[apMac := Report(rssi, now)]
      ensures Moved(staMac, old(stas[staMac].maxAp), old(moves))
    {
      hide Strays, Hearers, IsBest, Index, Core, Distinct, OthersSettled;
      var oldMax := Update(staMac, apMac, rssi, now);
      Reindex(staMac, oldMax);
    }

    /** The reports stored, station by station. */
    ghost function Reports(): Stored
      reads this`stas, this`staObjs, staObjs
    {
      map s | s in stas && stas[s] in staObjs :: stas[s].rssis
    }

    /** house_keeping, for any order of the dictionary: what is left is what has been heard lately. */
    method HouseKeeping(now: real)
      requires Valid()
      modifies this`stas, this`best, this`moves, apObjs, staObjs
      ensures Valid() && Reports() == Tidied(old(Reports()), now) && old(moves) <= moves
    {
      hide Core, Valid, Unexpired, Reports, PartlyTidied, Tidied, TidiedOne;
      ghost var reports := Reports();
      var todo := stas.Keys;
      ReportsKeys();
      NothingTidied(reports, now);
      while todo != {}
        invariant Valid() && todo <= stas.Keys && old(moves) <= moves
        invariant Reports() == PartlyTidied(reports, todo, now)
        decreases todo
      {
        var staMac :| staMac in todo;
        ValidObject(staMac);
        ReportsKeys();
        TidyStep(reports, todo, staMac, now);
        CheckOne(staMac, now);
        todo := todo - {staMac};
      }
      AllTidied(reports, now);
    }

    lemma ValidObject(k: string)
      requires Valid() && k in stas
      ensures stas[k] in staObjs
    {
    }

    lemma ReportsKeys()
      requires Valid()
      ensures Reports().Keys == stas.Keys
      ensures forall s :: s in stas ==> Reports()[s] == stas[s].rssis
    {
    }

    /** Lines 99-104, for one station. */
    method CheckOne(staMac: string, now: real)
      requires Valid() && staMac in stas
      modifies this`stas, this`best, this`moves, apObjs, stas[staMac]
      ensures Valid() && Reports() == TidiedOne(old(Reports()), staMac, now) && old(moves) <= moves
      ensures stas == old(stas) || stas == old(stas) - {staMac}
    {
      hide Reports, Unexpired, IsBest, Core, Valid, TidiedOne;
      ReportsKeys();
      TidiedOneIs(Reports(), staMac, now);
      var expired := RefreshReports(staMac, now);
      if expired {
        DropReports(staMac);
      }
    }

    method RefreshReports(k: string, now: real) returns (expired: bool)
      requires Valid() && k in stas
      modifies this`best, this`moves, apObjs, stas[k]
      ensures Core() && old(moves) <= moves && (forall s :: s in stas && s != k ==> stas[s].rssis != map[])
      ensures Reports() == old(Reports())[k := Unexpired(old(stas[k].rssis), now)]
      ensures stas[k].rssis == Unexpired(old(stas[k].rssis), now)
      ensures expired <==> stas[k].rssis == map[]
      ensures !expired ==> Valid()
    {
      hide IsBest, Core, Unexpired;
      Apart(k);
      expired := Refresh(k, now);
    }

    method DropReports(k: string)
      requires Core() && k in stas && stas[k].rssis == map[]
      requires forall s :: s in stas && s != k ==> stas[s].rssis != map[]
      modifies this`stas, this`best
      ensures Valid() && stas == old(stas) - {k} && Reports() == old(Reports()) - {k}
    {
      hide IsBest, Core, Unexpired;
      Drop(k);
    }

    /** Lines 99-102. */
    method Refresh(staMac: string, now: real) returns (expired: bool)
      requires Core() && staMac in stas
      modifies this`best, this`moves, apObjs, stas[staMac]
      ensures Core() && old(moves) <= moves
      ensures stas[staMac].rssis == Unexpired(old(stas[staMac].rssis), now)
      ensures expired <==> stas[staMac].rssis == map[]
    {
      hide Strays, Hearers, IsBest, Index, Core, Distinct, OthersSettled, Unexpired;
      var oldMax;
      expired, oldMax := Age(staMac, now);
      Reindex(staMac, oldMax);
    }

    method Age(k: string, now: real) returns (expired: bool, oldMax: string)
      requires Core() && k in stas
      modifies stas[k]
      ensures Distinct() && Index() && OthersSettled(k) && best[k] == oldMax
      ensures stas[k].rssis == Unexpired(old(stas[k].rssis), now) && stas[k].rssis.Keys <= aps.Keys
      ensures IsBest(stas[k].rssis, stas[k].maxAp)
      ensures expired <==> stas[k].rssis == map[]
    {
      hide Strays, Hearers, IsBest, Index, Unexpired;
      assert Settled(k, stas[k]);
      oldMax := stas[k].maxAp;
      UnexpiredKeys(stas[k].rssis, now);
      expired := stas[k].Expired(now);
    }

    static lemma UnexpiredKeys(rssis: map<string, Report>, now: real)
      ensures Unexpired(rssis, now).Keys <= rssis.Keys
    {
    }

    /** Line 104. */
    method Drop(staMac: string)
      requires Core() && staMac in stas && stas[staMac].rssis == map[]
      modifies this`stas, this`best
      ensures Core() && stas == old(stas) - {staMac}
    {
      hide Index, Settled, Distinct;
      Delist(staMac);
      Remove(staMac);
    }

    method Remove(k: string)
      requires Distinct() && Index() && k in stas && best.Keys == stas.Keys - {k}
      requires forall s :: s in stas && s != k ==> stas[s] in staObjs && Settled(s, stas[s])
      modifies this`stas
      ensures Core() && stas == old(stas) - {k}
    {
      hide Index, Settled;
      stas := stas - {k};
    }

    ghost method Delist(k: string)
      requires Core() && k in stas && stas[k].rssis == map[]
      modifies this`best
      ensures Distinct() && Index() && best == old(best) - {k}
      ensures forall s :: s in stas && s != k ==> stas[s] in staObjs && Settled(s, stas[s])
    {
      hide Strays, Hearers;
      assert Settled(k, stas[k]);
      HearersLeave(best, k);
      best := best - {k};
    }
  }

  /** A station that has only been heard by the access point without a name is missing from it. */
  method NamelessNotIndexed(m: Mgr, now: real)
    requires m.Valid() && m.aps == map[] && m.stas == map[]
    modifies m, m.apObjs, m.staObjs
    ensures m.Valid() && "s" in m.stas && "" in m.aps && m.stas["s"].maxAp == "" && m.aps[""].stas == {}
  {
    hide Strays;
    assert m.Index();
    ghost var moves := m.moves;
    m.ReportRssi("s", "", -50, now);
    assert m.Settled("s", m.stas["s"]);
    assert m.stas["s"].maxAp == "";
    assert m.Moved("s", "", moves) && moves + [] == moves;
    assert m.Index();
  }
}
