/**
 What the ledger holds after a whole history of calls, starting from the empty
 ledger of a fresh process. A history mixes recorded kills with record
 lookups, because a lookup of an unseen killer also leaves a trace.
 */
module KillHistory {
  import opened KillTracker

  /** One call into the ledger, with the clock reading a kill was recorded at. */
  datatype Call =
    | Register(killer: KillerId, victim: VictimId, at: Timestamp)
    | Query(killer: KillerId)

  function Apply(l: Ledger, c: Call): Ledger
  {
    match c
    case Register(k, v, t) => RegisterKill(l, k, v, t).state
    case Query(k) => GetKills(l, k).state
  }

  /** The ledger after performing `calls` in order on an empty ledger. */
  function Replay(calls: seq<Call>): Ledger
    decreases |calls|
  {
    if |calls| == 0 then EmptyLedger
    else Apply(Replay(calls[..|calls| - 1]), calls[|calls| - 1])
  }

  /** Every killer named by some call of the history. */
  function KillersIn(calls: seq<Call>): set<KillerId>
  {
    set i | 0 <= i < |calls| :: calls[i].killer
  }

  /** Every victim some call of the history records `killer` killing. */
  function VictimsIn(calls: seq<Call>, killer: KillerId): set<VictimId>
  {
    set i | 0 <= i < |calls| && calls[i].Register? && calls[i].killer == killer :: calls[i].victim
  }

  /** The clock readings of the kills of `victim` by `killer`, in call order. */
  function TimesIn(calls: seq<Call>, killer: KillerId, victim: VictimId): seq<Timestamp>
    decreases |calls|
  {
    if |calls| == 0 then []
    else
      var c := calls[|calls| - 1];
      TimesIn(calls[..|calls| - 1], killer, victim)
        + (if c.Register? && c.killer == killer && c.victim == victim then [c.at] else [])
  }

  /** How many calls of the history record a kill by `killer`. */
  function RegistersBy(calls: seq<Call>, killer: KillerId): nat
    decreases |calls|
  {
    if |calls| == 0 then 0
    else
      var c := calls[|calls| - 1];
      RegistersBy(calls[..|calls| - 1], killer) + (if c.Register? && c.killer == killer then 1 else 0)
  }

  lemma KillersInSnoc(calls: seq<Call>)
    requires |calls| > 0
    ensures KillersIn(calls) == KillersIn(calls[..|calls| - 1]) + {calls[|calls| - 1].killer}
  {
    var init := calls[..|calls| - 1];
    forall k | k in KillersIn(calls)
      ensures k in KillersIn(init) + {calls[|calls| - 1].killer}
    {
      var i :| 0 <= i < |calls| && calls[i].killer == k;
      if i < |init| {
        assert init[i] == calls[i];
      }
    }
    forall k | k in KillersIn(init)
      ensures k in KillersIn(calls)
    {
      var i :| 0 <= i < |init| && init[i].killer == k;
      assert calls[i] == init[i];
    }
  }

  lemma VictimsInSnoc(calls: seq<Call>, killer: KillerId)
    requires |calls| > 0
    ensures var c := calls[|calls| - 1];
            VictimsIn(calls, killer)
              == VictimsIn(calls[..|calls| - 1], killer)
                 + (if c.Register? && c.killer == killer then {c.victim} else {})
  {
    var init := calls[..|calls| - 1];
    var c := calls[|calls| - 1];
    forall v | v in VictimsIn(calls, killer)
      ensures v in VictimsIn(init, killer) + (if c.Register? && c.killer == killer then {c.victim} else {})
    {
      var i :| 0 <= i < |calls| && calls[i].Register? && calls[i].killer == killer && calls[i].victim == v;
      if i < |init| {
        assert init[i] == calls[i];
      }
    }
    forall v | v in VictimsIn(init, killer)
      ensures v in VictimsIn(calls, killer)
    {
      var i :| 0 <= i < |init| && init[i].Register? && init[i].killer == killer && init[i].victim == v;
      assert calls[i] == init[i];
    }
  }

  /** A killer with a registered victim is a killer named by the history. */
  lemma VictimsInNamesKiller(calls: seq<Call>, killer: KillerId)
    ensures VictimsIn(calls, killer) != {} ==> killer in KillersIn(calls)
  {
    if VictimsIn(calls, killer) != {} {
      var v :| v in VictimsIn(calls, killer);
      var i :| 0 <= i < |calls| && calls[i].Register? && calls[i].killer == killer && calls[i].victim == v;
    }
  }

  /** After a history, the ledger has a record for exactly the killers some call named. */
  lemma {:induction false} ReplayKillers(calls: seq<Call>)
    ensures Replay(calls).Keys == KillersIn(calls)
    decreases |calls|
  {
    if |calls| > 0 {
      ReplayKillers(calls[..|calls| - 1]);
      KillersInSnoc(calls);
    }
  }

  /** After a history, a killer's record lists exactly the victims registered for that killer. */
  lemma {:induction false} ReplayVictims(calls: seq<Call>, killer: KillerId)
    requires killer in Replay(calls)
    ensures Replay(calls)[killer].Keys == VictimsIn(calls, killer)
    decreases |calls|
  {
    var init := calls[..|calls| - 1];
    VictimsInSnoc(calls, killer);
    if killer in Replay(init) {
      ReplayVictims(init, killer);
    } else {
      ReplayKillers(init);
      VictimsInNamesKiller(init, killer);
    }
  }

  /**
   After a history, the (killer, victim) list is the clock readings of that
   pair's registered kills, in call order.
   */
  lemma {:induction false} ReplayEntries(calls: seq<Call>, killer: KillerId, victim: VictimId)
    ensures Entry(Replay(calls), killer, victim) == TimesIn(calls, killer, victim)
    decreases |calls|
  {
    if |calls| > 0 {
      ReplayEntries(calls[..|calls| - 1], killer, victim);
    }
  }

  /**
   A killer's total after a history is the number of kills registered for
   them; killers never named by a call have no total at all.
   */
  lemma {:induction false} ReplayTotals(calls: seq<Call>, killer: KillerId)
    ensures killer in Replay(calls) <==> killer in KillersIn(calls)
    ensures KillerTotal(Replay(calls), killer) == RegistersBy(calls, killer)
    decreases |calls|
  {
    ReplayKillers(calls);
    if |calls| > 0 {
      var init := calls[..|calls| - 1];
      var c := calls[|calls| - 1];
      ReplayTotals(init, killer);
      match c
      case Register(k, v, t) =>
        RegisterKillTotals(Replay(init), k, v, t);
      case Query(k) =>
        if k == killer && k !in Replay(init) {
          GetKillsOfUnseenKiller(Replay(init), k);
        }
    }
  }

  /** The ledger only ever grows: an earlier point of a history is extended by every later one. */
  lemma {:induction false} ReplayGrows(calls: seq<Call>, n: nat)
    requires n <= |calls|
    ensures Extends(Replay(calls[..n]), Replay(calls))
    decreases |calls|
  {
    if n == |calls| {
      assert calls[..n] == calls;
      ExtendsReflexive(Replay(calls));
    } else {
      var init := calls[..|calls| - 1];
      assert init[..n] == calls[..n];
      ReplayGrows(init, n);
      ExtendsTransitive(Replay(calls[..n]), Replay(init), Replay(calls));
    }
  }

  /** The clock readings of the history's kills never go back. */
  ghost predicate ClockNeverGoesBack(calls: seq<Call>)
  {
    forall i, j :: 0 <= i < j < |calls| && calls[i].Register? && calls[j].Register? ==> calls[i].at <= calls[j].at
  }

  lemma {:induction false} TimesInFromCalls(calls: seq<Call>, killer: KillerId, victim: VictimId)
    ensures forall x :: x in TimesIn(calls, killer, victim) ==>
              exists i :: 0 <= i < |calls| && calls[i].Register? && calls[i].at == x
    decreases |calls|
  {
    if |calls| > 0 {
      var init := calls[..|calls| - 1];
      TimesInFromCalls(init, killer, victim);
      forall x | x in TimesIn(calls, killer, victim)
        ensures exists i :: 0 <= i < |calls| && calls[i].Register? && calls[i].at == x
      {
        if x in TimesIn(init, killer, victim) {
          var i :| 0 <= i < |init| && init[i].Register? && init[i].at == x;
          assert calls[i] == init[i];
        }
      }
    }
  }

  /** With a clock that never goes back, every kill list ends up in time order. */
  lemma {:induction false} ReplayChronological(calls: seq<Call>)
    requires ClockNeverGoesBack(calls)
    ensures Chronological(Replay(calls))
    decreases |calls|
  {
    if |calls| > 0 {
      var init := calls[..|calls| - 1];
      var c := calls[|calls| - 1];
      assert ClockNeverGoesBack(init) by {
        forall i, j | 0 <= i < j < |init| && init[i].Register? && init[j].Register?
          ensures init[i].at <= init[j].at
        {
          assert init[i] == calls[i] && init[j] == calls[j];
        }
      }
      ReplayChronological(init);
      match c
      case Register(k, v, t) =>
        ReplayEntries(init, k, v);
        TimesInFromCalls(init, k, v);
        var s := Entry(Replay(init), k, v);
        forall i | 0 <= i < |s|
          ensures s[i] <= t
        {
          assert s[i] in TimesIn(init, k, v);
          var j :| 0 <= j < |init| && init[j].Register? && init[j].at == s[i];
          assert calls[j] == init[j];
        }
        RegisterKillKeepsOrder(Replay(init), k, v, t);
      case Query(k) =>
        var before := Replay(init);
        forall k', v'
          ensures Sorted(Entry(Replay(calls), k', v'))
        {
          assert Entry(Replay(calls), k', v') == Entry(before, k', v');
        }
    }
  }
}
