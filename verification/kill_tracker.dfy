/**
 The in-memory teamkill ledger of the bot: for every killer, for every victim,
 the list of moments at which that killer was recorded killing that victim.

 The ledger is process-wide mutable state in the original; here it is an
 immutable value, and every operation that may touch it returns the ledger as
 it stands afterwards together with the value the original hands back.
 */
module KillTracker {

  type KillerId = string
  type VictimId = string

  /** Milliseconds since the epoch, as read from the clock by the caller. */
  type Timestamp = int

  /** Moments at which one killer killed one victim, in recording order. */
  type VictimKills = seq<Timestamp>

  /** One killer's record: victim to kill moments. */
  type KillerKills = map<VictimId, VictimKills>

  /** The whole ledger: killer to that killer's record. */
  type Ledger = map<KillerId, KillerKills>

  /** The state after an operation, paired with the value the operation returns. */
  datatype Updated<S, T> = Updated(state: S, value: T)

  /** The ledger when the process starts: nothing recorded. */
  const EmptyLedger: Ledger := map[]

  /** The kill moments recorded for (killer, victim); empty when there is no entry. */
  function Entry(l: Ledger, killer: KillerId, victim: VictimId): VictimKills
  {
    if killer in l && victim in l[killer] then l[killer][victim] else []
  }

  predicate IsPrefix(a: VictimKills, b: VictimKills)
  {
    |a| <= |b| && a == b[..|a|]
  }

  /**
   `after` is `before` grown append-only: no killer and no victim entry has
   gone, and every recorded list is a prefix of its later version.
   */
  ghost predicate Extends(before: Ledger, after: Ledger)
  {
    forall k :: k in before ==>
      && k in after
      && forall v :: v in before[k] ==>
           v in after[k] && IsPrefix(before[k][v], after[k][v])
  }

  lemma ExtendsReflexive(l: Ledger)
    ensures Extends(l, l)
  {
  }

  lemma ExtendsTransitive(a: Ledger, b: Ledger, c: Ledger)
    requires Extends(a, b) && Extends(b, c)
    ensures Extends(a, c)
  {
    forall k | k in a
      ensures k in c
      ensures forall v :: v in a[k] ==> v in c[k] && IsPrefix(a[k][v], c[k][v])
    {
      forall v | v in a[k]
        ensures v in c[k] && IsPrefix(a[k][v], c[k][v])
      {
        var x, y, z := a[k][v], b[k][v], c[k][v];
        assert y[..|x|] == z[..|y|][..|x|];
      }
    }
  }

  /**
   The record of `killer`, created empty and stored when the killer has none
   yet. The record returned is the one held in the ledger afterwards.
   */
  function GetKillerKills(l: Ledger, killer: KillerId): (r: Updated<Ledger, KillerKills>)
    ensures killer in r.state && r.state[killer] == r.value
    ensures killer !in l ==> r.value == map[]
    ensures r.state.Keys == l.Keys + {killer}
    ensures forall k :: k in l ==> r.state[k] == l[k]
  {
    if killer in l then
      Updated(l, l[killer])
    else
      var created: KillerKills := map[];
      Updated(l[killer := created], created)
  }

  /**
   The kill list for `victim` inside one killer's record, created empty and
   stored when there is none yet.
   */
  function GetVictimKills(kk: KillerKills, victim: VictimId): (r: Updated<KillerKills, VictimKills>)
    ensures victim in r.state && r.state[victim] == r.value
    ensures victim !in kk ==> r.value == []
    ensures r.state.Keys == kk.Keys + {victim}
    ensures forall v :: v in kk ==> r.state[v] == kk[v]
  {
    if victim in kk then
      Updated(kk, kk[victim])
    else
      var created: VictimKills := [];
      Updated(kk[victim := created], created)
  }

  /**
   Records that `killer` killed `victim` at `now`: the moment is appended to
   the (killer, victim) list and nothing else in the ledger changes apart from
   the lazy creation of the two entries. Returns the killer's record as it
   stands after the append.
   */
  function RegisterKill(l: Ledger, killer: KillerId, victim: VictimId, now: Timestamp)
    : (r: Updated<Ledger, KillerKills>)
    ensures killer in r.state && r.value == r.state[killer]
    ensures Entry(r.state, killer, victim) == Entry(l, killer, victim) + [now]
    ensures forall k, v :: (k != killer || v != victim) ==> Entry(r.state, k, v) == Entry(l, k, v)
    ensures r.state.Keys == l.Keys + {killer}
    ensures r.value.Keys == (if killer in l then l[killer].Keys else {}) + {victim}
    ensures forall k :: k in l && k != killer ==> r.state[k] == l[k]
    ensures Extends(l, r.state)
  {
    var killerStep := GetKillerKills(l, killer);
    var victimStep := GetVictimKills(killerStep.value, victim);
    var killerKills := victimStep.state[victim := victimStep.value + [now]];
    Updated(killerStep.state[killer := killerKills], killerKills)
  }

  /**
   The record of `killer`: the victims recorded so far, or an empty record for
   a killer never seen. Like the original, an unseen killer is stored in the
   ledger by the query.
   */
  function GetKills(l: Ledger, killer: KillerId): (r: Updated<Ledger, KillerKills>)
    ensures r.value == (if killer in l then l[killer] else map[])
    ensures r.state.Keys == l.Keys + {killer}
    ensures killer in r.state && r.state[killer] == r.value
    ensures forall k :: k in l ==> r.state[k] == l[k]
    ensures Extends(l, r.state)
  {
    GetKillerKills(l, killer)
  }

  /** Looking a killer up twice leaves the same ledger and returns the same record as once. */
  lemma GetKillerKillsIdempotent(l: Ledger, killer: KillerId)
    ensures var once := GetKillerKills(l, killer);
            GetKillerKills(once.state, killer) == once
  {
  }

  /** The same holds of the exported query built on it. */
  lemma GetKillsIdempotent(l: Ledger, killer: KillerId)
    ensures var once := GetKills(l, killer);
            GetKills(once.state, killer) == once
  {
    GetKillerKillsIdempotent(l, killer);
  }

  // ---------------------------------------------------------------------------
  // Totals

  /** Some victim of a non-empty record (the choice is arbitrary but fixed). */
  ghost function Pick(kk: KillerKills): (v: VictimId)
    requires kk != map[]
    ensures v in kk
  {
    var v :| v in kk; v
  }

  /** The number of kills in one killer's record: the sum of its list lengths. */
  ghost function TotalOf(kk: KillerKills): nat
    decreases |kk|
  {
    if kk == map[] then 0
    else
      var v := Pick(kk);
      assert (kk - {v}).Keys == kk.Keys - {v};
      |kk[v]| + TotalOf(kk - {v})
  }

  /** A killer's total: zero when the ledger has no record for them. */
  ghost function KillerTotal(l: Ledger, killer: KillerId): nat
  {
    if killer in l then TotalOf(l[killer]) else 0
  }

  /** The sum does not depend on which victim is taken first. */
  lemma {:induction false} TotalOfRemove(kk: KillerKills, v: VictimId)
    requires v in kk
    ensures TotalOf(kk) == |kk[v]| + TotalOf(kk - {v})
    decreases |kk|
  {
    var w := Pick(kk);
    if w != v {
      assert (kk - {w}).Keys == kk.Keys - {w};
      assert (kk - {v}).Keys == kk.Keys - {v};
      TotalOfRemove(kk - {w}, v);
      TotalOfRemove(kk - {v}, w);
      assert kk - {w} - {v} == kk - {v} - {w};
    }
  }

  /** Replacing one victim's list changes the total by the change in that list's length. */
  lemma TotalOfUpdate(kk: KillerKills, v: VictimId, s: VictimKills)
    ensures TotalOf(kk[v := s]) + (if v in kk then |kk[v]| else 0) == TotalOf(kk) + |s|
  {
    var kk' := kk[v := s];
    TotalOfRemove(kk', v);
    assert kk' - {v} == kk - {v};
    if v in kk {
      TotalOfRemove(kk, v);
    } else {
      assert kk - {v} == kk;
    }
  }

  /**
   A registered kill raises its killer's total by exactly one and leaves every
   other killer's total as it was.
   */
  lemma RegisterKillTotals(l: Ledger, killer: KillerId, victim: VictimId, now: Timestamp)
    ensures var after := RegisterKill(l, killer, victim, now).state;
            forall k :: KillerTotal(after, k) == KillerTotal(l, k) + (if k == killer then 1 else 0)
  {
    var after := RegisterKill(l, killer, victim, now).state;
    var before: KillerKills := if killer in l then l[killer] else map[];
    assert after[killer] == before[victim := Entry(l, killer, victim) + [now]];
    TotalOfUpdate(before, victim, Entry(l, killer, victim) + [now]);
  }

  /**
   Looking up a killer never seen returns an empty record but stores it: the
   killer then has a total of zero and appears among the killers.
   */
  lemma GetKillsOfUnseenKiller(l: Ledger, killer: KillerId)
    requires killer !in l
    ensures var r := GetKills(l, killer);
            && r.value == map[]
            && killer in r.state
            && KillerTotal(r.state, killer) == 0
  {
  }

  /** The kill list lengths of one record, summed by walking its victims. */
  method SumKills(kk: KillerKills) returns (sum: nat)
    ensures sum == TotalOf(kk)
  {
    sum := 0;
    var rest := kk;
    while rest != map[]
      invariant sum + TotalOf(rest) == TotalOf(kk)
      decreases |rest|
    {
      var v :| v in rest;
      TotalOfRemove(rest, v);
      assert (rest - {v}).Keys == rest.Keys - {v};
      sum := sum + |rest[v]|;
      rest := rest - {v};
    }
  }

  /** Every killer in the ledger, paired with the number of kills recorded for them. */
  method GetTotalKillCounts(l: Ledger) returns (counts: map<KillerId, nat>)
    ensures counts.Keys == l.Keys
    ensures forall k :: k in counts ==> counts[k] == TotalOf(l[k])
  {
    counts := map[];
    var todo := l.Keys;
    while todo != {}
      invariant todo <= l.Keys
      invariant counts.Keys == l.Keys - todo
      invariant forall k :: k in counts ==> counts[k] == TotalOf(l[k])
      decreases todo
    {
      var k :| k in todo;
      var n := SumKills(l[k]);
      counts := counts[k := n];
      todo := todo - {k};
    }
  }

  // ---------------------------------------------------------------------------
  // Recording order

  predicate Sorted(s: VictimKills)
  {
    forall i, j :: 0 <= i < j < |s| ==> s[i] <= s[j]
  }

  /** Every kill list in the ledger is in non-decreasing time order. */
  ghost predicate Chronological(l: Ledger)
  {
    forall k, v :: Sorted(Entry(l, k, v))
  }

  /**
   Recording order is time order only as long as the clock never goes back:
   a kill registered no earlier than every moment already in its list keeps
   every list of the ledger sorted.
   */
  lemma RegisterKillKeepsOrder(l: Ledger, killer: KillerId, victim: VictimId, now: Timestamp)
    requires Chronological(l)
    requires forall i :: 0 <= i < |Entry(l, killer, victim)| ==> Entry(l, killer, victim)[i] <= now
    ensures Chronological(RegisterKill(l, killer, victim, now).state)
  {
    var after := RegisterKill(l, killer, victim, now).state;
    forall k, v
      ensures Sorted(Entry(after, k, v))
    {
      if k == killer && v == victim {
        var s := Entry(l, killer, victim);
        assert Sorted(s);
        assert Entry(after, k, v) == s + [now];
      } else {
        assert Sorted(Entry(l, k, v));
      }
    }
  }
}
