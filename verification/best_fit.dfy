/**
 * Choosing among the candidate id-to-team maps of `import-schedule`: the
 * histogram comparison `are_better_matches`, the search `get_best_fit` and
 * the sanity check of `build_schedule`.
 */
module BestFit {
  import opened Wrappers
  import opened Seqs
  import opened Text
  import opened ImportSchedule

  /** Empty places in a bad game. */
  function EmptyPlaces(b: BadMatch): int
  {
    TeamsPerGame - b.numTeams
  }

  /** `get_empty_places_map(bad)[e]`: how many bad games have `e` empty places. */
  function CountEmpty(bad: seq<BadMatch>, e: int): nat
    decreases |bad|
  {
    if |bad| == 0 then 0
    else CountEmpty(bad[..|bad| - 1], e) + (if EmptyPlaces(bad[|bad| - 1]) == e then 1 else 0)
  }

  /** A count is non-zero exactly for the empty-place numbers that occur. */
  lemma {:induction false} CountEmptyPositive(bad: seq<BadMatch>, e: int)
    ensures CountEmpty(bad, e) > 0 <==> exists i :: 0 <= i < |bad| && EmptyPlaces(bad[i]) == e
    decreases |bad|
  {
    if |bad| > 0 {
      var init := bad[..|bad| - 1];
      CountEmptyPositive(init, e);
      if exists i :: 0 <= i < |init| && EmptyPlaces(init[i]) == e {
        var i :| 0 <= i < |init| && EmptyPlaces(init[i]) == e;
        assert bad[i] == init[i];
      }
      if exists i :: 0 <= i < |bad| && EmptyPlaces(bad[i]) == e {
        var i :| 0 <= i < |bad| && EmptyPlaces(bad[i]) == e;
        if i < |init| {
          assert init[i] == bad[i];
        }
      }
    }
  }

  /** The keys of both counters together. */
  function Keys(best: seq<BadMatch>, candidate: seq<BadMatch>): set<int>
  {
    set b | b in best + candidate :: EmptyPlaces(b)
  }

  lemma ZeroOutsideKeys(best: seq<BadMatch>, candidate: seq<BadMatch>, e: int)
    ensures e !in Keys(best, candidate) ==> CountEmpty(best, e) == 0 && CountEmpty(candidate, e) == 0
  {
    CountEmptyPositive(best, e);
    CountEmptyPositive(candidate, e);
    if exists i :: 0 <= i < |best| && EmptyPlaces(best[i]) == e {
      var i :| 0 <= i < |best| && EmptyPlaces(best[i]) == e;
      assert best[i] in best + candidate;
    }
    if exists i :: 0 <= i < |candidate| && EmptyPlaces(candidate[i]) == e {
      var i :| 0 <= i < |candidate| && EmptyPlaces(candidate[i]) == e;
      assert candidate[i] in best + candidate;
    }
  }

  /** The fewest empty places of any bad game listed (`TeamsPerGame` when none is). */
  function MinEmpty(bad: seq<BadMatch>): (r: int)
    ensures r <= TeamsPerGame
    ensures forall b :: b in bad ==> r <= EmptyPlaces(b)
    decreases |bad|
  {
    if |bad| == 0 then TeamsPerGame
    else
      var rest := MinEmpty(bad[1..]);
      assert forall b :: b in bad ==> b == bad[0] || b in bad[1..];
      if EmptyPlaces(bad[0]) < rest then EmptyPlaces(bad[0]) else rest
  }

  /**
   * The comparison as the source makes it: `candidate` is better as soon as, for
   * some number of empty places, it has fewer bad games than `best`.
   */
  predicate IsBetter(best: seq<BadMatch>, candidate: seq<BadMatch>)
  {
    exists e :: e in Keys(best, candidate) && CountEmpty(candidate, e) < CountEmpty(best, e)
  }

  /**
   * `are_better_matches`: visits the empty-place numbers present in either
   * counter from the largest down, and answers True at the first where
   * `candidate` has fewer bad games. Every number from `TeamsPerGame` down to the
   * smallest present is visited, and the absent ones are skipped.
   */
  method AreBetterMatches(best: seq<BadMatch>, candidate: seq<BadMatch>) returns (better: bool)
    ensures better <==> IsBetter(best, candidate)
  {
    var keys := Keys(best, candidate);
    var lo := MinEmpty(best + candidate);
    var e := TeamsPerGame as int;
    AboveAllKeys(best, candidate);
    while e >= lo
      invariant lo - 1 <= e <= TeamsPerGame
      invariant forall f :: f > e ==> CountEmpty(candidate, f) >= CountEmpty(best, f)
      decreases e - lo
    {
      if e in keys && CountEmpty(candidate, e) < CountEmpty(best, e) {
        return true;
      }
      ZeroOutsideKeys(best, candidate, e);
      e := e - 1;
    }
    forall f | f <= e
      ensures CountEmpty(candidate, f) >= CountEmpty(best, f)
    {
      ZeroOutsideKeys(best, candidate, f);
    }
    return false;
  }

  /** A key above every empty-place number counts nothing on either side. */
  lemma AboveAllKeys(best: seq<BadMatch>, candidate: seq<BadMatch>)
    ensures forall f :: f > TeamsPerGame ==> CountEmpty(candidate, f) == 0 && CountEmpty(best, f) == 0
  {
    forall f | f > TeamsPerGame
      ensures CountEmpty(candidate, f) == 0 && CountEmpty(best, f) == 0
    {
      ZeroOutsideKeys(best, candidate, f);
    }
  }

  /** A list of bad games is never better than itself. */
  lemma BetterIsIrreflexive(bad: seq<BadMatch>)
    ensures !IsBetter(bad, bad)
  {
  }

  /**
   * The comparison is not an order: one game with two teams and one game
   * with a single team each count as better than the other, so which of
   * two such candidates `get_best_fit` keeps depends on which comes first.
   */
  lemma BetterIsNotAsymmetric()
    ensures var twoTeams := [BadMatch("A", 0, 2)];
            var oneTeam := [BadMatch("A", 0, 1)];
            IsBetter(twoTeams, oneTeam) && IsBetter(oneTeam, twoTeams)
  {
    var twoTeams := [BadMatch("A", 0, 2)];
    var oneTeam := [BadMatch("A", 0, 1)];
    assert twoTeams[..0] == [] && oneTeam[..0] == [];
    assert twoTeams[0] in twoTeams + oneTeam && oneTeam[0] in twoTeams + oneTeam;
    assert twoTeams[0] in oneTeam + twoTeams && oneTeam[0] in oneTeam + twoTeams;
    assert 2 in Keys(twoTeams, oneTeam) && CountEmpty(oneTeam, 2) < CountEmpty(twoTeams, 2);
    assert 3 in Keys(oneTeam, twoTeams) && CountEmpty(twoTeams, 3) < CountEmpty(oneTeam, 3);
  }

  // ---------------------------------------------------------------------
  // get_best_fit
  // ---------------------------------------------------------------------

  /**
   * The candidate `get_best_fit` holds after the first `n` candidates when
   * none was free of bad games: the first, replaced by each later one that
   * is better than the one held.
   */
  function Champion(bads: seq<seq<BadMatch>>, n: nat): (k: nat)
    requires 0 < n <= |bads|
    ensures k < n
    ensures forall j :: k < j < n ==> !IsBetter(bads[k], bads[j])
    decreases n
  {
    if n == 1 then 0
    else
      var k := Champion(bads, n - 1);
      if IsBetter(bads[k], bads[n - 1]) then n - 1 else k
  }

  /** The candidate held, unless it is the first, replaced one it was better than. */
  lemma {:induction false} ChampionWasBetter(bads: seq<seq<BadMatch>>, n: nat) returns (p: nat)
    requires 0 < n <= |bads| && Champion(bads, n) > 0
    ensures p < Champion(bads, n) && IsBetter(bads[p], bads[Champion(bads, n)])
    decreases n
  {
    var k := Champion(bads, n - 1);
    if IsBetter(bads[k], bads[n - 1]) {
      p := k;
    } else {
      p := ChampionWasBetter(bads, n - 1);
    }
  }

  /** The matches built from each candidate map, when the match sizes are acceptable. */
  function Candidates(maps: seq<map<string, string>>, schedule: seq<seq<string>>,
                      arenas: seq<string>): (r: seq<Built>)
    requires Distinct(arenas) && SizeError(schedule, |arenas|).None?
    ensures |r| == |maps|
    ensures forall i :: 0 <= i < |maps| ==> BuildMatches(maps[i], schedule, arenas) == Success(r[i])
  {
    seq(|maps|, i requires 0 <= i < |maps| => BuildMatches(maps[i], schedule, arenas).value)
  }

  /** The bad-game lists of the candidates, in order. */
  function BadsOf(cands: seq<Built>): (r: seq<seq<BadMatch>>)
    ensures |r| == |cands| && forall i :: 0 <= i < |cands| ==> r[i] == cands[i].bad
  {
    seq(|cands|, i requires 0 <= i < |cands| => cands[i].bad)
  }

  /**
   * Which candidate `get_best_fit` returns: the first without bad games if
   * there is one, otherwise the champion of the replacement rule.
   */
  predicate ChosenCandidate(cands: seq<Built>, k: nat)
  {
    && k < |cands|
    && ((|cands[k].bad| == 0 && forall j :: 0 <= j < k ==> |cands[j].bad| > 0)
        || ((forall j :: 0 <= j < |cands| ==> |cands[j].bad| > 0) && k == Champion(BadsOf(cands), |cands|)))
  }

  /**
   * `get_best_fit`: tries the candidate maps in order, returns the first
   * whose matches have no bad game, and otherwise keeps the first candidate
   * and replaces it by every later one that is better. An error in building
   * the matches (from the match sizes alone) ends the search.
   */
  method GetBestFit(ids: seq<string>, teams: seq<string>, schedule: seq<seq<string>>, arenas: seq<string>)
    returns (r: Result<Built, ImportError>)
    requires Distinct(arenas)
    ensures BuildIdTeamMaps(ids, teams).Failure? ==> r == Failure(BuildIdTeamMaps(ids, teams).error)
    ensures BuildIdTeamMaps(ids, teams).Success? && SizeError(schedule, |arenas|).Some? ==>
              r == Failure(SizeError(schedule, |arenas|).value)
    ensures BuildIdTeamMaps(ids, teams).Success? && SizeError(schedule, |arenas|).None? ==>
              var cands := Candidates(BuildIdTeamMaps(ids, teams).value, schedule, arenas);
              r.Success? && exists k: nat :: ChosenCandidate(cands, k) && r.value == cands[k]
  {
    var maps :- BuildIdTeamMaps(ids, teams);
    var sizes := SizeError(schedule, |arenas|);
    if sizes.Some? {
      // The first candidate's `build_matches` raises; the others are never tried.
      return Failure(sizes.value);
    }
    var best := SearchCandidates(Candidates(maps, schedule, arenas));
    return Success(best);
  }

  /**
   * The loop of `get_best_fit` over the candidates' built matches. Building
   * is pure and, once the match sizes are right, cannot fail, so the
   * candidates are built before the loop rather than inside it.
   */
  method SearchCandidates(cands: seq<Built>) returns (r: Built)
    requires |cands| > 0
    ensures exists k: nat :: ChosenCandidate(cands, k) && r == cands[k]
  {
    var best: Option<Built> := None;
    var i := 0;
    while i < |cands|
      invariant 0 <= i <= |cands|
      invariant best.None? <==> i == 0
      invariant SearchedSoFar(cands, i, best)
    {
      var built := cands[i];
      if |built.bad| == 0 {
        SearchHit(cands, i, best);
        return built;
      }
      var next := built;
      if best.Some? {
        next := KeepBetter(best.value, built);
      }
      SearchStep(cands, i, best, next);
      best := Some(next);
      i := i + 1;
    }
    ghost var k := SearchExhausted(cands, best);
    return best.value;
  }

  /** One replacement step of `get_best_fit`: the candidate wins only if its bad games are better. */
  method KeepBetter(best: Built, candidate: Built) returns (next: Built)
    ensures next == if IsBetter(best.bad, candidate.bad) then candidate else best
  {
    var better := AreBetterMatches(best.bad, candidate.bad);
    next := if better then candidate else best;
  }

  ghost predicate SearchedSoFar(cands: seq<Built>, i: nat, best: Option<Built>)
  {
    && i <= |cands|
    && (forall j :: 0 <= j < i ==> |cands[j].bad| > 0)
    && (i > 0 ==> best == Some(cands[Champion(BadsOf(cands), i)]))
  }

  /** A candidate without bad games, after candidates that all had some, is the one chosen. */
  lemma SearchHit(cands: seq<Built>, i: nat, best: Option<Built>)
    requires i < |cands| && SearchedSoFar(cands, i, best) && |cands[i].bad| == 0
    ensures ChosenCandidate(cands, i)
  {
  }

  /** When every candidate had bad games, the one kept is the champion. */
  lemma SearchExhausted(cands: seq<Built>, best: Option<Built>) returns (k: nat)
    requires |cands| > 0 && SearchedSoFar(cands, |cands|, best)
    ensures best.Some? && ChosenCandidate(cands, k) && best.value == cands[k]
  {
    k := Champion(BadsOf(cands), |cands|);
  }

  lemma SearchStep(cands: seq<Built>, i: nat, best: Option<Built>, next: Built)
    requires i < |cands| && SearchedSoFar(cands, i, best) && |cands[i].bad| > 0
    requires best.None? <==> i == 0
    requires best.None? ==> next == cands[i]
    requires best.Some? ==> next == if IsBetter(best.value.bad, cands[i].bad) then cands[i] else best.value
    ensures SearchedSoFar(cands, i + 1, Some(next))
  {
    var bads := BadsOf(cands);
    if i > 0 {
      var k := Champion(bads, i);
      assert bads[k] == best.value.bad && bads[i] == cands[i].bad;
    }
  }

  /**
   * When no candidate is free of bad games, no candidate after the one
   * returned is better than it, and the one returned is better than some
   * earlier candidate unless it is the first.
   */
  lemma ChosenIsUnbeatenLater(cands: seq<Built>, k: nat)
    requires ChosenCandidate(cands, k) && |cands[k].bad| > 0
    ensures forall j :: k < j < |cands| ==> !IsBetter(cands[k].bad, cands[j].bad)
    ensures k > 0 ==> exists p :: 0 <= p < k && IsBetter(cands[p].bad, cands[k].bad)
  {
    var bads := BadsOf(cands);
    var c := Champion(bads, |cands|);
    if k > 0 {
      var p := ChampionWasBetter(bads, |cands|);
      assert IsBetter(cands[p].bad, cands[k].bad);
    }
  }

  // ---------------------------------------------------------------------
  // build_schedule
  // ---------------------------------------------------------------------

  /** What `build_schedule` raises besides the errors of the steps it calls. */
  datatype ScheduleError =
    | Step(cause: ImportError)
    | UndefinedArgs

  /**
   * `build_schedule` without ids to ignore: loads the ids, asserts there
   * are at least as many ids as teams, and searches for the best fit. A
   * non-empty `idsToIgnore` reaches a name the function never defines.
   */
  method BuildSchedule(lines: seq<string>, idsToIgnore: string, teams: seq<string>, arenas: seq<string>)
    returns (r: Result<Built, ScheduleError>)
    requires Distinct(arenas)
    ensures LoadIdsSchedule(lines).Failure? ==> r == Failure(Step(LoadIdsSchedule(lines).error))
    ensures LoadIdsSchedule(lines).Success? && idsToIgnore != "" ==> r == Failure(UndefinedArgs)
    ensures LoadIdsSchedule(lines).Success? && idsToIgnore == ""
            && |LoadIdsSchedule(lines).value.ids| < |teams| ==>
              r == Failure(Step(NotEnoughPlaces(|LoadIdsSchedule(lines).value.ids|, |teams|)))
    ensures r.Success? <==> && LoadIdsSchedule(lines).Success? && idsToIgnore == ""
                            && |teams| <= |LoadIdsSchedule(lines).value.ids| <= |teams| + 3
                            && SizeError(LoadIdsSchedule(lines).value.schedule, |arenas|).None?
    ensures r.Success? ==>
              var loaded := LoadIdsSchedule(lines).value;
              var cands := Candidates(BuildIdTeamMaps(loaded.ids, teams).value, loaded.schedule, arenas);
              exists k: nat :: ChosenCandidate(cands, k) && r.value == cands[k]
  {
    var loaded := LoadIdsSchedule(lines);
    if loaded.Failure? {
      return Failure(Step(loaded.error));
    }
    if idsToIgnore != "" {
      return Failure(UndefinedArgs);
    }
    var ids := loaded.value.ids;
    if |ids| < |teams| {
      return Failure(Step(NotEnoughPlaces(|ids|, |teams|)));
    }
    var fit := GetBestFit(ids, teams, loaded.value.schedule, arenas);
    if fit.Failure? {
      return Failure(Step(fit.error));
    }
    return Success(fit.value);
  }

  /**
   * The ids left once the comma-separated `idsToIgnore` are removed, as
   * `build_schedule` evidently means to compute them; an empty string
   * ignores nothing.
   */
  function KeptIds(ids: seq<string>, idsToIgnore: string): (r: Result<seq<string>, ImportError>)
    ensures idsToIgnore == "" ==> r == Success(ids)
    ensures r.Success? ==> |r.value| <= |ids|
    ensures r.Failure? ==> r.error.IdNotPresent? && r.error.id in Split(idsToIgnore, ',')
  {
    if idsToIgnore == "" then Success(ids) else IgnoreIds(ids, Split(idsToIgnore, ','))
  }

  /**
   * Ignoring succeeds exactly when the ids named are distinct and all
   * present, and then keeps every other id in its original order.
   */
  lemma KeptIdsAreTheOthers(ids: seq<string>, idsToIgnore: string)
    requires Distinct(ids) && idsToIgnore != ""
    ensures var drop := Split(idsToIgnore, ',');
            KeptIds(ids, idsToIgnore).Success? <==> Distinct(drop) && forall x :: x in drop ==> x in ids
    ensures KeptIds(ids, idsToIgnore).Success? ==>
              KeptIds(ids, idsToIgnore).value == Filter(ids, Elems(ids) - Elems(Split(idsToIgnore, ',')))
  {
    var drop := Split(idsToIgnore, ',');
    IgnoreIdsSucceeds(ids, drop);
    if IgnoreIds(ids, drop).Success? {
      IgnoreIdsKeepsOthers(ids, drop);
    }
  }

  /**
   * `build_schedule` with the ids to ignore actually removed from the
   * loaded ids before the sanity check and the search.
   */
  method BuildScheduleIntended(lines: seq<string>, idsToIgnore: string, teams: seq<string>, arenas: seq<string>)
    returns (r: Result<Built, ScheduleError>)
    requires Distinct(arenas)
    ensures LoadIdsSchedule(lines).Failure? ==> r == Failure(Step(LoadIdsSchedule(lines).error))
    ensures LoadIdsSchedule(lines).Success? && KeptIds(LoadIdsSchedule(lines).value.ids, idsToIgnore).Failure? ==>
              r == Failure(Step(KeptIds(LoadIdsSchedule(lines).value.ids, idsToIgnore).error))
    ensures r.Success? <==>
              && LoadIdsSchedule(lines).Success?
              && KeptIds(LoadIdsSchedule(lines).value.ids, idsToIgnore).Success?
              && |teams| <= |KeptIds(LoadIdsSchedule(lines).value.ids, idsToIgnore).value| <= |teams| + 3
              && SizeError(LoadIdsSchedule(lines).value.schedule, |arenas|).None?
    ensures r.Success? ==>
              var kept := KeptIds(LoadIdsSchedule(lines).value.ids, idsToIgnore).value;
              var cands := Candidates(BuildIdTeamMaps(kept, teams).value, LoadIdsSchedule(lines).value.schedule, arenas);
              exists k: nat :: ChosenCandidate(cands, k) && r.value == cands[k]
  {
    var loaded := LoadIdsSchedule(lines);
    if loaded.Failure? {
      return Failure(Step(loaded.error));
    }
    var kept := KeptIds(loaded.value.ids, idsToIgnore);
    if kept.Failure? {
      return Failure(Step(kept.error));
    }
    var ids := kept.value;
    if |ids| < |teams| {
      return Failure(Step(NotEnoughPlaces(|ids|, |teams|)));
    }
    var fit := GetBestFit(ids, teams, loaded.value.schedule, arenas);
    if fit.Failure? {
      return Failure(Step(fit.error));
    }
    return Success(fit.value);
  }
}
