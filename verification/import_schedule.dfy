/**
 * `srcomp import-schedule`, the parts that turn a schedule file into league
 * matches: tidying the file's lines, reading the pipe-separated ids of each
 * match, dropping ignored ids, pairing ids with teams, splitting a match into
 * games of four and flagging games with too few real teams, and ordering the
 * teams by the venue layout.
 */
module ImportSchedule {
  import opened Wrappers
  import opened Text
  import opened Seqs
  import opened Combinations

  /** Places in one game (`TEAMS_PER_GAME`). */
  const TeamsPerGame: nat := 4

  /** The exceptions the import raises, one per failing assertion or call. */
  datatype ImportError =
    | DuplicateIdsInMatch(line: nat)
    | IdNotPresent(id: string)
    | TooManyEmptySlots(extra: int)
    | ZeroChunkSize
    | ChunkRemainder
    | TooManyIds(matchNum: nat)
    | IncompatibleIds(matchNum: nat)
    | NotEnoughPlaces(numIds: nat, numTeams: nat)
    | DuplicateLayoutTeam
    | MissingLayoutTeams(missing: set<string>)

  // ---------------------------------------------------------------------
  // tidy
  // ---------------------------------------------------------------------

  /** One line with its comment cut off and surrounding whitespace removed. */
  function TidyLine(line: string): (r: string)
    ensures '#' !in r && IsStripped(r)
    ensures '#' !in line && IsStripped(line) ==> r == line
  {
    var cut := CutComment(line);
    StripFixesStripped(cut);
    Strip(cut)
  }

  /** The schedule file's lines that still hold something once tidied. */
  function Tidy(lines: seq<string>): (r: seq<string>)
    ensures |r| <= |lines|
    decreases |lines|
  {
    if |lines| == 0 then []
    else
      var rest := Tidy(lines[..|lines| - 1]);
      var t := TidyLine(lines[|lines| - 1]);
      if t != "" then rest + [t] else rest
  }

  /** Every line a tidied file keeps is non-empty, free of comments and stripped. */
  lemma {:induction false} TidyClean(lines: seq<string>)
    ensures forall i :: 0 <= i < |Tidy(lines)| ==>
      Tidy(lines)[i] != "" && '#' !in Tidy(lines)[i] && IsStripped(Tidy(lines)[i])
    decreases |lines|
  {
    if |lines| > 0 {
      var init := lines[..|lines| - 1];
      var last := lines[|lines| - 1];
      TidyClean(init);
      assert lines == init + [last];
      TidySnoc(init, last);
      var r := Tidy(lines);
      forall i | 0 <= i < |r|
        ensures r[i] != "" && '#' !in r[i] && IsStripped(r[i])
      {
        if i < |Tidy(init)| {
          assert r[i] == Tidy(init)[i];
        } else {
          assert r[i] == TidyLine(last);
        }
      }
    }
  }

  /** The line a tidied file gains from one more line, if any. */
  function TidiedTail(line: string): seq<string> {
    if TidyLine(line) != "" then [TidyLine(line)] else []
  }

  lemma TidySnoc(lines: seq<string>, line: string)
    ensures Tidy(lines + [line]) == Tidy(lines) + TidiedTail(line)
  {
    assert (lines + [line])[..|lines|] == lines;
  }

  /** Tidying works line by line: the tidied file is the tidied parts, in order. */
  lemma {:induction false} TidyAppend(a: seq<string>, b: seq<string>)
    ensures Tidy(a + b) == Tidy(a) + Tidy(b)
    decreases |b|
  {
    if |b| == 0 {
      assert a + b == a;
    } else {
      var b' := b[..|b| - 1];
      var last := b[|b| - 1];
      assert b == b' + [last];
      assert a + b == (a + b') + [last];
      TidySnoc(a + b', last);
      TidySnoc(b', last);
      TidyAppend(a, b');
      AppendAssoc(Tidy(a), Tidy(b'), TidiedTail(last));
    }
  }

  /** Tidying an already tidied file changes nothing. */
  lemma {:induction false} TidyIdempotent(lines: seq<string>)
    ensures Tidy(Tidy(lines)) == Tidy(lines)
    decreases |lines|
  {
    if |lines| > 0 {
      var init := lines[..|lines| - 1];
      var t := TidyLine(lines[|lines| - 1]);
      TidyIdempotent(init);
      if t != "" {
        TidyAppend(Tidy(init), [t]);
        assert Tidy([t]) == Tidy([]) + [t] by {
          assert [t][..0] == [];
        }
      }
    }
  }

  // ---------------------------------------------------------------------
  // chunks_of_size
  // ---------------------------------------------------------------------

  /** The pops of the `while` loop: consecutive runs of `size` elements. */
  function Pieces<T>(s: seq<T>, size: nat, count: nat): (r: seq<seq<T>>)
    requires size > 0 && |s| == count * size
    ensures |r| == count
    ensures Flatten(r) == s
    ensures forall i :: 0 <= i < |r| ==> |r[i]| == size
    decreases count
  {
    if count == 0 then []
    else
      MulShift(count, size);
      var rest := Pieces(s[size..], size, count - 1);
      FlattenCons(s[..size], rest);
      assert s == s[..size] + s[size..];
      [s[..size]] + rest
  }

  lemma MulShift(i: int, size: int)
    ensures (i - 1) * size + size == i * size
  {
  }

  lemma DivExact(a: nat, b: nat)
    requires b > 0 && a % b == 0
    ensures a == (a / b) * b
  {
  }

  /**
   * `chunks_of_size(list_, size)`: the list cut into consecutive runs of
   * `size`, or the assertion (or division by zero) that a length which is
   * not a multiple of `size` provokes.
   */
  function ChunksOfSize<T>(s: seq<T>, size: nat): (r: Result<seq<seq<T>>, ImportError>)
    ensures size == 0 ==> r == Failure(ZeroChunkSize)
    ensures size > 0 ==> (r.Success? <==> |s| % size == 0)
    ensures r.Success? ==> Flatten(r.value) == s
    ensures r.Success? ==> |r.value| * size == |s|
    ensures r.Success? ==> forall i :: 0 <= i < |r.value| ==> |r.value[i]| == size
  {
    if size == 0 then Failure(ZeroChunkSize)
    else if |s| % size != 0 then Failure(ChunkRemainder)
    else
      DivExact(|s|, size);
      Success(Pieces(s, size, |s| / size))
  }

  /** Runs of four that concatenate to `s` are the slices `s[4i..4i+4]`. */
  lemma {:induction false} RunsOfFour<T>(r: seq<seq<T>>, s: seq<T>)
    requires Flatten(r) == s
    requires forall i :: 0 <= i < |r| ==> |r[i]| == 4
    ensures |s| == 4 * |r|
    ensures forall i :: 0 <= i < |r| ==> r[i] == s[4 * i..4 * i + 4]
    decreases |r|
  {
    if |r| > 0 {
      var n := |r| - 1;
      var init := r[..n];
      RunsOfFour(init, Flatten(init));
      assert s == Flatten(init) + r[n];
      forall i | 0 <= i < |r|
        ensures r[i] == s[4 * i..4 * i + 4]
      {
        if i < n {
          assert r[i] == init[i];
          assert Flatten(init)[4 * i..4 * i + 4] == s[4 * i..4 * i + 4];
        }
      }
    }
  }

  // ---------------------------------------------------------------------
  // load_ids_schedule
  // ---------------------------------------------------------------------

  /** The ids in first-appearance order, and the ids of each match. */
  datatype IdsSchedule = IdsSchedule(ids: seq<string>, schedule: seq<seq<string>>)

  function MatchIds(line: string): seq<string>
  {
    Split(line, '|')
  }

  /**
   * `load_ids_schedule`: each line's ids, and every id once in the order of
   * its first appearance; fails at the first line that repeats an id.
   */
  function LoadIdsSchedule(lines: seq<string>): (r: Result<IdsSchedule, ImportError>)
    ensures r.Success? <==> NoRepeats(lines, |lines|)
    ensures r.Failure? ==> r.error.DuplicateIdsInMatch? && FirstRepeat(lines, r.error.line)
    ensures r.Success? ==> SplitsLines(lines, r.value.schedule)
    ensures r.Success? ==> r.value.ids == FirstOccurrences(Flatten(r.value.schedule))
    decreases |lines|
  {
    if |lines| == 0 then Success(IdsSchedule([], []))
    else
      var k := |lines| - 1;
      var init := lines[..k];
      LinesSnoc(lines);
      var prev :- LoadIdsSchedule(init);
      var matchIds := MatchIds(lines[k]);
      if !Distinct(matchIds) then Failure(DuplicateIdsInMatch(k))
      else
        var schedule := prev.schedule + [matchIds];
        assert schedule[..|schedule| - 1] == prev.schedule;
        AddNewIsFirstOccurrences(Flatten(prev.schedule), matchIds);
        Success(IdsSchedule(AddNew(prev.ids, matchIds), schedule))
  }

  /** None of the first `n` lines repeats an id. */
  predicate NoRepeats(lines: seq<string>, n: nat)
    requires n <= |lines|
  {
    forall i :: 0 <= i < n ==> Distinct(MatchIds(lines[i]))
  }

  /** Line `k` is the first line that repeats an id. */
  predicate FirstRepeat(lines: seq<string>, k: nat) {
    k < |lines| && !Distinct(MatchIds(lines[k])) && NoRepeats(lines, k)
  }

  /** `schedule` holds the ids of each line, line by line. */
  predicate SplitsLines(lines: seq<string>, schedule: seq<seq<string>>) {
    |schedule| == |lines| && forall i :: 0 <= i < |lines| ==> schedule[i] == MatchIds(lines[i])
  }

  lemma LinesSnoc(lines: seq<string>)
    requires |lines| > 0
    ensures var k := |lines| - 1;
            && (NoRepeats(lines, |lines|) <==> NoRepeats(lines[..k], k) && Distinct(MatchIds(lines[k])))
            && (forall j :: FirstRepeat(lines[..k], j) ==> FirstRepeat(lines, j))
            && (NoRepeats(lines[..k], k) && !Distinct(MatchIds(lines[k])) ==> FirstRepeat(lines, k))
            && (forall sch :: SplitsLines(lines[..k], sch) ==> SplitsLines(lines, sch + [MatchIds(lines[k])]))
  {
    var k := |lines| - 1;
    assert forall i :: 0 <= i < k ==> lines[..k][i] == lines[i];
  }

  /**
   * The loaded ids are exactly the ids used anywhere in the schedule, each
   * once, ordered by where they first appear.
   */
  lemma LoadedIdsAreFirstAppearances(lines: seq<string>)
    requires LoadIdsSchedule(lines).Success?
    ensures var v := LoadIdsSchedule(lines).value;
            && Distinct(v.ids)
            && (forall x :: x in v.ids <==> exists i :: 0 <= i < |lines| && x in v.schedule[i])
            && (forall i, j :: 0 <= i < j < |v.ids| ==>
                  IndexOf(Flatten(v.schedule), v.ids[i]) < IndexOf(Flatten(v.schedule), v.ids[j]))
  {
    var v := LoadIdsSchedule(lines).value;
    forall x
      ensures x in v.ids <==> exists i :: 0 <= i < |lines| && x in v.schedule[i]
    {
      FlattenMembers(v.schedule, x);
    }
    forall i, j | 0 <= i < j < |v.ids|
      ensures IndexOf(Flatten(v.schedule), v.ids[i]) < IndexOf(Flatten(v.schedule), v.ids[j])
    {
      FirstOccurrencesOrdered(Flatten(v.schedule), i, j);
    }
  }

  // ---------------------------------------------------------------------
  // ignore_ids
  // ---------------------------------------------------------------------

  /** `ignore_ids`: `ids.remove(i)` for each id in turn; a missing id raises. */
  function IgnoreIds(ids: seq<string>, toRemove: seq<string>): (r: Result<seq<string>, ImportError>)
    ensures r.Success? ==> |r.value| == |ids| - |toRemove|
    ensures r.Failure? ==> r.error.IdNotPresent? && r.error.id in toRemove
    decreases |toRemove|
  {
    if |toRemove| == 0 then Success(ids)
    else if toRemove[0] !in ids then Failure(IdNotPresent(toRemove[0]))
    else IgnoreIds(RemoveFirst(ids, toRemove[0]), toRemove[1..])
  }

  lemma DistinctTail<T>(s: seq<T>)
    requires |s| > 0
    ensures Distinct(s) <==> s[0] !in s[1..] && Distinct(s[1..])
  {
    if s[0] in s[1..] {
      var k :| 0 <= k < |s[1..]| && s[1..][k] == s[0];
      assert s[k + 1] == s[0];
    }
  }

  /**
   * On a list of distinct ids, removal succeeds exactly when the ids to
   * remove are distinct and all present.
   */
  lemma {:induction false} IgnoreIdsSucceeds(ids: seq<string>, toRemove: seq<string>)
    requires Distinct(ids)
    ensures IgnoreIds(ids, toRemove).Success? <==>
              Distinct(toRemove) && forall x :: x in toRemove ==> x in ids
    decreases |toRemove|
  {
    if |toRemove| > 0 {
      var x := toRemove[0];
      var rest := toRemove[1..];
      DistinctTail(toRemove);
      assert forall y :: y in toRemove <==> y == x || y in rest;
      if x in ids {
        var ids' := RemoveFirst(ids, x);
        RemoveFirstIsFilter(ids, x);
        assert forall y :: y in ids' <==> y in ids && y != x;
        IgnoreIdsSucceeds(ids', rest);
      }
    }
  }

  /**
   * A removal that succeeds on distinct ids leaves the other ids, in their
   * original order.
   */
  lemma {:induction false} IgnoreIdsKeepsOthers(ids: seq<string>, toRemove: seq<string>)
    requires Distinct(ids)
    ensures IgnoreIds(ids, toRemove).Success? ==>
              IgnoreIds(ids, toRemove).value == Filter(ids, Elems(ids) - Elems(toRemove))
    decreases |toRemove|
  {
    var keep := Elems(ids) - Elems(toRemove);
    if |toRemove| == 0 {
      FilterAll(ids, keep);
    } else if IgnoreIds(ids, toRemove).Success? {
      var x := toRemove[0];
      var rest := toRemove[1..];
      assert forall y :: y in toRemove <==> y == x || y in rest;
      var ids' := RemoveFirst(ids, x);
      RemoveFirstIsFilter(ids, x);
      assert Elems(ids) - {x} == (set y | y in ids) - {x};
      IgnoreIdsKeepsOthers(ids', rest);
      var keep' := Elems(ids') - Elems(rest);
      FilterFilter(ids, Elems(ids) - {x}, keep');
      FilterCongruent(ids, (Elems(ids) - {x}) * keep', keep);
    }
  }

  // ---------------------------------------------------------------------
  // build_id_team_maps
  // ---------------------------------------------------------------------

  /** `dict(zip(keys, vals))`: pairs up to the shorter list, later keys winning. */
  function ZipMap<K, V>(keys: seq<K>, vals: seq<V>): (m: map<K, V>)
    ensures m.Keys == set i | 0 <= i < |keys| && i < |vals| :: keys[i]
    ensures Distinct(keys) ==> forall i :: 0 <= i < |keys| && i < |vals| ==> m[keys[i]] == vals[i]
    decreases |keys|
  {
    var n := if |keys| < |vals| then |keys| else |vals|;
    if n == 0 then map[]
    else
      var prev := ZipMap(keys[..n - 1], vals[..n - 1]);
      assert forall i :: 0 <= i < n - 1 ==> keys[..n - 1][i] == keys[i] && vals[..n - 1][i] == vals[i];
      prev[keys[n - 1] := vals[n - 1]]
  }

  /**
   * `build_id_team_maps`: one id-to-team map per subset of ids that
   * `get_id_subsets` yields, in the same order.
   */
  function BuildIdTeamMaps(ids: seq<string>, teams: seq<string>): (r: Result<seq<map<string, string>>, ImportError>)
    ensures r.Success? <==> 0 <= |ids| - |teams| <= 3
    ensures r.Failure? ==> r.error == TooManyEmptySlots(|ids| - |teams|)
    ensures r.Success? ==> |r.value| == Binomial(|ids|, |ids| - |teams|) >= 1
  {
    match IdSubsets(ids, |teams|)
    case None => Failure(TooManyEmptySlots(|ids| - |teams|))
    case Some(subsets) =>
      IdSubsetsExplore(ids, |teams|);
      BinomialPositive(|ids|, |ids| - |teams|);
      Success(seq(|subsets|, m requires 0 <= m < |subsets| => ZipMap(subsets[m], teams)))
  }

  lemma {:induction false} BinomialPositive(m: nat, k: nat)
    requires k <= m
    ensures Binomial(m, k) >= 1
    decreases m
  {
    if k > 0 {
      BinomialPositive(m - 1, k - 1);
    }
  }

  /**
   * With distinct ids, each map sends the ids of one subset to the teams,
   * position by position, and nothing else: subset `m` leaves out the
   * positions `Combos(0, |ids|, extra)[m]` of the id list.
   */
  lemma IdTeamMapsPairUp(ids: seq<string>, teams: seq<string>)
    requires Distinct(ids) && 0 <= |ids| - |teams| <= 3
    ensures var maps := BuildIdTeamMaps(ids, teams).value;
            var subsets := Omitting(ids, Combos(0, |ids|, |ids| - |teams|));
            && |maps| == |subsets|
            && forall m :: 0 <= m < |maps| ==> PairsUp(maps[m], subsets[m], teams)
  {
    var maps := BuildIdTeamMaps(ids, teams).value;
    var subsets := Omitting(ids, Combos(0, |ids|, |ids| - |teams|));
    IdSubsetsEnumerate(ids, |teams|);
    assert IdSubsets(ids, |teams|).value == subsets;
    forall m | 0 <= m < |maps|
      ensures PairsUp(maps[m], subsets[m], teams)
    {
      assert |IdSubsets(ids, |teams|).value[m]| == |teams|;
      KeepFromDistinct(ids, SetOf(Combos(0, |ids|, |ids| - |teams|)[m]), 0);
      assert maps[m] == ZipMap(subsets[m], teams);
      ZipMapPairsUp(subsets[m], teams);
    }
  }

  /** `m` sends `keys[i]` to `vals[i]` for every `i`, and has no other keys. */
  predicate PairsUp(m: map<string, string>, keys: seq<string>, vals: seq<string>) {
    && |keys| == |vals|
    && m.Keys == (set x | x in keys)
    && forall i :: 0 <= i < |keys| ==> m[keys[i]] == vals[i]
  }

  lemma ZipMapPairsUp(keys: seq<string>, vals: seq<string>)
    requires Distinct(keys) && |keys| == |vals|
    ensures PairsUp(ZipMap(keys, vals), keys, vals)
  {
    var m := ZipMap(keys, vals);
    forall x | x in keys
      ensures x in m
    {
      var i :| 0 <= i < |keys| && keys[i] == x;
    }
  }

  // ---------------------------------------------------------------------
  // build_matches
  // ---------------------------------------------------------------------

  /** The teams of one game; None stands for an id no team was given. */
  type Game = seq<Option<string>>

  /** A game with two or fewer real teams. */
  datatype BadMatch = BadMatch(arena: string, num: nat, numTeams: nat)

  /** Matches (match number to arena to game) and the games that were found bad. */
  datatype Built = Built(matches: seq<map<string, Game>>, bad: seq<BadMatch>)

  /** `[id_team_map.get(id_) for id_ in match_ids]`. */
  function MatchTeams(idTeamMap: map<string, string>, matchIds: seq<string>): seq<Option<string>>
  {
    seq(|matchIds|, i requires 0 <= i < |matchIds| =>
      if matchIds[i] in idTeamMap then Some(idTeamMap[matchIds[i]]) else None)
  }

  /** `set(teams) - set([None])`: the distinct real teams of a game. */
  function TeamsIn(game: Game): set<string>
  {
    set i | 0 <= i < |game| && game[i].Some? :: game[i].value
  }

  /** A match's id count is a whole number of games and fits the arenas. */
  predicate FitsArenas(matchIds: seq<string>, numArenas: nat) {
    |matchIds| <= TeamsPerGame * numArenas && |matchIds| % TeamsPerGame == 0
  }

  /**
   * The first of the two assertions on match sizes to fail, taking the
   * matches in order; None when every match fits.
   */
  function SizeError(schedule: seq<seq<string>>, numArenas: nat): (r: Option<ImportError>)
    ensures r.None? <==> forall k :: 0 <= k < |schedule| ==> FitsArenas(schedule[k], numArenas)
    ensures r.Some? ==> exists k :: 0 <= k < |schedule| && !FitsArenas(schedule[k], numArenas)
                          && (forall j :: 0 <= j < k ==> FitsArenas(schedule[j], numArenas))
                          && r.value == (if |schedule[k]| > TeamsPerGame * numArenas
                                         then TooManyIds(k) else IncompatibleIds(k))
    decreases |schedule|
  {
    if |schedule| == 0 then None
    else
      var k := |schedule| - 1;
      var init := schedule[..k];
      assert forall j :: 0 <= j < k ==> init[j] == schedule[j];
      match SizeError(init, numArenas)
      case Some(e) => Some(e)
      case None =>
        if |schedule[k]| > TeamsPerGame * numArenas then Some(TooManyIds(k))
        else if |schedule[k]| % TeamsPerGame != 0 then Some(IncompatibleIds(k))
        else None
  }

  /** Arena `a` comes before arena `b` in the arena list. */
  predicate ArenaBefore(arenas: seq<string>, a: string, b: string) {
    a in arenas && b in arenas && IndexOf(arenas, a) < IndexOf(arenas, b)
  }

  /** Bad games listed one per arena, in the order of the arena list. */
  predicate InArenaOrder(arenas: seq<string>, bad: seq<BadMatch>) {
    forall j, l :: 0 <= j < l < |bad| ==> ArenaBefore(arenas, bad[j].arena, bad[l].arena)
  }

  /** In a list without repeats, an element's first position is its position. */
  lemma IndexOfDistinct(s: seq<string>, i: nat)
    requires Distinct(s) && i < |s|
    ensures IndexOf(s, s[i]) == i
  {
  }

  /** A game at a later arena keeps the bad list in arena order. */
  lemma AppendInArenaOrder(arenas: seq<string>, prev: seq<BadMatch>, upto: nat, x: BadMatch)
    requires Distinct(arenas) && upto < |arenas| && x.arena == arenas[upto]
    requires forall b :: b in prev ==> exists i :: 0 <= i < upto && b.arena == arenas[i]
    requires InArenaOrder(arenas, prev)
    ensures InArenaOrder(arenas, prev + [x])
  {
    var r := prev + [x];
    forall j, l | 0 <= j < l < |r|
      ensures ArenaBefore(arenas, r[j].arena, r[l].arena)
    {
      if l == |prev| {
        assert r[j] in prev;
        var i :| 0 <= i < upto && r[j].arena == arenas[i];
        IndexOfDistinct(arenas, i);
        IndexOfDistinct(arenas, upto);
      } else {
        assert r[j] == prev[j] && r[l] == prev[l];
      }
    }
  }

  /**
   * The bad games among the first `upto` arenas of match `num`: exactly the
   * games with two or fewer real teams, each listed once, in arena order.
   */
  function BadGames(num: nat, arenas: seq<string>, games: seq<Game>, upto: nat): (r: seq<BadMatch>)
    requires Distinct(arenas)
    requires upto <= |arenas| && upto <= |games|
    ensures forall b :: b in r ==> b.num == num && b.numTeams <= 2
                                   && exists i :: 0 <= i < upto && b.arena == arenas[i]
                                                  && b.numTeams == |TeamsIn(games[i])|
    ensures forall i :: 0 <= i < upto && |TeamsIn(games[i])| <= 2 ==>
              BadMatch(arenas[i], num, |TeamsIn(games[i])|) in r
    ensures InArenaOrder(arenas, r)
    decreases upto
  {
    if upto == 0 then []
    else
      var g := games[upto - 1];
      var n := |TeamsIn(g)|;
      var prev := BadGames(num, arenas, games, upto - 1);
      if n <= 2 then
        AppendInArenaOrder(arenas, prev, upto - 1, BadMatch(arenas[upto - 1], num, n));
        prev + [BadMatch(arenas[upto - 1], num, n)]
      else prev
  }

  /** Match `k` as built from its ids: arena `arenas[i]` hosts the `i`-th run of four. */
  predicate MatchBuilt(idTeamMap: map<string, string>, matchIds: seq<string>, arenas: seq<string>,
                       m: map<string, Game>)
  {
    && FitsArenas(matchIds, |arenas|)
    && m.Keys == (set i | 0 <= i < |matchIds| / TeamsPerGame :: arenas[i])
    && forall i :: 0 <= i < |matchIds| / TeamsPerGame ==>
         m[arenas[i]] == MatchTeams(idTeamMap, matchIds)[TeamsPerGame * i..TeamsPerGame * (i + 1)]
  }

  /** Every match is built from its ids. */
  predicate MatchesBuilt(idTeamMap: map<string, string>, schedule: seq<seq<string>>,
                         arenas: seq<string>, matches: seq<map<string, Game>>)
  {
    |matches| == |schedule|
    && forall k :: 0 <= k < |schedule| ==> MatchBuilt(idTeamMap, schedule[k], arenas, matches[k])
  }

  /** Every recorded bad match names a real game with two or fewer teams. */
  predicate BadSound(matches: seq<map<string, Game>>, bad: seq<BadMatch>)
  {
    forall x :: x in bad ==>
      && x.num < |matches| && x.arena in matches[x.num]
      && x.numTeams == |TeamsIn(matches[x.num][x.arena])| && x.numTeams <= 2
  }

  /** Every game with two or fewer teams is recorded. */
  predicate BadComplete(matches: seq<map<string, Game>>, bad: seq<BadMatch>)
  {
    forall k, a :: 0 <= k < |matches| && a in matches[k] && |TeamsIn(matches[k][a])| <= 2 ==>
      BadMatch(a, k, |TeamsIn(matches[k][a])|) in bad
  }

  /**
   * Bad matches are listed by match number, and within a match by arena;
   * so no game is listed twice.
   */
  predicate BadOrdered(arenas: seq<string>, bad: seq<BadMatch>)
  {
    forall i, j :: 0 <= i < j < |bad| ==>
      bad[i].num < bad[j].num || (bad[i].num == bad[j].num && ArenaBefore(arenas, bad[i].arena, bad[j].arena))
  }

  /** An ordered bad list names each game at most once. */
  lemma BadOrderedDistinct(arenas: seq<string>, bad: seq<BadMatch>)
    requires BadOrdered(arenas, bad)
    ensures Distinct(bad)
  {
  }

  /** Everything `build_matches` promises about its result. */
  predicate BuiltFaithfully(idTeamMap: map<string, string>, schedule: seq<seq<string>>,
                            arenas: seq<string>, b: Built)
  {
    && MatchesBuilt(idTeamMap, schedule, arenas, b.matches)
    && BadSound(b.matches, b.bad)
    && BadComplete(b.matches, b.bad)
    && BadOrdered(arenas, b.bad)
  }

  /** The games of one match, one per arena in arena order. */
  lemma NewMatchBuilt(idTeamMap: map<string, string>, matchIds: seq<string>, arenas: seq<string>,
                      games: seq<Game>)
    requires Distinct(arenas) && FitsArenas(matchIds, |arenas|)
    requires Flatten(games) == MatchTeams(idTeamMap, matchIds)
    requires forall i :: 0 <= i < |games| ==> |games[i]| == TeamsPerGame
    ensures |games| == |matchIds| / TeamsPerGame <= |arenas|
    ensures MatchBuilt(idTeamMap, matchIds, arenas, ZipMap(arenas, games))
  {
    var teams := MatchTeams(idTeamMap, matchIds);
    var m := ZipMap(arenas, games);
    var n := |games|;
    RunsOfFour(games, teams);
    assert |matchIds| / TeamsPerGame == n;
    assert n <= |arenas|;
    assert m.Keys == (set i | 0 <= i < n :: arenas[i]);
    forall i | 0 <= i < n
      ensures m[arenas[i]] == teams[TeamsPerGame * i..TeamsPerGame * (i + 1)]
    {
      assert m[arenas[i]] == games[i];
    }
  }

  lemma ExtendMatches(idTeamMap: map<string, string>, schedule: seq<seq<string>>, arenas: seq<string>,
                      prev: seq<map<string, Game>>, m: map<string, Game>)
    requires |schedule| > 0
    requires MatchesBuilt(idTeamMap, schedule[..|schedule| - 1], arenas, prev)
    requires MatchBuilt(idTeamMap, schedule[|schedule| - 1], arenas, m)
    ensures MatchesBuilt(idTeamMap, schedule, arenas, prev + [m])
  {
    var k := |schedule| - 1;
    forall j | 0 <= j < |schedule|
      ensures MatchBuilt(idTeamMap, schedule[j], arenas, (prev + [m])[j])
    {
      if j < k {
        assert schedule[..k][j] == schedule[j];
      }
    }
  }

  lemma ExtendBadSound(prev: seq<map<string, Game>>, prevBad: seq<BadMatch>, arenas: seq<string>,
                       games: seq<Game>)
    requires Distinct(arenas) && |games| <= |arenas|
    requires BadSound(prev, prevBad)
    ensures BadSound(prev + [ZipMap(arenas, games)],
                     prevBad + BadGames(|prev|, arenas, games, |games|))
  {
    var ms := prev + [ZipMap(arenas, games)];
    var extra := BadGames(|prev|, arenas, games, |games|);
    forall x | x in prevBad + extra
      ensures x.num < |ms| && x.arena in ms[x.num]
      ensures x.numTeams == |TeamsIn(ms[x.num][x.arena])| && x.numTeams <= 2
    {
      if x in prevBad {
        assert ms[x.num] == prev[x.num];
      } else {
        var i :| 0 <= i < |games| && x.arena == arenas[i] && x.numTeams == |TeamsIn(games[i])|;
      }
    }
  }

  lemma ExtendBadComplete(prev: seq<map<string, Game>>, prevBad: seq<BadMatch>, arenas: seq<string>,
                          games: seq<Game>)
    requires Distinct(arenas) && |games| <= |arenas|
    requires BadComplete(prev, prevBad)
    ensures BadComplete(prev + [ZipMap(arenas, games)],
                        prevBad + BadGames(|prev|, arenas, games, |games|))
  {
    var z := ZipMap(arenas, games);
    var ms := prev + [z];
    var extra := BadGames(|prev|, arenas, games, |games|);
    forall j, a | 0 <= j < |ms| && a in ms[j] && |TeamsIn(ms[j][a])| <= 2
      ensures BadMatch(a, j, |TeamsIn(ms[j][a])|) in prevBad + extra
    {
      var x := BadMatch(a, j, |TeamsIn(ms[j][a])|);
      if j < |prev| {
        assert ms[j] == prev[j];
        assert x in prevBad;
      } else {
        assert ms[j] == z;
        var i :| 0 <= i < |arenas| && i < |games| && arenas[i] == a;
        assert z[arenas[i]] == games[i];
        assert x in extra;
      }
    }
  }

  lemma ExtendBadOrdered(arenas: seq<string>, prevBad: seq<BadMatch>, extra: seq<BadMatch>, num: nat)
    requires BadOrdered(arenas, prevBad)
    requires forall x :: x in prevBad ==> x.num < num
    requires forall x :: x in extra ==> x.num == num
    requires InArenaOrder(arenas, extra)
    ensures BadOrdered(arenas, prevBad + extra)
  {
    var b := prevBad + extra;
    forall i, j | 0 <= i < j < |b|
      ensures b[i].num < b[j].num || (b[i].num == b[j].num && ArenaBefore(arenas, b[i].arena, b[j].arena))
    {
      if j >= |prevBad| {
        assert b[j] in extra && b[j] == extra[j - |prevBad|];
        if i < |prevBad| {
          assert b[i] in prevBad;
        } else {
          assert b[i] == extra[i - |prevBad|];
        }
      } else {
        assert b[i] == prevBad[i] && b[j] == prevBad[j];
      }
    }
  }

  /** One more match keeps the result faithful. */
  lemma ExtendBuilt(idTeamMap: map<string, string>, schedule: seq<seq<string>>, arenas: seq<string>,
                    prev: Built, games: seq<Game>)
    requires Distinct(arenas) && |schedule| > 0
    requires BuiltFaithfully(idTeamMap, schedule[..|schedule| - 1], arenas, prev)
    requires FitsArenas(schedule[|schedule| - 1], |arenas|)
    requires Flatten(games) == MatchTeams(idTeamMap, schedule[|schedule| - 1])
    requires forall i :: 0 <= i < |games| ==> |games[i]| == TeamsPerGame
    ensures |games| <= |arenas|
    ensures BuiltFaithfully(idTeamMap, schedule, arenas,
                            Built(prev.matches + [ZipMap(arenas, games)],
                                  prev.bad + BadGames(|schedule| - 1, arenas, games, |games|)))
  {
    var k := |schedule| - 1;
    NewMatchBuilt(idTeamMap, schedule[k], arenas, games);
    ExtendMatches(idTeamMap, schedule, arenas, prev.matches, ZipMap(arenas, games));
    ExtendBadSound(prev.matches, prev.bad, arenas, games);
    ExtendBadComplete(prev.matches, prev.bad, arenas, games);
    ExtendBadOrdered(arenas, prev.bad, BadGames(k, arenas, games, |games|), k);
  }

  /**
   * `build_matches`: for each match in order, checks its size, looks up the
   * team of each id, cuts the teams into games of four, gives game `i` to
   * arena `i` and records the games with two or fewer real teams. Whether
   * and how it fails depends only on the sizes of the matches.
   */
  function BuildMatches(idTeamMap: map<string, string>, schedule: seq<seq<string>>,
                        arenas: seq<string>): (r: Result<Built, ImportError>)
    requires Distinct(arenas)
    ensures r.Failure? <==> SizeError(schedule, |arenas|).Some?
    ensures r.Failure? ==> r.error == SizeError(schedule, |arenas|).value
    ensures r.Success? ==> BuiltFaithfully(idTeamMap, schedule, arenas, r.value)
    ensures r.Success? ==> Distinct(r.value.bad)
    decreases |schedule|
  {
    if |schedule| == 0 then Success(Built([], []))
    else
      var k := |schedule| - 1;
      var prev :- BuildMatches(idTeamMap, schedule[..k], arenas);
      var matchIds := schedule[k];
      if |matchIds| > TeamsPerGame * |arenas| then Failure(TooManyIds(k))
      else if |matchIds| % TeamsPerGame != 0 then Failure(IncompatibleIds(k))
      else
        // the size assertions above leave `chunks_of_size` nothing to reject
        var games := ChunksOfSize(MatchTeams(idTeamMap, matchIds), TeamsPerGame).value;
        ExtendBuilt(idTeamMap, schedule, arenas, prev, games);
        BadOrderedDistinct(arenas, prev.bad + BadGames(k, arenas, games, |games|));
        Success(Built(prev.matches + [ZipMap(arenas, games)],
                      prev.bad + BadGames(k, arenas, games, |games|)))
  }

  // ---------------------------------------------------------------------
  // order_teams, layout branch
  // ---------------------------------------------------------------------

  /**
   * `order_teams` when a layout exists: the layout's teams group by group,
   * failing on a team listed twice or a team missing from the layout, and
   * with the layout's teams that are not competing removed one by one.
   * `layout[g]` is the team list of group `g`.
   */
  function OrderTeamsByLayout(layout: seq<seq<string>>, teamIds: seq<string>): (r: Result<seq<string>, ImportError>)
    ensures r.Failure? <==> !Distinct(Flatten(layout)) || exists t :: t in teamIds && t !in Flatten(layout)
    ensures !Distinct(Flatten(layout)) ==> r == Failure(DuplicateLayoutTeam)
    ensures r.Success? ==> r.value == Filter(Flatten(layout), Elems(teamIds))
  {
    var ordered := Flatten(layout);
    var inLayout := Elems(ordered);
    var competing := Elems(teamIds);
    if !Distinct(ordered) then Failure(DuplicateLayoutTeam)
    else if competing - inLayout != {} then
      var t :| t in competing - inLayout;
      assert t in teamIds && t !in ordered;
      Failure(MissingLayoutTeams(competing - inLayout))
    else
      forall t | t in teamIds
        ensures t in ordered
      {
        assert t in competing && t !in competing - inLayout;
      }
      var extra := Filter(ordered, inLayout - competing);
      IgnoreIdsSucceeds(ordered, extra);
      IgnoreIdsKeepsOthers(ordered, extra);
      FilterCongruent(ordered, inLayout - Elems(extra), competing);
      IgnoreIds(ordered, extra)
  }

  /**
   * The layout order is a permutation of the competing teams, listed in the
   * order in which the layout places them.
   */
  lemma OrderTeamsPermutes(layout: seq<seq<string>>, teamIds: seq<string>)
    requires Distinct(teamIds)
    requires OrderTeamsByLayout(layout, teamIds).Success?
    ensures var r := OrderTeamsByLayout(layout, teamIds).value;
            && multiset(r) == multiset(teamIds)
            && forall i, j :: 0 <= i < j < |r| ==>
                 IndexOf(Flatten(layout), r[i]) < IndexOf(Flatten(layout), r[j])
  {
    var r := OrderTeamsByLayout(layout, teamIds).value;
    DistinctMultiset(r, teamIds);
    forall i, j | 0 <= i < j < |r|
      ensures IndexOf(Flatten(layout), r[i]) < IndexOf(Flatten(layout), r[j])
    {
      FilterOrdered(Flatten(layout), Elems(teamIds), i, j);
    }
  }

  /** In a distinct list, an element of the tail sits one place later than in the tail. */
  lemma IndexOfTail<T>(s: seq<T>, y: T)
    requires Distinct(s) && |s| > 0 && y in s[1..]
    ensures y in s && IndexOf(s, y) == IndexOf(s[1..], y) + 1
  {
    var k :| 0 <= k < |s[1..]| && s[1..][k] == y;
    assert s[k + 1] == y && s[0] != y;
  }

  /** Filtering a distinct list keeps its order. */
  lemma {:induction false} FilterOrdered<T(!new)>(s: seq<T>, keep: set<T>, i: int, j: int)
    requires Distinct(s)
    requires 0 <= i < j < |Filter(s, keep)|
    ensures IndexOf(s, Filter(s, keep)[i]) < IndexOf(s, Filter(s, keep)[j])
    decreases |s|
  {
    var f := Filter(s, keep);
    var f' := Filter(s[1..], keep);
    DistinctTail(s);
    var i', j' := if s[0] in keep then i - 1 else i, if s[0] in keep then j - 1 else j;
    assert f == (if s[0] in keep then [s[0]] else []) + f';
    assert f[j] == f'[j'] && f'[j'] in f';
    IndexOfTail(s, f'[j']);
    if i' >= 0 {
      assert f[i] == f'[i'] && f'[i'] in f';
      IndexOfTail(s, f'[i']);
      FilterOrdered(s[1..], keep, i', j');
    } else {
      assert f[i] == s[0];
    }
  }
}
