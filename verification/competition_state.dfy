/**
 * The competition state machine that drives the lights: from the current
 * time, the match the schedule says is under way and the list of matches,
 * it picks one of four states and the moment at which to look again.
 *
 * The same class appears, line for line, in the lighting controller and in
 * the MIDI show control interface; it is modelled once here. Times are
 * whole seconds.
 */
module CompetitionState {
  import opened Wrappers
  import opened Seqs

  /** The four lighting states, numbered as in the source's enumeration. */
  datatype State = Idle | Match | MatchEnding | PreMatch

  /** The part of a scheduled match the state machine reads. */
  datatype MatchTimes = MatchTimes(startTime: int, endTime: int)

  /** The schedule's `match_slot_lengths['pre']` and `['post']`. */
  datatype SlotLengths = SlotLengths(pre: int, post: int)

  /** `timedelta(days=100)` in seconds. */
  const HundredDays: int := 100 * 24 * 60 * 60
  /** How long before the end of the game the lights say the match is ending. */
  const EndingWarning: int := 10
  /** How long before the start of the game the lights say it is about to start. */
  const StartingWarning: int := 5

  /** The game runs from the end of the pre-match part of the slot ... */
  function GameStart(m: MatchTimes, lengths: SlotLengths): int {
    m.startTime + lengths.pre
  }

  /** ... to the start of the post-match part. */
  function GameEnd(m: MatchTimes, lengths: SlotLengths): int {
    m.endTime - lengths.post
  }

  /** `is_match_in_game`: `now` lies in the game window, both ends included. */
  predicate InGame(m: MatchTimes, lengths: SlotLengths, now: int) {
    GameStart(m, lengths) <= now <= GameEnd(m, lengths)
  }

  // ---------------------------------------------------------------------
  // next_match
  // ---------------------------------------------------------------------

  /** A match whose game has not yet ended at `now`. */
  predicate NotOver(m: MatchTimes, lengths: SlotLengths, now: int) {
    GameEnd(m, lengths) >= now
  }

  /**
   * The first match, in the order given, whose game has not ended; the
   * matches are those of every slot in slot order, each slot's in arena
   * order.
   */
  function FirstNotOver(matches: seq<MatchTimes>, lengths: SlotLengths, now: int): (r: Option<nat>)
    ensures r.Some? ==> r.value < |matches| && NotOver(matches[r.value], lengths, now)
    ensures r.Some? ==> forall j :: 0 <= j < r.value ==> !NotOver(matches[j], lengths, now)
    ensures r.None? <==> forall j :: 0 <= j < |matches| ==> !NotOver(matches[j], lengths, now)
    decreases |matches|
  {
    if |matches| == 0 then None
    else if NotOver(matches[0], lengths, now) then Some(0)
    else
      match FirstNotOver(matches[1..], lengths, now)
      case None => None
      case Some(k) => Some(k + 1)
  }

  /** Every game in `matches` has ended at `now`. */
  predicate AllOver(matches: seq<MatchTimes>, lengths: SlotLengths, now: int) {
    forall j :: 0 <= j < |matches| ==> !NotOver(matches[j], lengths, now)
  }

  /** `next_match`. */
  function NextMatch(slots: seq<seq<MatchTimes>>, lengths: SlotLengths, now: int): Option<MatchTimes> {
    var all := Flatten(slots);
    match FirstNotOver(all, lengths, now)
    case None => None
    case Some(k) => Some(all[k])
  }

  /**
   * `next_match` as the source writes it, a loop over the slots and, inside,
   * over the matches of the slot, returning at the first whose game has
   * not ended.
   */
  method NextMatchScan(slots: seq<seq<MatchTimes>>, lengths: SlotLengths, now: int) returns (r: Option<MatchTimes>)
    ensures r == NextMatch(slots, lengths, now)
  {
    var s := 0;
    while s < |slots|
      invariant 0 <= s <= |slots|
      invariant AllOver(Flatten(slots[..s]), lengths, now)
    {
      var k := 0;
      while k < |slots[s]|
        invariant 0 <= k <= |slots[s]|
        invariant forall j :: 0 <= j < k ==> !NotOver(slots[s][j], lengths, now)
      {
        if NotOver(slots[s][k], lengths, now) {
          FoundInSlot(slots, lengths, now, s, k);
          return Some(slots[s][k]);
        }
        k := k + 1;
      }
      ScannedSlot(slots, lengths, now, s);
      s := s + 1;
    }
    PrefixAll(slots, s);
    r := None;
  }

  lemma FlattenPrefixSnoc<T>(slots: seq<seq<T>>, s: nat)
    requires s < |slots|
    ensures Flatten(slots[..s + 1]) == Flatten(slots[..s]) + slots[s]
  {
    assert slots[..s + 1][..s] == slots[..s];
  }

  lemma ScannedSlot(slots: seq<seq<MatchTimes>>, lengths: SlotLengths, now: int, s: nat)
    requires s < |slots|
    requires AllOver(Flatten(slots[..s]), lengths, now)
    requires AllOver(slots[s], lengths, now)
    ensures AllOver(Flatten(slots[..s + 1]), lengths, now)
  {
    FlattenPrefixSnoc(slots, s);
    var before := Flatten(slots[..s]);
    forall j | 0 <= j < |before + slots[s]|
      ensures !NotOver((before + slots[s])[j], lengths, now)
    {
      if j < |before| {
        assert (before + slots[s])[j] == before[j];
      } else {
        assert (before + slots[s])[j] == slots[s][j - |before|];
      }
    }
  }

  /** The first match not over, found in slot `s`, is the one `NextMatch` picks. */
  lemma FoundInSlot(slots: seq<seq<MatchTimes>>, lengths: SlotLengths, now: int, s: nat, k: nat)
    requires s < |slots| && k < |slots[s]| && NotOver(slots[s][k], lengths, now)
    requires AllOver(Flatten(slots[..s]), lengths, now)
    requires forall j :: 0 <= j < k ==> !NotOver(slots[s][j], lengths, now)
    ensures NextMatch(slots, lengths, now) == Some(slots[s][k])
  {
    var before := Flatten(slots[..s]);
    var all := Flatten(slots);
    assert slots == slots[..s] + ([slots[s]] + slots[s + 1..]);
    FlattenAppend(slots[..s], [slots[s]] + slots[s + 1..]);
    FlattenCons(slots[s], slots[s + 1..]);
    assert all == before + slots[s] + Flatten(slots[s + 1..]);
    var p := |before| + k;
    assert all[p] == slots[s][k];
    forall j | 0 <= j < p
      ensures !NotOver(all[j], lengths, now)
    {
      if j < |before| {
        assert all[j] == before[j];
      } else {
        assert all[j] == slots[s][j - |before|];
      }
    }
    FirstNotOverIs(all, lengths, now, p);
  }

  /** The first index not over is the one every earlier index is over before. */
  lemma FirstNotOverIs(matches: seq<MatchTimes>, lengths: SlotLengths, now: int, p: nat)
    requires p < |matches| && NotOver(matches[p], lengths, now)
    requires forall j :: 0 <= j < p ==> !NotOver(matches[j], lengths, now)
    ensures FirstNotOver(matches, lengths, now) == Some(p)
  {
    var r := FirstNotOver(matches, lengths, now);
    assert r.Some?;
  }

  // ---------------------------------------------------------------------
  // current_state
  // ---------------------------------------------------------------------

  /**
   * `current_state`: the state and the time until which it holds.
   * `current` is the first match the schedule reports under way at `now`
   * (the schedule's own lookup, not modelled), `slots` the matches in
   * time order.
   */
  function CurrentState(current: Option<MatchTimes>, slots: seq<seq<MatchTimes>>,
                        lengths: SlotLengths, now: int): (r: (State, int))
    ensures r.0 == Match ==> current.Some? && now <= r.1 && r.1 + EndingWarning == GameEnd(current.value, lengths)
    ensures r.0 == MatchEnding ==> current.Some? && r.1 - EndingWarning < now <= r.1 && r.1 == GameEnd(current.value, lengths)
    ensures r.0 == PreMatch ==> r.1 - StartingWarning <= now <= r.1
    ensures r.0 == Idle && NextMatch(slots, lengths, now).None? ==> r.1 == now + HundredDays
  {
    if current.Some? && InGame(current.value, lengths, now) && now <= GameEnd(current.value, lengths) - EndingWarning then
      (Match, GameEnd(current.value, lengths) - EndingWarning)
    else if current.Some? && InGame(current.value, lengths, now) && now <= GameEnd(current.value, lengths) then
      (MatchEnding, GameEnd(current.value, lengths))
    else
      match NextMatch(slots, lengths, now)
      case None => (Idle, now + HundredDays)
      case Some(next) =>
        var start := GameStart(next, lengths);
        if start - StartingWarning <= now <= start then (PreMatch, start)
        else (Idle, start - StartingWarning)
  }

  /** While the current match is in its game, the state is one of the two match states. */
  lemma InGameIsMatch(current: MatchTimes, slots: seq<seq<MatchTimes>>, lengths: SlotLengths, now: int)
    requires InGame(current, lengths, now)
    ensures var (state, until) := CurrentState(Some(current), slots, lengths, now);
            && (state == Match <==> now <= GameEnd(current, lengths) - EndingWarning)
            && (state == MatchEnding <==> now > GameEnd(current, lengths) - EndingWarning)
  {
  }

  /**
   * Outside a game, the state is about the next match not over: pre-match
   * within `StartingWarning` seconds of its game start, idle until then
   * otherwise, and idle for a hundred days when there is none.
   */
  lemma OutsideGame(current: Option<MatchTimes>, slots: seq<seq<MatchTimes>>, lengths: SlotLengths, now: int)
    requires current.None? || !InGame(current.value, lengths, now)
    ensures var (state, until) := CurrentState(current, slots, lengths, now);
            match NextMatch(slots, lengths, now)
            case None => state == Idle && until == now + HundredDays
            case Some(next) =>
              && (state == PreMatch <==> GameStart(next, lengths) - StartingWarning <= now <= GameStart(next, lengths))
              && (state == PreMatch ==> until == GameStart(next, lengths))
              && (state == Idle ==> until == GameStart(next, lengths) - StartingWarning)
              && state in {PreMatch, Idle}
  {
  }

  /**
   * The schedule agrees with the state machine when the next match not
   * over, if it is in its game, is reported under way.
   */
  predicate ConsistentCurrent(current: Option<MatchTimes>, slots: seq<seq<MatchTimes>>,
                              lengths: SlotLengths, now: int)
  {
    match NextMatch(slots, lengths, now)
    case None => true
    case Some(next) => InGame(next, lengths, now) ==> current.Some? && InGame(current.value, lengths, now)
  }

  /**
   * With a consistent schedule the time to look again is never in the
   * past; otherwise an idle state can carry a deadline already gone.
   */
  lemma DeadlineNotPast(current: Option<MatchTimes>, slots: seq<seq<MatchTimes>>, lengths: SlotLengths, now: int)
    requires ConsistentCurrent(current, slots, lengths, now)
    ensures CurrentState(current, slots, lengths, now).1 >= now
  {
    if !(current.Some? && InGame(current.value, lengths, now)) {
      match NextMatch(slots, lengths, now)
      case None =>
      case Some(next) =>
        NextMatchNotOver(slots, lengths, now);
    }
  }

  lemma NextMatchNotOver(slots: seq<seq<MatchTimes>>, lengths: SlotLengths, now: int)
    ensures NextMatch(slots, lengths, now).Some? ==> NotOver(NextMatch(slots, lengths, now).value, lengths, now)
  {
  }

  /** A past deadline: no match reported under way while the next one is in its game. */
  lemma DeadlineCanBePast()
    ensures var m := MatchTimes(0, 100);
            var lengths := SlotLengths(10, 10);
            CurrentState(None, [[m]], lengths, 50) == (Idle, 5)
  {
    var m := MatchTimes(0, 100);
    var lengths := SlotLengths(10, 10);
    assert Flatten([[m]]) == [m] by {
      assert Flatten([[m]]) == Flatten([[m]][..0]) + [m];
    }
  }

  // ---------------------------------------------------------------------
  // transition
  // ---------------------------------------------------------------------

  /** One value of the `transition()` generator. */
  datatype Step = Step(prev: Option<State>, state: State, until: int)

  /**
   * The first `|observed|` values of `transition()`, given the state and
   * deadline `current_state` gave at each wake-up: the first has no
   * previous state, and each later one carries the state before it.
   */
  function Transitions(observed: seq<(State, int)>): (r: seq<Step>)
    ensures |r| == |observed|
    ensures forall k :: 0 <= k < |r| ==> r[k].state == observed[k].0 && r[k].until == observed[k].1
    ensures |r| > 0 ==> r[0].prev.None?
    ensures forall k :: 0 < k < |r| ==> r[k].prev == Some(observed[k - 1].0)
    decreases |observed|
  {
    if |observed| == 0 then []
    else
      var prev := if |observed| == 1 then None else Some(observed[|observed| - 2].0);
      Transitions(observed[..|observed| - 1]) + [Step(prev, observed[|observed| - 1].0, observed[|observed| - 1].1)]
  }

  /** Every step after the first names the state of the step before it. */
  lemma TransitionsChain(observed: seq<(State, int)>, k: nat)
    requires 0 < k < |observed|
    ensures Transitions(observed)[k].prev == Some(Transitions(observed)[k - 1].state)
  {
  }
}
