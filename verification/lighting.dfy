/**
 * The MIDI lighting controller: each competition state has a lighting
 * desk playback, started by a MIDI note-on at full velocity and stopped
 * by the same note at velocity zero. On every transition the controller
 * stops the playback it started last and starts the one for the new state.
 */
module LightingController {
  import opened Wrappers
  import opened CompetitionState

  /** The velocity that starts a playback. */
  const FullVelocity: nat := 127

  /** The playback (note number) for each state, the controller's `tracks` table. */
  function Track(s: State): (r: nat)
    ensures r < 4
  {
    match s
    case Idle => 0
    case Match => 1
    case PreMatch => 2
    case MatchEnding => 3
  }

  /** The inverse of `Track`: which state a playback number belongs to. */
  function StateOfTrack(n: nat): (r: Option<State>)
    ensures r.Some? <==> n < 4
    ensures r.Some? ==> Track(r.value) == n
  {
    if n == 0 then Some(Idle)
    else if n == 1 then Some(Match)
    else if n == 2 then Some(PreMatch)
    else if n == 3 then Some(MatchEnding)
    else None
  }

  /** Distinct states have distinct playbacks. */
  lemma TrackInjective(a: State, b: State)
    ensures Track(a) == Track(b) <==> a == b
  {
    assert StateOfTrack(Track(a)) == Some(a);
    assert StateOfTrack(Track(b)) == Some(b);
  }

  /** A MIDI `note_on` message. */
  datatype NoteOn = NoteOn(note: nat, velocity: nat)

  function StartPlayback(note: nat): NoteOn { NoteOn(note, FullVelocity) }
  function StopPlayback(note: nat): NoteOn { NoteOn(note, 0) }

  /**
   * The playbacks left running on the desk by a sequence of messages, from
   * none: a note-on with velocity zero stops its playback, any other starts it.
   */
  function Running(msgs: seq<NoteOn>): set<nat>
    decreases |msgs|
  {
    if |msgs| == 0 then {}
    else
      var m := msgs[|msgs| - 1];
      var before := Running(msgs[..|msgs| - 1]);
      if m.velocity == 0 then before - {m.note} else before + {m.note}
  }

  lemma RunningSnoc(msgs: seq<NoteOn>, m: NoteOn)
    ensures Running(msgs + [m]) == if m.velocity == 0 then Running(msgs) - {m.note} else Running(msgs) + {m.note}
  {
    assert (msgs + [m])[..|msgs|] == msgs;
  }

  /** The controller's memory: the playback it started last. */
  datatype Controller = Controller(curPlayback: Option<nat>)

  /** What the controller believes is running. */
  function Believed(c: Controller): set<nat> {
    if c.curPlayback.Some? then {c.curPlayback.value} else {}
  }

  /** `transition`: the messages sent on entering `state`, and the controller after. */
  function Transition(c: Controller, state: State): (r: (Controller, seq<NoteOn>))
    ensures r.0.curPlayback == Some(Track(state))
    ensures |r.1| == if c.curPlayback.Some? then 2 else 1
    ensures r.1[|r.1| - 1] == StartPlayback(Track(state))
    ensures c.curPlayback.Some? ==> r.1[0] == StopPlayback(c.curPlayback.value)
  {
    var start := [StartPlayback(Track(state))];
    var stop := if c.curPlayback.Some? then [StopPlayback(c.curPlayback.value)] else [];
    (Controller(Some(Track(state))), stop + start)
  }

  /**
   * When the desk runs what the controller believes, a transition leaves it
   * running exactly the new state's playback, which the controller then believes.
   */
  lemma TransitionKeepsBelief(c: Controller, msgs: seq<NoteOn>, state: State)
    requires Running(msgs) == Believed(c)
    ensures var (c', sent) := Transition(c, state);
            Running(msgs + sent) == Believed(c') == {Track(state)}
  {
    var (c', sent) := Transition(c, state);
    var start := StartPlayback(Track(state));
    if c.curPlayback.Some? {
      var stop := StopPlayback(c.curPlayback.value);
      assert msgs + sent == msgs + [stop] + [start];
      RunningSnoc(msgs, stop);
      RunningSnoc(msgs + [stop], start);
    } else {
      RunningSnoc(msgs, start);
    }
  }

  /** `run`: the controller fed every value of the transition generator, from a fresh controller. */
  function Replay(steps: seq<Step>): (r: (Controller, seq<NoteOn>))
    decreases |steps|
  {
    if |steps| == 0 then (Controller(None), [])
    else
      var (c, sent) := Replay(steps[..|steps| - 1]);
      var (c', more) := Transition(c, steps[|steps| - 1].state);
      (c', sent + more)
  }

  /**
   * After any number of transitions exactly one playback is running, the
   * latest state's, and the controller remembers it.
   */
  lemma {:induction false} ReplayRunsOne(steps: seq<Step>)
    ensures Running(Replay(steps).1) == Believed(Replay(steps).0)
    ensures |steps| > 0 ==> Believed(Replay(steps).0) == {Track(steps[|steps| - 1].state)}
    decreases |steps|
  {
    if |steps| > 0 {
      var before := steps[..|steps| - 1];
      ReplayRunsOne(before);
      TransitionKeepsBelief(Replay(before).0, Replay(before).1, steps[|steps| - 1].state);
    }
  }
}

/**
 * The MIDI show control interface: the same controller, written as one
 * loop over the transition generator.
 */
module MidiShowControl {
  import opened Wrappers
  import opened Seqs
  import opened CompetitionState
  import opened LightingController

  /**
   * `run`, over the first `|steps|` values of the transition generator:
   * the first state's playback is started; at each later state, the
   * previous state's playback is stopped and then the new one started.
   */
  method Run(steps: seq<Step>) returns (sent: seq<NoteOn>, cur: Option<nat>)
    ensures sent == Replay(steps).1 && cur == Replay(steps).0.curPlayback
    ensures |steps| == 0 ==> sent == [] && cur.None?
    ensures |steps| > 0 ==> |sent| == 2 * |steps| - 1 && sent[0] == StartPlayback(Track(steps[0].state))
    ensures forall k :: 0 < k < |steps| ==>
              sent[2 * k - 1] == StopPlayback(Track(steps[k - 1].state)) &&
              sent[2 * k] == StartPlayback(Track(steps[k].state))
    ensures |steps| > 0 ==> cur == Some(Track(steps[|steps| - 1].state))
  {
    sent := [];
    cur := None;
    var i := 0;
    while i < |steps|
      invariant 0 <= i <= |steps|
      invariant (sent, Controller(cur)) == (Replay(steps[..i]).1, Replay(steps[..i]).0)
      invariant i == 0 ==> sent == [] && cur.None?
      invariant i > 0 ==> |sent| == 2 * i - 1 && sent[0] == StartPlayback(Track(steps[0].state))
      invariant i > 0 ==> cur == Some(Track(steps[i - 1].state))
      invariant forall k :: 0 < k < i ==>
                  sent[2 * k - 1] == StopPlayback(Track(steps[k - 1].state)) &&
                  sent[2 * k] == StartPlayback(Track(steps[k].state))
    {
      var more: seq<NoteOn> := [];
      if cur.Some? {
        more := [StopPlayback(cur.value)];
      }
      var playback := Track(steps[i].state);
      more := more + [StartPlayback(playback)];
      PrefixOfPrefix(steps, i);
      sent := sent + more;
      cur := Some(playback);
      i := i + 1;
    }
    PrefixAll(steps, i);
  }

  /** The interface leaves exactly the latest state's playback running. */
  lemma RunRunsOne(steps: seq<Step>)
    requires |steps| > 0
    ensures Running(Replay(steps).1) == {Track(steps[|steps| - 1].state)}
  {
    ReplayRunsOne(steps);
  }
}
