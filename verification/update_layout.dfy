/**
 * `update-layout`: the `Takeable` cursor over a list, the reading of the
 * teams-list file and the regrouping of the layout's places, each of which
 * keeps its size and receives the next teams of the list in order.
 */
module UpdateLayout {
  import opened Wrappers
  import opened Text
  import opened Seqs
  import opened ImportSchedule

  // ---------------------------------------------------------------------
  // Takeable
  // ---------------------------------------------------------------------

  function Clamp(i: nat, n: nat): (r: nat)
    ensures r <= n && r <= i && (r == i || r == n)
  {
    if i < n then i else n
  }

  /** Python's `s[a:b]` for indices that are not negative. */
  function Slice<T>(s: seq<T>, a: nat, b: nat): (r: seq<T>)
    ensures |r| == if Clamp(a, |s|) <= Clamp(b, |s|) then Clamp(b, |s|) - Clamp(a, |s|) else 0
  {
    var lo := Clamp(a, |s|);
    var hi := Clamp(b, |s|);
    if lo <= hi then s[lo..hi] else []
  }

  /** A list and the position of the next element to hand out. */
  datatype Takeable<T> = Takeable(source: seq<T>, idx: nat)

  function Fresh<T>(source: seq<T>): Takeable<T> {
    Takeable(source, 0)
  }

  /** `has_more`. */
  predicate HasMore<T>(t: Takeable<T>) {
    t.idx < |t.source|
  }

  /** `remainder`: what has not been handed out yet. */
  function Remainder<T>(t: Takeable<T>): (r: seq<T>)
    ensures |r| == if HasMore(t) then |t.source| - t.idx else 0
  {
    if HasMore(t) then t.source[t.idx..] else []
  }

  /**
   * `take(n)`: the next `n` elements, fewer past the end; the position
   * advances by `n` whether or not there were that many.
   */
  function Take<T>(t: Takeable<T>, n: nat): (r: (Takeable<T>, seq<T>))
    ensures r.0.source == t.source && r.0.idx == t.idx + n
    ensures |r.1| == if HasMore(t) then Min(n, |t.source| - t.idx) else 0
  {
    (Takeable(t.source, t.idx + n), Slice(t.source, t.idx, t.idx + n))
  }

  function Min(a: int, b: int): int {
    if a < b then a else b
  }

  /** What a take hands out followed by what remains is what remained before. */
  lemma TakeThenRemainder<T>(t: Takeable<T>, n: nat)
    ensures Take(t, n).1 + Remainder(Take(t, n).0) == Remainder(t)
  {
    var s := t.source;
    if t.idx + n < |s| {
      assert Take(t, n).1 == s[t.idx..t.idx + n];
      assert Remainder(Take(t, n).0) == s[t.idx + n..];
      assert s[t.idx..t.idx + n] + s[t.idx + n..] == s[t.idx..];
    } else if HasMore(t) {
      assert Take(t, n).1 == s[t.idx..];
    } else {
      assert Take(t, n).1 == [];
    }
  }

  /** Takes of the given sizes, one after the other: the pieces and the final cursor. */
  function TakeEach<T>(t: Takeable<T>, sizes: seq<nat>): (r: (Takeable<T>, seq<seq<T>>))
    ensures |r.1| == |sizes|
    decreases |sizes|
  {
    if |sizes| == 0 then (t, [])
    else
      var (mid, pieces) := TakeEach(t, sizes[..|sizes| - 1]);
      var (last, piece) := Take(mid, sizes[|sizes| - 1]);
      (last, pieces + [piece])
  }

  /** Successive takes joined with the remainder give back what remained at the start. */
  lemma {:induction false} TakesThenRemainder<T>(t: Takeable<T>, sizes: seq<nat>)
    ensures Flatten(TakeEach(t, sizes).1) + Remainder(TakeEach(t, sizes).0) == Remainder(t)
    decreases |sizes|
  {
    if |sizes| > 0 {
      var init := sizes[..|sizes| - 1];
      var (mid, pieces) := TakeEach(t, init);
      var n := sizes[|sizes| - 1];
      TakesThenRemainder(t, init);
      TakeThenRemainder(mid, n);
      var (last, piece) := Take(mid, n);
      assert (pieces + [piece])[..|pieces|] == pieces;
      assert Flatten(pieces + [piece]) == Flatten(pieces) + piece;
    }
  }

  /** From a fresh cursor, the takes and the remainder partition the list. */
  lemma TakesPartition<T>(source: seq<T>, sizes: seq<nat>)
    ensures Flatten(TakeEach(Fresh(source), sizes).1) + Remainder(TakeEach(Fresh(source), sizes).0) == source
  {
    TakesThenRemainder(Fresh(source), sizes);
    assert Remainder(Fresh(source)) == source;
  }

  /** The cases of the test-suite, on the list "abcd". */
  lemma TakeableExamples()
    ensures HasMore(Fresh("abcd")) && Take(Fresh("abcd"), 0).1 == ""
    ensures var (t1, p1) := Take(Fresh("abcd"), 2);
            var (t2, p2) := Take(t1, 2);
            p1 == "ab" && Remainder(t1) == "cd" && p2 == "cd" && !HasMore(t2)
    ensures var (t1, p1) := Take(Fresh("abcd"), 3);
            var (t2, p2) := Take(t1, 3);
            var (t3, p3) := Take(t2, 2);
            p1 == "abc" && p2 == "d" && p3 == "" && !HasMore(t3)
    ensures var (t1, p1) := Take(Fresh("abcd"), 5);
            p1 == "abcd" && Remainder(t1) == ""
  {
    assert "abcd"[..2] == "ab" && "abcd"[2..] == "cd" && "abcd"[2..4] == "cd";
    assert "abcd"[0..3] == "abc" && "abcd"[3..4] == "d" && "abcd"[0..4] == "abcd";
  }

  // ---------------------------------------------------------------------
  // The teams list
  // ---------------------------------------------------------------------

  /**
   * The loop over the teams-list file: each line loses what follows its
   * first '#' and its surrounding whitespace, and is kept if anything is
   * left. This is the tidying the schedule import does.
   */
  method ParseTeamsList(lines: seq<string>) returns (teamsList: seq<string>)
    ensures teamsList == Tidy(lines)
  {
    teamsList := [];
    ghost var seen: seq<string> := [];
    var i := 0;
    while i < |lines|
      invariant 0 <= i <= |lines| && seen == lines[..i]
      invariant teamsList == Tidy(seen)
    {
      var tla := TeamOfLine(lines[i]);
      TidyStep(seen, lines[i], teamsList, tla);
      if |tla| > 0 {
        teamsList := teamsList + [tla];
      }
      PrefixSnoc(lines, i);
      seen := seen + [lines[i]];
      i := i + 1;
    }
    PrefixAll(lines, i);
  }

  lemma TidyStep(seen: seq<string>, line: string, done: seq<string>, tla: string)
    requires done == Tidy(seen) && tla == TidyLine(line)
    ensures Tidy(seen + [line]) == if |tla| > 0 then done + [tla] else done
  {
    TidySnoc(seen, line);
    if |tla| == 0 {
      assert done + TidiedTail(line) == done;
    }
  }

  /**
   * `line.split('#', 1)[0].strip()`: the text before the first '#',
   * without surrounding whitespace, as the schedule import tidies a line.
   */
  method TeamOfLine(line: string) returns (r: string)
    ensures r == TidyLine(line)
  {
    var pieces := Split(line, '#');
    SplitFirstIsCutComment(line);
    r := Strip(pieces[0]);
  }

  /** The first piece of a split on '#' is the text before the first '#'. */
  lemma SplitFirstIsCutComment(line: string)
    ensures Split(line, '#')[0] == CutComment(line)
  {
  }

  // ---------------------------------------------------------------------
  // Regrouping the places
  // ---------------------------------------------------------------------

  /** A place of the layout: its other fields, and its list of teams. */
  datatype Place = Place(name: string, teams: seq<string>)

  datatype LayoutError =
    | NoPlaces   // IndexError from `layout_teams[-1]`

  function TeamsOf(places: seq<Place>): seq<seq<string>>
  {
    seq(|places|, i requires 0 <= i < |places| => places[i].teams)
  }

  function SizesOf(places: seq<Place>): seq<nat>
  {
    seq(|places|, i requires 0 <= i < |places| => |places[i].teams|)
  }

  /** How many teams the places before place `i` hold. */
  function Offset(places: seq<Place>, i: nat): nat
    requires i <= |places|
    decreases i
  {
    if i == 0 then 0 else Offset(places, i - 1) + |places[i - 1].teams|
  }

  /** The teams a place of this size at this offset receives from the list. */
  function Share(teamsList: seq<string>, places: seq<Place>, i: nat): seq<string>
    requires i < |places|
  {
    Slice(teamsList, Offset(places, i), Offset(places, i) + |places[i].teams|)
  }

  /** The new layout after every place has taken its share. */
  predicate SharedOut(places: seq<Place>, teamsList: seq<string>, out: seq<Place>, i: nat)
    requires i <= |places|
  {
    && |out| == i
    && forall j {:trigger out[j]} :: 0 <= j < i ==> out[j] == Place(places[j].name, Share(teamsList, places, j))
  }

  lemma FlattenSnoc(out: seq<Place>, p: Place)
    ensures Flatten(TeamsOf(out + [p])) == Flatten(TeamsOf(out)) + p.teams
  {
    var ts := TeamsOf(out + [p]);
    assert ts[..|ts| - 1] == TeamsOf(out);
  }

  /**
   * The loop of `command`: every place's list is replaced by the next as
   * many teams, and teams left over are appended to the last place. With
   * no place at all, left-over teams fail on `layout_teams[-1]`.
   */
  method Regroup(places: seq<Place>, teamsList: seq<string>) returns (r: Result<seq<Place>, LayoutError>)
    ensures r.Failure? <==> |places| == 0 && |teamsList| > 0
    ensures r.Success? ==> |r.value| == |places|
    ensures r.Success? ==> forall j :: 0 <= j < |places| ==> r.value[j].name == places[j].name
    ensures r.Success? ==> Flatten(TeamsOf(r.value)) == teamsList
    ensures r.Success? ==> forall j {:trigger r.value[j]} :: 0 <= j < |places| - 1 ==>
              r.value[j].teams == Share(teamsList, places, j)
    ensures r.Success? && |places| > 0 ==>
              var last := |places| - 1;
              r.value[last].teams == Share(teamsList, places, last)
                                     + Slice(teamsList, Offset(places, |places|), |teamsList|)
  {
    var out, cursor := DealPlaces(places, teamsList);
    DealtAll(places, teamsList, cursor);
    assert forall j :: 0 <= j < |places| ==> out[j].name == places[j].name;
    if HasMore(cursor) {
      if |out| == 0 {
        return Failure(NoPlaces);
      }
      out := GrowLast(out, Remainder(cursor));
    } else if |out| > 0 {
      GrowLastNothing(out);
    }
    return Success(out);
  }

  /**
   * The `for place in layout_teams` loop: each place, in order, takes as
   * many teams from the cursor as it had.
   */
  method DealPlaces(places: seq<Place>, teamsList: seq<string>) returns (out: seq<Place>, cursor: Takeable<string>)
    ensures cursor.source == teamsList && cursor.idx == Offset(places, |places|)
    ensures SharedOut(places, teamsList, out, |places|)
    ensures Flatten(TeamsOf(out)) + Remainder(cursor) == teamsList
  {
    cursor := Fresh(teamsList);
    out := [];
    var i := 0;
    while i < |places|
      invariant 0 <= i <= |places|
      invariant cursor.source == teamsList && cursor.idx == Offset(places, i)
      invariant SharedOut(places, teamsList, out, i)
      invariant Flatten(TeamsOf(out)) + Remainder(cursor) == teamsList
    {
      var (next, piece) := Take(cursor, |places[i].teams|);
      TakeIsShare(places, teamsList, cursor, i);
      DealShare(places, teamsList, out, i, piece);
      DealFlatten(out, places[i].name, cursor, |places[i].teams|, teamsList);
      out := out + [Place(places[i].name, piece)];
      cursor := next;
      i := i + 1;
    }
  }

  lemma TakeIsShare(places: seq<Place>, teamsList: seq<string>, cursor: Takeable<string>, i: nat)
    requires i < |places| && cursor.source == teamsList && cursor.idx == Offset(places, i)
    ensures Take(cursor, |places[i].teams|).1 == Share(teamsList, places, i)
  {
  }

  /** Giving place `i` its share keeps the earlier places' shares. */
  lemma DealShare(places: seq<Place>, teamsList: seq<string>, out: seq<Place>, i: nat, piece: seq<string>)
    requires i < |places| && SharedOut(places, teamsList, out, i)
    requires piece == Share(teamsList, places, i)
    ensures SharedOut(places, teamsList, out + [Place(places[i].name, piece)], i + 1)
  {
    var out' := out + [Place(places[i].name, piece)];
    forall j | 0 <= j < i + 1
      ensures out'[j] == Place(places[j].name, Share(teamsList, places, j))
    {
      if j < i {
        assert out'[j] == out[j];
      }
    }
  }

  /** The teams dealt so far followed by those left are the whole list. */
  lemma DealFlatten(out: seq<Place>, name: string, cursor: Takeable<string>, n: nat, teamsList: seq<string>)
    requires Flatten(TeamsOf(out)) + Remainder(cursor) == teamsList
    ensures Flatten(TeamsOf(out + [Place(name, Take(cursor, n).1)])) + Remainder(Take(cursor, n).0) == teamsList
  {
    TakeThenRemainder(cursor, n);
    FlattenSnoc(out, Place(name, Take(cursor, n).1));
  }

  lemma DealtAll(places: seq<Place>, teamsList: seq<string>, cursor: Takeable<string>)
    requires cursor.source == teamsList && cursor.idx == Offset(places, |places|)
    ensures Remainder(cursor) == Slice(teamsList, Offset(places, |places|), |teamsList|)
    ensures HasMore(cursor) <==> Offset(places, |places|) < |teamsList|
  {
    RemainderIsSlice(cursor);
  }

  /** `layout_teams[-1]['teams'] += extra`. */
  function GrowLast(out: seq<Place>, extra: seq<string>): (r: seq<Place>)
    requires |out| > 0
    ensures |r| == |out| && forall j :: 0 <= j < |out| - 1 ==> r[j] == out[j]
    ensures forall j :: 0 <= j < |out| ==> r[j].name == out[j].name
    ensures r[|out| - 1] == Place(out[|out| - 1].name, out[|out| - 1].teams + extra)
    ensures Flatten(TeamsOf(r)) == Flatten(TeamsOf(out)) + extra
  {
    var last := out[|out| - 1];
    var init := out[..|out| - 1];
    assert out == init + [last];
    FlattenSnoc(init, last);
    var grown := Place(last.name, last.teams + extra);
    FlattenSnoc(init, grown);
    init + [grown]
  }

  lemma GrowLastNothing(out: seq<Place>)
    requires |out| > 0
    ensures GrowLast(out, []) == out
  {
    assert out[|out| - 1].teams + [] == out[|out| - 1].teams;
  }

  lemma RemainderIsSlice<T>(t: Takeable<T>)
    ensures Remainder(t) == Slice(t.source, t.idx, |t.source|)
  {
  }

  /** Every place but the last receives as many teams as it had, while the list lasts. */
  lemma ShareSize(teamsList: seq<string>, places: seq<Place>, i: nat)
    requires i < |places|
    ensures |Share(teamsList, places, i)| ==
              if Offset(places, i) + |places[i].teams| <= |teamsList| then |places[i].teams|
              else if Offset(places, i) < |teamsList| then |teamsList| - Offset(places, i)
              else 0
  {
  }

  /**
   * `command` without the file handling: reads the teams list and regroups
   * the places of the layout into groups the size they were, the teams left
   * over added to the final group.
   */
  method Command(places: seq<Place>, lines: seq<string>) returns (r: Result<seq<Place>, LayoutError>)
    ensures r.Failure? <==> |places| == 0 && |Tidy(lines)| > 0
    ensures r.Success? ==> |r.value| == |places| && Flatten(TeamsOf(r.value)) == Tidy(lines)
    ensures r.Success? ==> forall j :: 0 <= j < |places| ==> r.value[j].name == places[j].name
    ensures r.Success? ==> forall j {:trigger r.value[j]} :: 0 <= j < |places| - 1 ==>
              r.value[j].teams == Share(Tidy(lines), places, j)
    ensures r.Success? && |places| > 0 ==>
              var last := |places| - 1;
              r.value[last].teams == Share(Tidy(lines), places, last)
                                     + Slice(Tidy(lines), Offset(places, |places|), |Tidy(lines)|)
  {
    var teamsList := ParseTeamsList(lines);
    r := Regroup(places, teamsList);
  }
}
