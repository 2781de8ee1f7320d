# srcomp command-line tools, modelled in Dafny

This project models the logic of six commands of the Student Robotics
competition tools (`srcomp`):

- `deploy` pushes a competition-state revision to every host in the
  deployment list. For each host it first asks the running server for its
  state, compares that state with the target's history, and asks the
  operator when the host is not simply behind. It stops at the first host
  whose push or remote update fails.
- `import-schedule` turns a schedule file of pipe-separated ids into
  league matches. It tidies the file, reads the ids, and chooses which
  spare ids to leave empty. It builds the matches for each choice, compares
  how many places each leaves empty, and orders the teams by the venue
  layout.
- `add-delay` parses a duration such as `1hr30m5s` or `42` and appends a
  delay entry to the schedule.
- `update-layout` reads a list of teams and deals it out over the places
  of the venue layout. Each place keeps its size. Teams left over go to
  the last place.
- `lighting-controller` and `midi-show-control-interface` drive lighting
  from the competition's state machine. The states are idle, pre-match,
  match and match-ending. On each change of state a MIDI note starts the
  new playback and stops the previous one.

Files and modules:

| file | module | what |
|---|---|---|
| `wrappers.dfy` | `Wrappers` | `Option` and `Result` with failure propagation |
| `seqs.dfy` | `Seqs` | sequence helpers: `Distinct`, `Flatten`, `FirstOccurrences`, `Filter`, `RemoveFirst`, `IndexOf` |
| `text.dfy` | `Text` | Python's `lower`, `upper`, `strip`, `find`, `split` and `isdigit` on ASCII text |
| `combinations.dfy` | `Combinations` | `get_id_subsets` and the index combinations it enumerates |
| `import_schedule.dfy` | `ImportSchedule` | the file handling and match building of `import-schedule` |
| `best_fit.dfy` | `BestFit` | `are_better_matches`, `get_best_fit` and `build_schedule` |
| `deploy.dfy` | `Deploy` | the `deploy` command |
| `add_delay.dfy` | `AddDelay` | the `add-delay` command |
| `update_layout.dfy` | `UpdateLayout` | `Takeable` and the `update-layout` command |
| `competition_state.dfy` | `CompetitionState` | the competition state machine shared by the two lighting commands |
| `lighting.dfy` | `LightingController`, `MidiShowControl` | the MIDI controllers |

The model keeps the outside world out of the functions by taking it as
input:

- the operator's typed responses, as a sequence (running out of responses
  is `EOFError`);
- what each host reports, whether each push succeeds, and each remote
  exit status;
- the answers to the version-history queries before and after a fetch,
  and whether that fetch succeeds;
- the current time, and the match the schedule reports as under way.

Python exceptions and `exit(n)` become explicit `Failure` values or exit
codes.

After the optional fetch, the ancestor test at `sr/comp/cli/deploy.py:161`
is not repeated, so a state the fetch reveals to be an ancestor is put to
the operator as a sibling state (`Deploy.FetchedAncestorIsAskedAsSibling`).

The two fetches at `sr/comp/cli/deploy.py:168-169` are not inside a `try`,
unlike the push at `sr/comp/cli/deploy.py:105-106`. A failing fetch
therefore ends the whole command with the exception. The model returns it
as the error `FetchFailed`, which `CheckHostState`, `RunDeployments` and
`DeployCommand` pass on.

Arithmetic and built-in behaviour follow Python 3.7 or later. In
particular, `/` at `sr/comp/cli/import_schedule.py:148` is true division,
so the assertion there says a match has at most four ids per arena. A
`dict` keeps insertion order, so `match.items()` at
`sr/comp/cli/import_schedule.py:156-159` visits the arenas in the order of
the arena ids.

## Model

| member | source | states |
|---|---|---|
| Deploy.CaseMapOptions | sr/comp/cli/deploy.py:56 | each option keeps its place and its letters up to case; the default is shown in capitals, and every other option is in lower case, the form a lowered reply is compared in |
| Deploy.QueryAssertions | sr/comp/cli/deploy.py:53-57 | `query` fails an assertion exactly when a set default is not an option or two options clash once case-mapped |
| Deploy.Ask | sr/comp/cli/deploy.py:62-71 | the reply is the first response whose lower-case form is an option, or the default after one unmatched response; every earlier response matched no option; running out of input means no response matched, and with a default it means there was no response at all |
| Deploy.QueryWithDefault | sr/comp/cli/deploy.py:52-71 | with a default, exactly one response is read; it is answered as itself when it matches another option, and as the default otherwise |
| Deploy.QueryWithoutDefault | sr/comp/cli/deploy.py:52-71 | without a default, `query` succeeds exactly when some response matches an option; it answers the first such response, lower-cased, and every response read before it matched no option |
| Deploy.QueryDefaultExample | tests/test_deploy_query_helpers.py:9-12 | a response that is no option is answered with the default |
| Deploy.QueryOtherOptionExample | tests/test_deploy_query_helpers.py:14-17 | an option other than the default is answered as itself |
| Deploy.QueryRetryExample | tests/test_deploy_query_helpers.py:19-27 | without a default, an unmatched response is skipped and the second is answered, after two reads |
| Deploy.BoolQueryAsks | sr/comp/cli/deploy.py:73-81 | the options and default `query_bool` passes always pass `query`'s assertions, so only reading can fail |
| Deploy.QueryBoolWithDefault | sr/comp/cli/deploy.py:73-81 | with a default, one response decides; a default of yes is overturned only by 'n', and a default of no only by 'y' |
| Deploy.QueryBoolWithoutDefault | sr/comp/cli/deploy.py:73-81 | without a default, the answer is read from a response within the input, and it is yes exactly when that response is 'y' in either case |
| Deploy.QueryWarn | sr/comp/cli/deploy.py:83-86 | the warning reads one response and continues exactly when it is 'y' in either case |
| Deploy.HostOfRefCompstate | sr/comp/cli/deploy.py:88-90 | the push URL starts `ssh://srcomp@`, and the host can be read back from it |
| Deploy.RefspecInjective | sr/comp/cli/deploy.py:104 | different revisions give different refspecs |
| Deploy.SourceOfRefspecRoundTrip | sr/comp/cli/deploy.py:104 | the refspec pushes the revision itself to the branch `deploy-<revision>` |
| Deploy.DeployTo | sr/comp/cli/deploy.py:92-118 | the push goes to the host's URL with the revision's refspec; a failed push ends with status 1 and nothing runs remotely; otherwise `./update '<revision>'` runs, its status is returned, stdout is shown exactly when verbose or failing, and stderr is always shown |
| Deploy.PushIsDeterministic | sr/comp/cli/deploy.py:97-104 | pushing one revision to one host twice names the same URL and the same branch |
| Deploy.Confirm | sr/comp/cli/deploy.py:151-154 | a "Deploy anyway?" question reads one response and skips the host exactly when the response is 'n' |
| Deploy.Classify | sr/comp/cli/deploy.py:171-192 | after any fetch, one question is asked, and its answer decides: 'n' skips the host, anything else updates it |
| Deploy.CheckHostState | sr/comp/cli/deploy.py:135-192 | at most two questions, each reading one response; the last answer decides; a fetch of `origin` and then of the host happens exactly when the first question was the fetch offer and was not declined; the fetch question is asked only first; the check fails with the fetch error exactly when the fetch is offered, accepted and fails, and otherwise fails only by running out of responses |
| Deploy.MissingStateAsksOnce | sr/comp/cli/deploy.py:148-154 | with no usable state, one question is asked, defaulting to update |
| Deploy.CurrentHostIsSkipped | sr/comp/cli/deploy.py:156-158 | a host already at the target revision is skipped without a question |
| Deploy.AncestorIsUpdated | sr/comp/cli/deploy.py:161-162 | a host whose state is an ancestor of the target is updated without a question |
| Deploy.UnknownCommitPath | sr/comp/cli/deploy.py:164-192 | for an unknown commit, the fetch is offered first; an accepted fetch that fails ends the check with that error; otherwise the next question is chosen against the history after the fetch, or before it when declined, and the second answer decides |
| Deploy.KnownCommitPath | sr/comp/cli/deploy.py:171-185 | a known commit that is not an ancestor gets one question and no fetch |
| Deploy.FetchedAncestorIsAskedAsSibling | sr/comp/cli/deploy.py:161-185 | a state a successful fetch reveals to be an ancestor is still asked about as a sibling |
| Deploy.RunDeployments | sr/comp/cli/deploy.py:209-224 | the run takes the hosts in list order; with host checks on, each host's recorded check is `check_host_state`'s verdict on the responses the earlier checks left unread, and the host is skipped exactly when that verdict says so; a skipped host is never pushed to; a finished run reached every host with status 0; a stopped run ends at its first failing host with that host's status; the run fails only by running out of responses or by a failing fetch, which the source leaves uncaught; without host checks it never fails |
| Deploy.FetchFailureEndsRun | sr/comp/cli/deploy.py:164-169 | when the first host's unknown state is offered a fetch that the operator accepts and that fails, the run fails with that error before any host is pushed to |
| Deploy.SkipsExactlyOnCheck | sr/comp/cli/deploy.py:212-216 | with host checks on, host `i` of a run is skipped exactly when `check_host_state`, asked on the responses the earlier hosts left unread, says to skip it |
| Deploy.FailFast | sr/comp/cli/deploy.py:211-222 | without host checks, the first failing host ends the run with its status (1 for a failed push) and no later host is contacted; with no failing host the run completes |
| Deploy.DeployCommand | sr/comp/cli/deploy.py:194-233 | an unreadable host list, local changes or an unloadable state each end the command with status 1 before any host is contacted; with validation errors, no response fails and an answer other than 'y' stops with status 1; otherwise the result is the run of the deployments to HEAD over the host list, on the responses after the warning's, with the run's status; status 0 means the run finished |
| Deploy.CommandDeploysHead | sr/comp/cli/deploy.py:209-233 | the hosts a command reached are the first hosts of the deployment list, in order, and each host pushed to received HEAD at its own URL |
| ImportSchedule.TidyLine | sr/comp/cli/import_schedule.py:11-15 | a tidied line has no '#' and no surrounding whitespace, and a line that already satisfies both is unchanged |
| ImportSchedule.TidyClean | sr/comp/cli/import_schedule.py:7-20 | every line of a tidied file is non-empty, free of comments and stripped |
| ImportSchedule.TidyAppend | sr/comp/cli/import_schedule.py:7-20 | tidying works line by line: tidying two parts of a file and joining them gives the tidied file |
| ImportSchedule.TidyIdempotent | sr/comp/cli/import_schedule.py:7-20 | tidying a tidied file changes nothing |
| ImportSchedule.ChunksOfSize | sr/comp/cli/import_schedule.py:22-29 | the chunks have exactly `size` elements and concatenate to the list; there are as many as fit, and the call fails exactly when the length is not a multiple of `size` |
| ImportSchedule.RunsOfFour | sr/comp/cli/import_schedule.py:25-29 | chunk `i` of four is the slice from `4i` to `4i+4` |
| ImportSchedule.LoadIdsSchedule | sr/comp/cli/import_schedule.py:62-82 | loading fails exactly when some line repeats an id, and it names the first such line; otherwise each line gives its ids, and the ids are the first occurrences across the whole schedule |
| ImportSchedule.LoadedIdsAreFirstAppearances | sr/comp/cli/import_schedule.py:62-82 | the loaded ids are distinct and are exactly the ids used by some line, ordered by where they first appear |
| ImportSchedule.IgnoreIds | sr/comp/cli/import_schedule.py:84-86 | removal shortens the list by one id per id removed; a failure names a missing id |
| ImportSchedule.IgnoreIdsSucceeds | sr/comp/cli/import_schedule.py:84-86 | on distinct ids, removal succeeds exactly when the ids to remove are distinct and all present |
| ImportSchedule.IgnoreIdsKeepsOthers | sr/comp/cli/import_schedule.py:84-86 | a successful removal keeps every other id, in its original order |
| Combinations.IdSubsets | sr/comp/cli/import_schedule.py:88-123 | subsets exist exactly when zero to three ids are spare, and each has `limit` ids; with no spare id the only subset is all the ids |
| Combinations.PopOneEnumerates | sr/comp/cli/import_schedule.py:98-102 | the one-spare loop leaves out each single position in turn |
| Combinations.PopTwoEnumerates | sr/comp/cli/import_schedule.py:104-110 | the two-spare loops leave out each increasing pair of positions, in lexicographic order |
| Combinations.PopThreeEnumerates | sr/comp/cli/import_schedule.py:112-119 | the three-spare loops leave out each increasing triple of positions, in lexicographic order |
| Combinations.IdSubsetsEnumerate | sr/comp/cli/import_schedule.py:88-123 | the subsets are the id list with each `e`-combination of positions left out, where `e` is the number of spare ids |
| Combinations.IdSubsetsExplore | tests/test_import_schedule.py:12-54 | there are `n` choose `e` subsets; each keeps exactly the ids outside one `e`-combination; no two leave out the same positions; every `e`-combination is left out by one of them |
| Combinations.CombosCount | sr/comp/cli/import_schedule.py:104-119 | the nested loops visit `n` choose `k` index tuples |
| Combinations.IdSubsetsCount | sr/comp/cli/import_schedule.py:88-119 | with `n` ids there is one subset for no spare id, `n` for one, n(n-1)/2 for two and n(n-1)(n-2)/6 for three |
| Combinations.IdSubsetsTestCounts | tests/test_import_schedule.py:12-44 | three ids for two teams give three subsets, and four ids give six, as the tests count |
| ImportSchedule.ZipMap | sr/comp/cli/import_schedule.py:137 | the keys of `dict(zip(...))` are those paired with a value, up to the shorter list; with distinct keys, each key maps to its partner |
| ImportSchedule.BuildIdTeamMaps | sr/comp/cli/import_schedule.py:125-137 | there is one map per id subset, at least one, and the call fails exactly when more than three ids or fewer than none are spare |
| ImportSchedule.IdTeamMapsPairUp | sr/comp/cli/import_schedule.py:125-137 | map `m` sends the ids of subset `m` to the teams, position by position, and has no other keys |
| ImportSchedule.SizeError | sr/comp/cli/import_schedule.py:147-151 | the error is absent exactly when every match fits the arenas in whole games; otherwise it is the first failing assertion of the first failing match |
| ImportSchedule.BadGames | sr/comp/cli/import_schedule.py:156-162 | a game is recorded as bad exactly when it has two or fewer real teams, with its arena, match number and team count; each is listed once, in the order of the arena list, which is the order of `match.items()` |
| ImportSchedule.NewMatchBuilt | sr/comp/cli/import_schedule.py:153-156 | the games of a match number at most the arenas, and arena `i` hosts the `i`-th run of four teams |
| ImportSchedule.BuildMatches | sr/comp/cli/import_schedule.py:139-164 | building fails exactly when a match size is wrong, with the first such error; otherwise every match is built from its ids, and the bad games are exactly those with two or fewer teams, listed by match and within a match by arena, with no game listed twice |
| ImportSchedule.OrderTeamsByLayout | sr/comp/cli/import_schedule.py:222-245 | the layout order fails exactly when a team appears twice in the layout or a competing team is missing from it; otherwise it is the layout's competing teams in layout order |
| ImportSchedule.OrderTeamsPermutes | sr/comp/cli/import_schedule.py:222-245 | the layout order is a permutation of the competing teams, in the order the layout lists them |
| BestFit.CountEmptyPositive | sr/comp/cli/import_schedule.py:168-173 | a count of empty places is non-zero exactly for the numbers that some bad game has |
| BestFit.AreBetterMatches | sr/comp/cli/import_schedule.py:166-185 | the loop over the present numbers of empty places, largest first, answers true exactly when some number has fewer bad games in the candidate |
| BestFit.BetterIsIrreflexive | sr/comp/cli/import_schedule.py:166-185 | no list of bad games is better than itself |
| BestFit.BetterIsNotAsymmetric | sr/comp/cli/import_schedule.py:178-183 | two candidates can each be better than the other, so the comparison is not an order |
| BestFit.Champion | sr/comp/cli/import_schedule.py:197-198 | no later candidate is better than the one kept |
| BestFit.ChampionWasBetter | sr/comp/cli/import_schedule.py:197-198 | the candidate kept, unless it is the first, was better than some earlier candidate |
| BestFit.Candidates | sr/comp/cli/import_schedule.py:190-191 | candidate `i` is the matches built from map `i` |
| BestFit.KeepBetter | sr/comp/cli/import_schedule.py:197-198 | the new candidate replaces the kept one exactly when it is better |
| BestFit.SearchCandidates | sr/comp/cli/import_schedule.py:189-202 | the search returns the first candidate without bad games, or else the one the replacement rule keeps |
| BestFit.ChosenIsUnbeatenLater | sr/comp/cli/import_schedule.py:188-202 | when every candidate has bad games, no later candidate beats the one returned |
| BestFit.GetBestFit | sr/comp/cli/import_schedule.py:188-202 | an error from the maps or the match sizes is passed on; otherwise the result is the candidate the search chooses |
| BestFit.BuildSchedule | sr/comp/cli/import_schedule.py:248-265 | duplicate ids fail the load; any ids to ignore reach the undefined `args`; too few ids fail the sanity check; it succeeds exactly when nothing is ignored, zero to three ids are spare and every match has a good size, and then returns the candidate `get_best_fit` chooses among the matches built from the loaded ids |
| BestFit.KeptIds | sr/comp/cli/import_schedule.py:252-254 | an empty string of ids to ignore keeps every id; a failure names an id that was to be ignored |
| BestFit.KeptIdsAreTheOthers | sr/comp/cli/import_schedule.py:252-254 | ignoring succeeds exactly when the named ids are distinct and all loaded, and then keeps every other id in order |
| BestFit.BuildScheduleIntended | sr/comp/cli/import_schedule.py:248-265 | the ids to ignore are removed before the count check and the search; it succeeds exactly when the load and the removal succeed, zero to three of the remaining ids are spare and the match sizes are good |
| AddDelay.TakeUnit | sr/comp/cli/add_delay.py:11 | one optional group of the pattern captures digits followed by its unit, or captures nothing and consumes nothing |
| AddDelay.MatchBody | sr/comp/cli/add_delay.py:11 | whatever the pattern reads is a rendering of the fields it captured |
| AddDelay.MatchPatternExact | sr/comp/cli/add_delay.py:11 | the pattern accepts exactly the renderings `<h>hr<m>m<s>s`, with any group missing and at most a final newline |
| AddDelay.DigitsAreNotRendered | sr/comp/cli/add_delay.py:19-21 | a bare run of digits never matches the pattern, so it reaches the digit branch |
| AddDelay.ParseDuration | sr/comp/cli/add_delay.py:18-31 | a failure is either the bad-duration error for the input or a `timedelta` overflow; a result is at most the largest `timedelta` |
| AddDelay.ParseRendered | sr/comp/cli/add_delay.py:26-31 | a matched duration is hours·3600 + minutes·60 + seconds |
| AddDelay.ParseDigits | sr/comp/cli/add_delay.py:20-25 | a run of digits is that many seconds |
| AddDelay.ParseRejects | sr/comp/cli/add_delay.py:19-22 | anything that neither matches nor is all digits is a bad duration |
| AddDelay.ParseAccepts | sr/comp/cli/add_delay.py:18-31 | every parsed duration comes from one of the two readings, and a bad duration has neither |
| AddDelay.ParseOneMinuteExample | tests/test_add_delay.py:21 | "1m" is sixty seconds |
| AddDelay.ParseOneSecondExample | tests/test_add_delay.py:22 | "1s" is one second |
| AddDelay.ParseBareSecondsExample | tests/test_add_delay.py:23 | "42" is 42 seconds |
| AddDelay.ParseFortyTwoSecondsExample | tests/test_add_delay.py:24 | "42s" is 42 seconds |
| AddDelay.ParseOneHourExample | tests/test_add_delay.py:25 | "1hr" is 3600 seconds |
| AddDelay.ParseBadExamples | tests/test_add_delay.py:6-13 | "nope", "now" and "5dd" are bad durations |
| AddDelay.ParseEmptyExample | sr/comp/cli/add_delay.py:11 | the empty string matches with every group absent and is zero seconds |
| AddDelay.ParseTrailingNewlineExample | sr/comp/cli/add_delay.py:11 | the `$` of the pattern lets "2m" followed by a newline through |
| AddDelay.AddDelayEntry | sr/comp/cli/add_delay.py:42-50 | the entry is appended after the existing delays, and every other key is unchanged; a missing or false list is replaced by an empty one; a true value that is not a list fails |
| AddDelay.AddTwoDelays | sr/comp/cli/add_delay.py:42-50 | two delays added in turn are listed in that order after the earlier ones |
| AddDelay.WithinDay | sr/comp/cli/add_delay.py:57 | `timedelta.seconds` is below a day and differs from the total by whole days |
| AddDelay.Command | sr/comp/cli/add_delay.py:52-66 | the command fails exactly when the duration does not parse, passing that error on, or `delays` holds a true value that is not a list; otherwise the delays are the earlier ones followed by one entry of the duration's within-day seconds at `when` with its microseconds dropped, and every other key is unchanged |
| AddDelay.CommandDropsWholeDays | sr/comp/cli/add_delay.py:56-57 | "25hr" is recorded as a delay of 3600 seconds |
| AddDelay.CommandWholeDayIsNoDelay | sr/comp/cli/add_delay.py:56-57 | "86400" is recorded as a delay of 0 seconds |
| AddDelay.CommandIntended | sr/comp/cli/add_delay.py:56-62 | it fails exactly as the command as written does; otherwise the delay recorded is the whole parsed duration, appended after the existing delays, with every other key unchanged |
| AddDelay.CommandIntendedKeepsWholeDays | sr/comp/cli/add_delay.py:56-62 | "25hr" is recorded as 90000 seconds |
| AddDelay.CommandAgreesWithinDay | sr/comp/cli/add_delay.py:56-57 | below a day, the command as written and as intended record the same thing |
| UpdateLayout.RemainderIsSlice | sr/comp/cli/update_layout.py:19-21 | the remainder is the list from the cursor's position to its end, and empty once the position is past the end |
| UpdateLayout.Take | sr/comp/cli/update_layout.py:23-26 | a take advances the position by `n` even past the end, and hands out `n` elements, or fewer at the end |
| UpdateLayout.TakeThenRemainder | sr/comp/cli/update_layout.py:19-26 | what a take hands out, followed by the new remainder, is the old remainder |
| UpdateLayout.TakesPartition | sr/comp/cli/update_layout.py:10-26 | from a fresh cursor, successive takes and the final remainder partition the list |
| UpdateLayout.TakeableExamples | tests/test_takeable.py:24-95 | the cursor behaves as the test-suite checks on "abcd" for takes of 0, 2, 3 and 5 elements |
| UpdateLayout.ParseTeamsList | sr/comp/cli/update_layout.py:38-43 | the teams list is the file tidied as the schedule import tidies it |
| UpdateLayout.TeamOfLine | sr/comp/cli/update_layout.py:41 | splitting on the first '#' and stripping is the schedule import's tidying of a line |
| UpdateLayout.DealPlaces | sr/comp/cli/update_layout.py:47-51 | each place, in order, receives the next share of the list as long as it had teams, and the cursor ends after all the shares |
| UpdateLayout.ShareSize | sr/comp/cli/update_layout.py:47-51 | a place receives as many teams as it had, or what is left of the list |
| UpdateLayout.GrowLast | sr/comp/cli/update_layout.py:53-54 | only the last place changes, gaining the extra teams at its end |
| UpdateLayout.Regroup | sr/comp/cli/update_layout.py:45-54 | every place keeps its name; each place but the last gets its share; the last also gets whatever is left; all the places together hold the list in order; left-over teams with no place fail |
| UpdateLayout.Command | sr/comp/cli/update_layout.py:2-58 | the places keep their names; each place but the last gets the next share of the tidied teams list the size it had; the last place also gets the teams left over; together they hold the tidied list in order; it fails exactly when there are teams but no place |
| CompetitionState.FirstNotOver | sr/comp/cli/lighting_controller.py:44-52 | the first match whose game has not ended, every earlier one having ended; none exactly when all have ended |
| CompetitionState.NextMatchScan | sr/comp/cli/lighting_controller.py:44-52 | the nested loop over slots and matches returns the first match, in slot order, whose game has not ended |
| CompetitionState.FoundInSlot | sr/comp/cli/lighting_controller.py:48-51 | a match found in a slot, with every earlier match over, is the next match |
| CompetitionState.NextMatchNotOver | sr/comp/cli/lighting_controller.py:44-52 | the next match's game has not ended |
| CompetitionState.CurrentState | sr/comp/cli/lighting_controller.py:67-89 | the match state lasts until ten seconds before game end; match-ending lasts until game end; pre-match holds only within five seconds before its deadline; idle with no match ahead lasts a hundred days |
| CompetitionState.InGameIsMatch | sr/comp/cli/lighting_controller.py:71-77 | during the current match's game, the state is match until ten seconds before its end and match-ending after that |
| CompetitionState.OutsideGame | sr/comp/cli/lighting_controller.py:79-89 | outside a game, the state is pre-match within five seconds of the next match's game start, idle until then otherwise, and idle for a hundred days when there is no next match |
| CompetitionState.DeadlineNotPast | sr/comp/cli/lighting_controller.py:67-89 | when the schedule reports the next match as under way whenever its game is on, the next wake-up is never in the past |
| CompetitionState.DeadlineCanBePast | sr/comp/cli/lighting_controller.py:79-89 | when the schedule reports no match under way during a game, the state is idle with a deadline already passed |
| CompetitionState.Transitions | sr/comp/cli/lighting_controller.py:91-97 | the generator yields each observed state and deadline; the first has no previous state, and each later one names the state before it |
| CompetitionState.TransitionsChain | sr/comp/cli/lighting_controller.py:91-97 | every step after the first carries the previous step's state |
| LightingController.StateOfTrack | sr/comp/cli/lighting_controller.py:115-120 | the playback table is inverted exactly on the four playback numbers |
| LightingController.TrackInjective | sr/comp/cli/lighting_controller.py:115-120 | distinct states have distinct playbacks |
| LightingController.Transition | sr/comp/cli/lighting_controller.py:138-144 | a transition stops the playback started last, if any, then starts the new state's playback at full velocity, and remembers it |
| LightingController.TransitionKeepsBelief | sr/comp/cli/lighting_controller.py:138-144 | when the desk runs what the controller remembers, after a transition it runs exactly the new state's playback |
| LightingController.ReplayRunsOne | sr/comp/cli/lighting_controller.py:108-110 | after any number of transitions, exactly the latest state's playback is running, and the controller remembers it |
| MidiShowControl.Run | sr/comp/cli/midi_show_control_interface.py:127-136 | the messages are the first state's start, then for each later state a stop of the previous playback followed by a start of the new one |
| MidiShowControl.RunRunsOne | sr/comp/cli/midi_show_control_interface.py:127-136 | after the loop, exactly the latest state's playback is running |

## Left out

- Process exit, printing and formatting: `print`, `print_fail`, the ANSI colours and message texts (`sr/comp/cli/deploy.py:13-46`). Exits are modelled as exit codes, and which streams are shown as a set.
- Network and processes: SSH (`paramiko`), `urlopen` of the host's state API, and `git` push and fetch. Their outcomes are inputs: the probed state, push success, fetch success, the remote exit status, and history oracles before and after a fetch. Fetch success is one flag per host, covering both fetches at `sr/comp/cli/deploy.py:168-169`.
- Validation of the state (`validate`) and `compstate.load()`: modelled as an error count and a loads flag.
- The YAML and file handling of every command (`rtyaml.load`/`dump`, `dump_league_yaml`, `open`, `os.path`): schedules, layouts and files are Dafny values.
- `import-schedule`'s `command`: argument handling, the file reads and the dump. Its steps are modelled separately (`Tidy`, `OrderTeamsByLayout`, `BuildSchedule`).
- `load_teams_areans`: it reads the team and arena ids from the competition state. They are inputs here; the arena ids are taken to be distinct, as the keys of a map are.
- The random branch of `order_teams` (`sr/comp/cli/import_schedule.py:215-220`): it shuffles with a seeded generator from another package.
- `parse_time` (`timelib`, `tzlocal`): the parsed moment is an input to `AddDelay.Command`.
- Time and sleeping: `datetime_now`, `wait_until` and `time.sleep` in the lighting controllers. Times are whole seconds, and each wake-up is one observed state and deadline.
- `matches_at`: the schedule's lookup of the current match is an input to `CompetitionState.CurrentState`.
- The `transition()` generator runs forever. The model takes its first `n` values.
- MIDI output (`mido`): messages are a sequence of note-on values. `MidiLightingController.note_on` (`sr/comp/cli/lighting_controller.py:129`) uses `mido`, which that module imports only inside `command`, so as written it raises `NameError` on the first message. The model sends the message as intended.
- The dry-run `LightingController` of `sr/comp/cli/lighting_controller.py:100-106` sends nothing, so there is nothing to model beyond the state machine.
- `command` of `sr/comp/cli/midi_show_control_interface.py:144-152` reads `args.output`, which its argument parser never defines. Only the controller's loop is modelled.
- Strings are ASCII: `lower`, `upper`, `strip` and `isdigit` use ASCII rules. Python applies Unicode rules.
- `BestFit.SearchCandidates` builds every candidate's matches before its loop. The source builds them lazily, but building is pure and cannot fail once the match sizes pass, so the result is the same.
- `Deploy.QueryBoolWithoutDefault`: its contract says the answer comes from one response in the input and is yes exactly for 'y'. Which responses are skipped is stated by `Deploy.QueryWithoutDefault`, and `deploy.py` never calls `query_bool` without a default.
- `ImportSchedule.Tidy`: its own contract only bounds its length. What each kept line is, and the composition laws, are stated by `TidyClean`, `TidySnoc`, `TidyAppend` and `TidyIdempotent`.
- CompetitionState.CurrentState: the state is computed from one clock reading. The source reads the clock again at each comparison (`sr/comp/cli/lighting_controller.py:38`, 47, 65, 74 and 76). If a game's end passes between the readings at lines 65 and 76, the source falls through to the next-match branch and reports pre-match or idle. The model, and so `CompetitionState.InGameIsMatch`, does not show that race.
- `chunks_of_size`'s assertion cannot fail from `build_matches`, which checks the same divisibility first. The error is kept in `ChunksOfSize` for direct callers.

## Findings

| source | as written | input that shows it | evidently intended | confidence | as-written member | corrected member |
|---|---|---|---|---|---|---|
| sr/comp/cli/add_delay.py:57 | the delay stored is `how_long.seconds`, the seconds within the last day of the duration | `add-delay <state> 25hr` stores a delay of 3600 seconds, and `86400` stores 0 | store the whole duration, `how_long.total_seconds()`, as the help text "how long to delay the competition for" describes | medium, not executed | AddDelay.CommandDropsWholeDays | AddDelay.CommandIntended |
| sr/comp/cli/import_schedule.py:254 | `build_schedule` reads `args.ignore_ids`, but `args` is not defined in that function | any non-empty ids to ignore raise `NameError` (`BestFit.BuildSchedule` returns `UndefinedArgs`) | remove the ids given in the `ids_to_ignore` parameter: `ignore_ids(ids, ids_to_ignore.split(','))` | high, not executed | BestFit.BuildSchedule | BestFit.BuildScheduleIntended |
