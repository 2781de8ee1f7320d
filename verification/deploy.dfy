/**
 * The `deploy` command: operator prompts, the per-host decision whether to
 * skip or update a host, the push/apply transport and the fail-fast walk
 * over the deployment list.
 *
 * Everything the command learns from the outside world is an input here:
 * the operator's typed responses (a sequence; running out of them is
 * Python's `EOFError`), the probed host state, the version-history oracles
 * before and after a fetch, whether the push succeeds and the exit status of
 * the remote `./update` script.
 */
module Deploy {
  import opened Wrappers
  import opened Text
  import opened Seqs

  const DeployUser: string := "srcomp"

  /** Why a prompt, or the host check around it, could not be resolved. */
  datatype PromptError =
    | EndOfInput       // `input()` reached the end of its input
    | AssertionFailed  // the option list broke `query`'s assertions
    | FetchFailed      // a `git fetch` the operator allowed raised, uncaught

  /** The answer a prompt resolved to, and how many responses it read. */
  datatype Reply = Reply(answer: string, consumed: nat)

  /** Python's truthiness of the `default` argument. */
  predicate IsSet(default: Option<string>) {
    default.Some? && default.value != ""
  }

  /**
   * The options as displayed and matched: each option in place, the same
   * letters up to case; the default shown in capitals, and every other
   * option in the lower case a lowered reply is compared in.
   */
  function CaseMapOptions(options: seq<string>, default: Option<string>): (r: seq<string>)
    ensures |r| == |options|
    ensures forall i :: 0 <= i < |r| ==> Lower(r[i]) == Lower(options[i])
    ensures forall i :: 0 <= i < |r| ==> default == Some(options[i]) ==> Upper(r[i]) == r[i]
    ensures forall i :: 0 <= i < |r| ==> default != Some(options[i]) ==> Lower(r[i]) == r[i]
  {
    var r := seq(|options|, i requires 0 <= i < |options| =>
      if default == Some(options[i]) then Upper(options[i]) else Lower(options[i]));
    CaseMapped(options, default, r);
    r
  }

  /** Each case-mapped option keeps its letters and takes its display case. */
  lemma CaseMapped(options: seq<string>, default: Option<string>, r: seq<string>)
    requires |r| == |options|
    requires forall i :: 0 <= i < |options| ==>
      r[i] == if default == Some(options[i]) then Upper(options[i]) else Lower(options[i])
    ensures forall i :: 0 <= i < |r| ==> Lower(r[i]) == Lower(options[i])
    ensures forall i :: 0 <= i < |r| ==> default == Some(options[i]) ==> Upper(r[i]) == r[i]
    ensures forall i :: 0 <= i < |r| ==> default != Some(options[i]) ==> Lower(r[i]) == r[i]
  {
    forall i | 0 <= i < |r|
      ensures Lower(r[i]) == Lower(options[i])
      ensures default == Some(options[i]) ==> Upper(r[i]) == r[i]
      ensures default != Some(options[i]) ==> Lower(r[i]) == r[i]
    {
      LowerOfUpper(options[i]);
      UpperIdempotent(options[i]);
      LowerIdempotent(options[i]);
    }
  }

  /**
   * The read loop of `query`: read a response, lower-case it, return it when
   * it is one of the mapped options; otherwise return the default when there
   * is one, or read again.
   */
  function Ask(mapped: seq<string>, default: Option<string>, responses: seq<string>): (r: Result<Reply, PromptError>)
    ensures r.Success? ==> 1 <= r.value.consumed <= |responses|
    ensures r.Success? ==> forall j :: 0 <= j < r.value.consumed - 1 ==> Lower(responses[j]) !in mapped
    ensures r.Success? ==>
      var last := Lower(responses[r.value.consumed - 1]);
      (last in mapped && r.value.answer == last)
      || (last !in mapped && IsSet(default) && r.value.answer == default.value)
    ensures r.Success? && IsSet(default) ==> r.value.consumed == 1
    ensures r.Success? && !IsSet(default) ==>
      r.value.answer == Lower(responses[r.value.consumed - 1]) && r.value.answer in mapped
    ensures r.Failure? ==>
      && r.error == EndOfInput
      && (IsSet(default) ==> |responses| == 0)
      && forall j :: 0 <= j < |responses| ==> Lower(responses[j]) !in mapped
    decreases |responses|
  {
    if |responses| == 0 then Failure(EndOfInput)
    else
      var resp := Lower(responses[0]);
      if resp in mapped then Success(Reply(resp, 1))
      else if IsSet(default) then Success(Reply(default.value, 1))
      else
        match Ask(mapped, default, responses[1..])
        case Success(rest) => Success(Reply(rest.answer, rest.consumed + 1))
        case Failure(e) => Failure(e)
  }

  /** `query(question, options, default)`, the question text left out. */
  function Query(options: seq<string>, default: Option<string>, responses: seq<string>): (r: Result<Reply, PromptError>)
  {
    if IsSet(default) && default.value !in options then Failure(AssertionFailed)
    else
      var mapped := CaseMapOptions(options, default);
      if !Distinct(mapped) then Failure(AssertionFailed)
      else Ask(mapped, default, responses)
  }

  /**
   * `query` fails its assertions exactly when a set default is not among
   * the options or two options look the same once case-mapped; reading
   * never produces that error.
   */
  lemma QueryAssertions(options: seq<string>, default: Option<string>, responses: seq<string>)
    ensures Query(options, default, responses) == Failure(AssertionFailed)
      <==> (IsSet(default) && default.value !in options) || !Distinct(CaseMapOptions(options, default))
  {
  }

  /**
   * With a default, `query` reads exactly one response and answers it
   * lower-cased when it matches an option other than the default, and
   * answers the default otherwise, the default's own letter included.
   */
  lemma QueryWithDefault(options: seq<string>, d: string, responses: seq<string>)
    requires d != "" && d in options && Distinct(CaseMapOptions(options, Some(d)))
    requires |responses| >= 1
    ensures Query(options, Some(d), responses) == Success(Reply(
      if exists o :: o in options && o != d && Lower(o) == Lower(responses[0])
      then Lower(responses[0]) else d, 1))
  {
    var mapped := CaseMapOptions(options, Some(d));
    var resp := Lower(responses[0]);
    if resp in mapped {
      var i :| 0 <= i < |mapped| && mapped[i] == resp;
      if options[i] == d {
        LowerMeetsUpper(responses[0], d);
      } else {
        assert options[i] in options && options[i] != d && Lower(options[i]) == resp;
      }
    } else {
      forall o | o in options && o != d
        ensures Lower(o) != resp
      {
        var i :| 0 <= i < |options| && options[i] == o;
        assert mapped[i] == Lower(o);
      }
    }
  }

  /**
   * Without a default, `query` answers the first response whose lower-case
   * form is the lower-case form of an option, having read every response up
   * to it, and runs out of input when there is no such response.
   */
  lemma QueryWithoutDefault(options: seq<string>, responses: seq<string>)
    requires Distinct(CaseMapOptions(options, None))
    ensures var r := Query(options, None, responses);
      && (r.Success? <==> exists j :: 0 <= j < |responses| && Lower(responses[j]) in CaseMapOptions(options, None))
      && (r.Success? ==>
            && (exists o :: o in options && Lower(o) == r.value.answer)
            && r.value.answer == Lower(responses[r.value.consumed - 1])
            && forall j :: 0 <= j < r.value.consumed - 1 ==>
                 forall o :: o in options ==> Lower(o) != Lower(responses[j]))
  {
    var mapped := CaseMapOptions(options, None);
    var r := Query(options, None, responses);
    assert r == Ask(mapped, None, responses);
    forall o | o in options
      ensures Lower(o) in mapped
    {
      var i :| 0 <= i < |options| && options[i] == o;
      assert mapped[i] == Lower(o);
    }
    if r.Success? {
      var k := r.value.consumed - 1;
      assert 0 <= k < |responses| && Lower(responses[k]) in mapped;
      var i :| 0 <= i < |mapped| && mapped[i] == r.value.answer;
      assert options[i] in options && Lower(options[i]) == r.value.answer;
    }
  }

  /** `query`'s own tests, as lemmas: a default answers a reply that is no option ... */
  lemma QueryDefaultExample()
    ensures Query(["a"], Some("a"), ["nope"]) == Success(Reply("a", 1))
  {
    QueryWithDefault(["a"], "a", ["nope"]);
    assert Lower("a") == "a";
  }

  /** ... an option other than the default is answered as itself ... */
  lemma QueryOtherOptionExample()
    ensures Query(["a", "b"], Some("b"), ["a"]) == Success(Reply("a", 1))
  {
    assert Lower("a") == "a";
    assert Lower("b") == "b";
    QueryWithDefault(["a", "b"], "b", ["a"]);
    assert ["a", "b"][0] == "a";
  }

  /** ... and without a default, replies that are no option are skipped. */
  lemma QueryRetryExample()
    ensures Query(["a", "b"], None, ["nope", "a"]) == Success(Reply("a", 2))
  {
    assert Lower("a") == "a";
    assert Lower("b") == "b";
    assert Lower("nope") == "nope";
    assert CaseMapOptions(["a", "b"], None) == ["a", "b"];
  }

  /** A yes/no answer and how many responses it read. */
  datatype BoolReply = BoolReply(yes: bool, consumed: nat)

  /** The default letter `query_bool` passes on for a default of True, False or None. */
  function DefaultLetter(defaultVal: Option<bool>): Option<string>
  {
    match defaultVal
    case Some(b) => Some(if b then "y" else "n")
    case None => None
  }

  /** The options `query_bool` matches against, the default's letter upper-cased. */
  function BoolOptions(defaultVal: Option<bool>): seq<string> {
    match defaultVal
    case Some(true) => ["Y", "n"]
    case Some(false) => ["y", "N"]
    case None => ["y", "n"]
  }

  /** `query_bool`'s options pass `query`'s checks. */
  lemma BoolQueryAsks(defaultVal: Option<bool>, responses: seq<string>)
    ensures Query(["y", "n"], DefaultLetter(defaultVal), responses)
              == Ask(BoolOptions(defaultVal), DefaultLetter(defaultVal), responses)
  {
    assert Lower("y") == "y" && Lower("n") == "n" && Upper("y") == "Y" && Upper("n") == "N";
    assert CaseMapOptions(["y", "n"], DefaultLetter(defaultVal)) == BoolOptions(defaultVal);
  }

  /** No lower-cased reply is an upper-case letter. */
  lemma LowerIsNeverUpper(x: string)
    ensures Lower(x) != "Y" && Lower(x) != "N"
  {
    if |x| == 1 {
      assert Lower(x)[0] == LowerChar(x[0]);
    }
  }

  /** The yes/no reading of a `query` reply: true exactly for 'y'. */
  function BoolReplyOf(q: Result<Reply, PromptError>): Result<BoolReply, PromptError> {
    match q
    case Success(reply) => Success(BoolReply(reply.answer == "y", reply.consumed))
    case Failure(e) => Failure(e)
  }

  /** `query_bool` with a default: one response decides, and only the other letter overrides the default. */
  function QueryBoolWithDefault(b: bool, responses: seq<string>): (r: Result<BoolReply, PromptError>)
    ensures r.Success? <==> |responses| >= 1
    ensures r.Success? ==>
      && r.value.consumed == 1
      && r.value.yes == if b then Lower(responses[0]) != "n" else Lower(responses[0]) == "y"
    ensures r.Failure? ==> r.error == EndOfInput
  {
    BoolQueryAsks(Some(b), responses);
    LowerIsNeverUpper(if |responses| > 0 then responses[0] else "");
    BoolReplyOf(Query(["y", "n"], DefaultLetter(Some(b)), responses))
  }


  /**
   * `query_bool` without a default: the first response that is 'y' or 'n'
   * in any case decides (see `QueryWithoutDefault` for which responses are
   * read), and the answer is yes exactly when it is 'y'.
   */
  function QueryBoolWithoutDefault(responses: seq<string>): (r: Result<BoolReply, PromptError>)
    ensures r.Failure? ==> r.error == EndOfInput
    ensures r.Success? ==>
      && 1 <= r.value.consumed <= |responses|
      && (r.value.yes <==> Lower(responses[r.value.consumed - 1]) == "y")
  {
    BoolQueryAsks(None, responses);
    BoolReplyOf(Query(["y", "n"], DefaultLetter(None), responses))
  }

  /**
   * `query_bool(question, default_val)`: a 'y'/'n' query answering true
   * exactly when it resolves to 'y'.
   */
  function QueryBool(defaultVal: Option<bool>, responses: seq<string>): (r: Result<BoolReply, PromptError>)
    ensures defaultVal.Some? ==> r == QueryBoolWithDefault(defaultVal.value, responses)
    ensures defaultVal.None? ==> r == QueryBoolWithoutDefault(responses)
  {
    match defaultVal
    case Some(b) => QueryBoolWithDefault(b, responses)
    case None => QueryBoolWithoutDefault(responses)
  }

  /**
   * `query_warn(msg)`: a yes/no question defaulting to no; anything but
   * 'y' ends the command with status 1, reported here as `yes == false`.
   */
  function QueryWarn(responses: seq<string>): (r: Result<BoolReply, PromptError>)
    ensures r.Success? <==> |responses| >= 1
    ensures r.Success? ==> r.value.consumed == 1 && (r.value.yes <==> Lower(responses[0]) == "y")
  {
    QueryBool(Some(false), responses)
  }

  /** `ref_compstate(host)`: the state repository's push URL on `host`. */
  function RefCompstate(host: string): string
  {
    "ssh://" + DeployUser + "@" + host + "/~/compstate.git"
  }

  const UrlPrefix: string := "ssh://srcomp@"
  const UrlSuffix: string := "/~/compstate.git"

  /** Recovers the host from a push URL. */
  function HostOfUrl(url: string): string
    requires |url| >= |UrlPrefix| + |UrlSuffix|
  {
    url[|UrlPrefix|..|url| - |UrlSuffix|]
  }

  /** The push URL names its host: two hosts never share a URL. */
  lemma HostOfRefCompstate(host: string)
    ensures |RefCompstate(host)| >= |UrlPrefix| + |UrlSuffix|
    ensures RefCompstate(host)[..|UrlPrefix|] == UrlPrefix
    ensures HostOfUrl(RefCompstate(host)) == host
  {
    assert RefCompstate(host) == UrlPrefix + host + UrlSuffix;
  }

  const BranchPrefix: string := ":refs/heads/deploy-"

  /**
   * The push refspec: the revision itself, to a branch named after it, so
   * that repeating a push of the same revision names the same branch.
   */
  function Refspec(revision: string): string
  {
    revision + BranchPrefix + revision
  }

  /** Two refspecs are equal only when their revisions are. */
  lemma RefspecInjective(r1: string, r2: string)
    requires Refspec(r1) == Refspec(r2)
    ensures r1 == r2
  {
    assert |r1| == |r2|;
    assert r1 == Refspec(r1)[..|r1|];
    assert r2 == Refspec(r2)[..|r2|];
  }

  /** The source revision of a refspec: the text before its ':'. */
  function SourceOfRefspec(spec: string): string
  {
    var i := Find(spec, ':');
    if i < 0 then spec else spec[..i]
  }

  /** For a revision without ':' (a hex digest), the refspec's source is that revision. */
  lemma SourceOfRefspecRoundTrip(revision: string)
    requires ':' !in revision
    ensures SourceOfRefspec(Refspec(revision)) == revision
    ensures Refspec(revision)[|revision| + 1..] == "refs/heads/deploy-" + revision
  {
    var spec := Refspec(revision);
    assert spec == revision + (BranchPrefix + revision);
    FindAfter(revision, BranchPrefix + revision, ':');
    assert spec[..|revision|] == revision;
    assert spec[|revision| + 1..] == BranchPrefix[1..] + revision;
  }

  /** The remote command run over SSH. */
  function RemoteCommand(revision: string): string
  {
    "./update '" + revision + "'"
  }

  datatype Stream = Stdout | Stderr

  /** What `deploy_to` did for one host. */
  datatype DeployStep =
    | PushFailed(url: string, refspec: string)
    | Applied(url: string, refspec: string, command: string, exitCode: int, shown: seq<Stream>)

  /** The status `deploy_to` ends with: 1 for a failed push, else the remote exit status. */
  function ExitStatus(step: DeployStep): int
  {
    match step
    case PushFailed(_, _) => 1
    case Applied(_, _, _, code, _) => code
  }

  /**
   * `deploy_to`: push the revision to the host's repository, then run the
   * remote update and report its exit status. A failed push stops the whole
   * command with status 1 before the remote step is contacted.
   */
  function DeployTo(host: string, revision: string, verbose: bool, pushOk: bool, remoteExit: int): (r: DeployStep)
    ensures r.url == RefCompstate(host) && r.refspec == Refspec(revision)
    ensures r.Applied? <==> pushOk
    ensures r.PushFailed? ==> ExitStatus(r) == 1
    ensures r.Applied? ==> r.command == RemoteCommand(revision) && ExitStatus(r) == remoteExit
    ensures r.Applied? ==> (Stdout in r.shown <==> verbose || remoteExit != 0)
    ensures r.Applied? ==> Stderr in r.shown
  {
    var url := RefCompstate(host);
    var spec := Refspec(revision);
    if !pushOk then PushFailed(url, spec)
    else
      var shown := (if verbose || remoteExit != 0 then [Stdout] else []) + [Stderr];
      Applied(url, spec, RemoteCommand(revision), remoteExit, shown)
  }

  /** Pushing the same revision to the same host twice names the same target and branch. */
  lemma PushIsDeterministic(host: string, revision: string, v1: bool, v2: bool, e1: int, e2: int)
    ensures DeployTo(host, revision, v1, true, e1).url == DeployTo(host, revision, v2, true, e2).url
    ensures DeployTo(host, revision, v1, true, e1).refspec == DeployTo(host, revision, v2, true, e2).refspec
  {
  }

  /** The version-history queries `check_host_state` makes, as oracles. */
  datatype History = History(
    hasAncestor: string -> bool,
    hasCommit: string -> bool,
    hasDescendant: string -> bool)

  /** The questions `check_host_state` can put to the operator. */
  datatype Prompt =
    | NoStatePrompt     // "Failed to get state ... Deploy anyway?"
    | FetchPrompt       // "Host has unknown state. Try to fetch it?"
    | MoreRecentPrompt  // "Host has more recent state. Deploy anyway?"
    | SiblingPrompt     // "Host has sibling state. Deploy anyway?"
    | UnknownPrompt     // "Host has unknown state. Deploy anyway?"

  /**
   * The verdict for one host. `skip` is the source's return value, where
   * SKIP is True and UPDATE is False. `prompts` are the questions asked, in
   * order, each reading one response; `fetches` are the remotes fetched.
   */
  datatype HostCheck = HostCheck(skip: bool, prompts: seq<Prompt>, fetches: seq<string>)

  /** One "Deploy anyway?" question defaulting to yes: a yes means UPDATE, a no means SKIP. */
  function Confirm(p: Prompt, earlier: seq<Prompt>, fetches: seq<string>, responses: seq<string>): (r: Result<HostCheck, PromptError>)
    ensures r.Success? <==> |responses| >= 1
    ensures r.Success? ==>
      r.value == HostCheck(Lower(responses[0]) == "n", earlier + [p], fetches)
  {
    var a :- QueryBool(Some(true), responses);
    Success(HostCheck(!a.yes, earlier + [p], fetches))
  }

  /** The questions after the optional fetch; the ancestor test is not repeated. */
  function Classify(state: string, h: History, earlier: seq<Prompt>, fetches: seq<string>, responses: seq<string>): (r: Result<HostCheck, PromptError>)
    ensures r.Success? <==> |responses| >= 1
    ensures r.Success? ==>
      r.value == HostCheck(Lower(responses[0]) == "n", earlier + [FinalPrompt(state, h)], fetches)
    ensures FinalPrompt(state, h) != FetchPrompt
  {
    if h.hasDescendant(state) then Confirm(MoreRecentPrompt, earlier, fetches, responses)
    else if h.hasCommit(state) then Confirm(SiblingPrompt, earlier, fetches, responses)
    else Confirm(UnknownPrompt, earlier, fetches, responses)
  }

  /** The probed state is missing: `None`, or falsy as the empty string is. */
  predicate NoState(probe: Option<string>) {
    probe.None? || probe.value == ""
  }

  /** The host reports a state the target's history does not know: the fetch is offered. */
  predicate OffersFetch(probe: Option<string>, revision: string, before: History) {
    !NoState(probe) && probe.value != revision
    && !before.hasAncestor(probe.value) && !before.hasCommit(probe.value)
  }

  /**
   * `check_host_state`: decides whether to skip the host. `before` answers
   * the history queries as they stand; `afterFetch` answers them once the
   * operator has let the command fetch from `origin` and from the host, and
   * `fetchOk` says whether those two fetches succeed. A failing fetch is
   * not caught, so it ends the whole command.
   */
  function CheckHostState(host: string, probe: Option<string>, revision: string,
                          before: History, afterFetch: History, fetchOk: bool,
                          responses: seq<string>): (r: Result<HostCheck, PromptError>)
    ensures r.Failure? ==> r.error == EndOfInput || r.error == FetchFailed
    ensures r == Failure(FetchFailed) <==>
      OffersFetch(probe, revision, before) && |responses| >= 1 && Lower(responses[0]) != "n" && !fetchOk
    ensures r.Success? ==> |r.value.prompts| <= 2 && |r.value.prompts| <= |responses|
    ensures r.Success? && |r.value.prompts| > 0 ==>
      (r.value.skip <==> Lower(responses[|r.value.prompts| - 1]) == "n")
    ensures r.Success? ==>
      (r.value.fetches != [] <==>
         |r.value.prompts| > 0 && r.value.prompts[0] == FetchPrompt && Lower(responses[0]) != "n")
    ensures r.Success? && r.value.fetches != [] ==> r.value.fetches == ["origin", RefCompstate(host)]
    ensures r.Success? && |r.value.prompts| == 2 ==> r.value.prompts[0] == FetchPrompt
    ensures r.Success? ==> forall i :: 0 < i < |r.value.prompts| ==> r.value.prompts[i] != FetchPrompt
  {
    if NoState(probe) then Confirm(NoStatePrompt, [], [], responses)
    else
      var state := probe.value;
      if state == revision then Success(HostCheck(true, [], []))
      else if before.hasAncestor(state) then Success(HostCheck(false, [], []))
      else if !before.hasCommit(state) then
        var a :- QueryBool(Some(true), responses);
        if a.yes && !fetchOk then Failure(FetchFailed)
        else
          var fetches := if a.yes then ["origin", RefCompstate(host)] else [];
          Classify(state, if a.yes then afterFetch else before, [FetchPrompt], fetches, responses[1..])
      else Classify(state, before, [], [], responses)
  }

  /** No usable state: exactly one question, defaulting to UPDATE. */
  lemma MissingStateAsksOnce(host: string, probe: Option<string>, revision: string,
                             before: History, afterFetch: History, fetchOk: bool, responses: seq<string>)
    requires NoState(probe) && |responses| >= 1
    ensures CheckHostState(host, probe, revision, before, afterFetch, fetchOk, responses)
      == Success(HostCheck(Lower(responses[0]) == "n", [NoStatePrompt], []))
  {
    assert [] + [NoStatePrompt] == [NoStatePrompt];
  }

  /** The host already runs the target revision: SKIP without a question. */
  lemma CurrentHostIsSkipped(host: string, revision: string,
                             before: History, afterFetch: History, fetchOk: bool, responses: seq<string>)
    requires revision != ""
    ensures CheckHostState(host, Some(revision), revision, before, afterFetch, fetchOk, responses)
      == Success(HostCheck(true, [], []))
  {
  }

  /** The host's state is an ancestor of the target: UPDATE without a question. */
  lemma AncestorIsUpdated(host: string, state: string, revision: string,
                          before: History, afterFetch: History, fetchOk: bool, responses: seq<string>)
    requires state != "" && state != revision && before.hasAncestor(state)
    ensures CheckHostState(host, Some(state), revision, before, afterFetch, fetchOk, responses)
      == Success(HostCheck(false, [], []))
  {
  }

  /** The question asked after any fetch, given the history it is asked against. */
  function FinalPrompt(state: string, h: History): Prompt
  {
    if h.hasDescendant(state) then MoreRecentPrompt
    else if h.hasCommit(state) then SiblingPrompt
    else UnknownPrompt
  }

  /**
   * An unknown commit: first "Try to fetch it?", then one question chosen
   * from the history as it stands after the fetch (or before, when the
   * fetch was declined); the second answer decides, defaulting to UPDATE.
   * When the accepted fetch fails, the check ends there with that error.
   */
  lemma UnknownCommitPath(host: string, state: string, revision: string,
                          before: History, afterFetch: History, fetchOk: bool, responses: seq<string>)
    requires state != "" && state != revision
    requires !before.hasAncestor(state) && !before.hasCommit(state)
    requires |responses| >= 2
    ensures var accepted := Lower(responses[0]) != "n";
      accepted && !fetchOk ==>
        CheckHostState(host, Some(state), revision, before, afterFetch, fetchOk, responses) == Failure(FetchFailed)
    ensures var accepted := Lower(responses[0]) != "n";
      var h := if accepted then afterFetch else before;
      (fetchOk || !accepted) ==>
      CheckHostState(host, Some(state), revision, before, afterFetch, fetchOk, responses)
        == Success(HostCheck(Lower(responses[1]) == "n",
                             [FetchPrompt, FinalPrompt(state, h)],
                             if accepted then ["origin", RefCompstate(host)] else []))
  {
    assert responses[1..][0] == responses[1];
    assert [FetchPrompt] + [FinalPrompt(state, if Lower(responses[0]) != "n" then afterFetch else before)]
      == [FetchPrompt, FinalPrompt(state, if Lower(responses[0]) != "n" then afterFetch else before)];
  }

  /** A known commit that is not an ancestor: one question, no fetch. */
  lemma KnownCommitPath(host: string, state: string, revision: string,
                        before: History, afterFetch: History, fetchOk: bool, responses: seq<string>)
    requires state != "" && state != revision
    requires !before.hasAncestor(state) && before.hasCommit(state)
    requires |responses| >= 1
    ensures CheckHostState(host, Some(state), revision, before, afterFetch, fetchOk, responses)
      == Success(HostCheck(Lower(responses[0]) == "n", [FinalPrompt(state, before)], []))
  {
    assert [] + [FinalPrompt(state, before)] == [FinalPrompt(state, before)];
  }

  /**
   * As written, the ancestor test is not repeated after a fetch: a state
   * that the fetch reveals to be an ancestor of the target is put to the
   * operator as a sibling state instead of being updated silently.
   */
  lemma FetchedAncestorIsAskedAsSibling(host: string, state: string, revision: string,
                                        before: History, afterFetch: History, fetchOk: bool, responses: seq<string>)
    requires state != "" && state != revision
    requires !before.hasAncestor(state) && !before.hasCommit(state)
    requires afterFetch.hasAncestor(state) && afterFetch.hasCommit(state) && !afterFetch.hasDescendant(state)
    requires |responses| >= 2 && Lower(responses[0]) != "n" && fetchOk
    ensures var r := CheckHostState(host, Some(state), revision, before, afterFetch, fetchOk, responses);
      r.Success? && r.value.prompts == [FetchPrompt, SiblingPrompt]
  {
    UnknownCommitPath(host, state, revision, before, afterFetch, fetchOk, responses);
  }

  /** What the command knows about one host. */
  datatype HostEnv = HostEnv(
    probe: Option<string>,   // the state the host reports, if any
    before: History,         // history queries before a fetch
    afterFetch: History,     // history queries after fetching
    fetchOk: bool,           // whether fetching from `origin` and the host succeeds
    pushOk: bool,            // whether the push succeeds
    remoteExit: int)         // exit status of the remote update

  /** What happened to one host, in deployment order. */
  datatype HostOutcome =
    | Skipped(host: string, check: HostCheck)
    | Deployed(host: string, hostCheck: Option<HostCheck>, step: DeployStep)

  /** The end of a run: the exit status, the hosts reached, and whether "Done" was printed. */
  datatype RunResult = RunResult(exitCode: int, outcomes: seq<HostOutcome>, done: bool)

  /** A host outcome that did not stop the run. */
  predicate Succeeded(o: HostOutcome) {
    o.Skipped? || ExitStatus(o.step) == 0
  }

  /** The check an outcome records: `None` when host checks are off. */
  function CheckOf(o: HostOutcome): Option<HostCheck> {
    match o
    case Skipped(_, c) => Some(c)
    case Deployed(_, c, _) => c
  }

  /** How many responses the host checks recorded in `outs` read between them. */
  function Asked(outs: seq<HostOutcome>): nat {
    if |outs| == 0 then 0
    else (if CheckOf(outs[0]).Some? then |CheckOf(outs[0]).value.prompts| else 0) + Asked(outs[1..])
  }

  /**
   * A skipped host was skipped by its check; a deployed host was pushed to
   * with its own push and exit status, checked unless the check is off.
   */
  predicate Faithful(o: HostOutcome, skipHostCheck: bool, verbose: bool, revision: string, world: string -> HostEnv) {
    match o
    case Skipped(_, c) => !skipHostCheck && c.skip
    case Deployed(h, c, step) =>
      && step == DeployTo(h, revision, verbose, world(h).pushOk, world(h).remoteExit)
      && (c.None? <==> skipHostCheck)
      && (c.Some? ==> !c.value.skip)
  }

  /**
   * The check an outcome records is the verdict `check_host_state` gives for
   * its host on the responses `rest` that are still unread when its turn comes.
   */
  predicate CheckedOn(o: HostOutcome, revision: string, world: string -> HostEnv, rest: seq<string>) {
    var env := world(o.host);
    CheckOf(o).Some? ==>
      CheckHostState(o.host, env.probe, revision, env.before, env.afterFetch, env.fetchOk, rest) == Success(CheckOf(o).value)
  }

  /**
   * The host check unless `--skip-host-check`, with the responses it leaves
   * unread: those after the one response each question read.
   */
  function MaybeCheck(skipHostCheck: bool, host: string, env: HostEnv, revision: string, responses: seq<string>)
    : (r: Result<(Option<HostCheck>, seq<string>), PromptError>)
    ensures skipHostCheck ==> r == Success((None, responses))
    ensures !skipHostCheck ==>
      (r.Success? <==> CheckHostState(host, env.probe, revision, env.before, env.afterFetch, env.fetchOk, responses).Success?)
    ensures r.Failure? ==>
      !skipHostCheck
      && CheckHostState(host, env.probe, revision, env.before, env.afterFetch, env.fetchOk, responses) == Failure(r.error)
    ensures !skipHostCheck && r.Success? ==>
      && r.value.0 == Some(CheckHostState(host, env.probe, revision, env.before, env.afterFetch, env.fetchOk, responses).value)
      && |r.value.0.value.prompts| <= |responses|
      && responses == responses[..|r.value.0.value.prompts|] + r.value.1
  {
    if skipHostCheck then Success((None, responses))
    else
      var c :- CheckHostState(host, env.probe, revision, env.before, env.afterFetch, env.fetchOk, responses);
      Success((Some(c), responses[|c.prompts|..]))
  }

  /**
   * What a run promises: one outcome per host reached, in list order; each
   * outcome faithful to its host, and each recorded check the verdict of
   * `check_host_state` on the responses earlier checks left unread; a
   * finished run reached every host with status 0; a stopped run ends at its
   * first failing host, whose status it returns.
   */
  predicate WellFormedRun(run: RunResult, hosts: seq<string>, skipHostCheck: bool, verbose: bool,
                          revision: string, world: string -> HostEnv, responses: seq<string>) {
    && RunShape(run, hosts, skipHostCheck, verbose, revision, world)
    && RunChecked(run.outcomes, revision, world, responses)
  }

  /** The hosts reached, in order, each faithful, and the run ended as the statuses say. */
  predicate RunShape(run: RunResult, hosts: seq<string>, skipHostCheck: bool, verbose: bool,
                     revision: string, world: string -> HostEnv) {
    && |run.outcomes| <= |hosts|
    && (forall i :: 0 <= i < |run.outcomes| ==> run.outcomes[i].host == hosts[i])
    && (forall i :: 0 <= i < |run.outcomes| ==> Faithful(run.outcomes[i], skipHostCheck, verbose, revision, world))
    && (run.done ==>
          && run.exitCode == 0
          && |run.outcomes| == |hosts|
          && forall i :: 0 <= i < |run.outcomes| ==> Succeeded(run.outcomes[i]))
    && (!run.done ==>
          && |run.outcomes| >= 1
          && (forall i :: 0 <= i < |run.outcomes| - 1 ==> Succeeded(run.outcomes[i]))
          && var last := run.outcomes[|run.outcomes| - 1];
             && last.Deployed?
             && ExitStatus(last.step) == run.exitCode
             && run.exitCode != 0)
  }

  /** Each recorded check is the verdict on the responses the earlier checks left unread. */
  predicate RunChecked(outs: seq<HostOutcome>, revision: string, world: string -> HostEnv, responses: seq<string>) {
    forall i :: 0 <= i < |outs| ==>
      && Asked(outs[..i]) <= |responses|
      && CheckedOn(outs[i], revision, world, responses[Asked(outs[..i])..])
  }

  /** The responses the checks of a prepended outcome and of the rest read, added up. */
  lemma AskedCons(o: HostOutcome, outs: seq<HostOutcome>)
    ensures Asked([o] + outs) == Asked([o]) + Asked(outs)
  {
    assert ([o] + outs)[1..] == outs;
  }

  /** A host that did not stop the run, placed before the rest of the run. */
  lemma PrependOutcome(o: HostOutcome, tail: RunResult, hosts: seq<string>, skipHostCheck: bool,
                       verbose: bool, revision: string, world: string -> HostEnv, responses: seq<string>)
    requires |hosts| >= 1 && o.host == hosts[0]
    requires Faithful(o, skipHostCheck, verbose, revision, world) && Succeeded(o)
    requires Asked([o]) <= |responses| && CheckedOn(o, revision, world, responses)
    requires WellFormedRun(tail, hosts[1..], skipHostCheck, verbose, revision, world, responses[Asked([o])..])
    ensures WellFormedRun(RunResult(tail.exitCode, [o] + tail.outcomes, tail.done),
                          hosts, skipHostCheck, verbose, revision, world, responses)
  {
    PrependShape(o, tail, hosts, skipHostCheck, verbose, revision, world);
    PrependChecked(o, tail.outcomes, revision, world, responses);
  }

  lemma PrependShape(o: HostOutcome, tail: RunResult, hosts: seq<string>, skipHostCheck: bool,
                     verbose: bool, revision: string, world: string -> HostEnv)
    requires |hosts| >= 1 && o.host == hosts[0]
    requires Faithful(o, skipHostCheck, verbose, revision, world) && Succeeded(o)
    requires RunShape(tail, hosts[1..], skipHostCheck, verbose, revision, world)
    ensures RunShape(RunResult(tail.exitCode, [o] + tail.outcomes, tail.done),
                     hosts, skipHostCheck, verbose, revision, world)
  {
    var outs := [o] + tail.outcomes;
    forall i | 0 < i < |outs|
      ensures outs[i] == tail.outcomes[i - 1] && outs[i].host == hosts[i]
    {
      assert outs[i] == tail.outcomes[i - 1];
    }
  }

  lemma PrependChecked(o: HostOutcome, tail: seq<HostOutcome>, revision: string, world: string -> HostEnv,
                       responses: seq<string>)
    requires Asked([o]) <= |responses| && CheckedOn(o, revision, world, responses)
    requires RunChecked(tail, revision, world, responses[Asked([o])..])
    ensures RunChecked([o] + tail, revision, world, responses)
  {
    var outs := [o] + tail;
    var p := Asked([o]);
    forall i | 0 < i < |outs|
      ensures Asked(outs[..i]) <= |responses|
      ensures CheckedOn(outs[i], revision, world, responses[Asked(outs[..i])..])
    {
      assert outs[i] == tail[i - 1];
      var a := Asked(tail[..i - 1]);
      assert outs[..i] == [o] + tail[..i - 1];
      AskedCons(o, tail[..i - 1]);
      assert responses[p..][a..] == responses[p + a..];
    }
    assert outs[..0] == [];
  }

  /**
   * `run_deployments`: visit the hosts in list order; a host the check says
   * to skip is never pushed to; the first host whose deployment ends with a
   * non-zero status ends the run with that status.
   */
  function RunDeployments(skipHostCheck: bool, verbose: bool, revision: string, hosts: seq<string>,
                          world: string -> HostEnv, responses: seq<string>): (r: Result<RunResult, PromptError>)
    ensures skipHostCheck ==> r.Success?
    ensures r.Failure? ==> r.error == EndOfInput || r.error == FetchFailed
    ensures r.Success? ==> WellFormedRun(r.value, hosts, skipHostCheck, verbose, revision, world, responses)
    decreases |hosts|
  {
    if |hosts| == 0 then Success(RunResult(0, [], true))
    else
      var host := hosts[0];
      var env := world(host);
      var checked :- MaybeCheck(skipHostCheck, host, env, revision, responses);
      var check := checked.0;
      if check.Some? && check.value.skip then
        var o := Skipped(host, check.value);
        assert Asked([o]) == |check.value.prompts| && checked.1 == responses[Asked([o])..];
        var tail :- RunDeployments(skipHostCheck, verbose, revision, hosts[1..], world, checked.1);
        PrependOutcome(o, tail, hosts, skipHostCheck, verbose, revision, world, responses);
        Success(RunResult(tail.exitCode, [o] + tail.outcomes, tail.done))
      else
        var step := DeployTo(host, revision, verbose, env.pushOk, env.remoteExit);
        var o := Deployed(host, check, step);
        assert [o][..0] == [];
        if ExitStatus(step) != 0 then Success(RunResult(ExitStatus(step), [o], false))
        else
          assert Asked([o]) == (if check.Some? then |check.value.prompts| else 0);
          assert checked.1 == responses[Asked([o])..];
          var tail :- RunDeployments(skipHostCheck, verbose, revision, hosts[1..], world, checked.1);
          PrependOutcome(o, tail, hosts, skipHostCheck, verbose, revision, world, responses);
          Success(RunResult(tail.exitCode, [o] + tail.outcomes, tail.done))
  }

  /**
   * With host checks on, a host reached by a run is skipped exactly when
   * `check_host_state`, asked on the responses earlier hosts left unread,
   * says to skip it.
   */
  lemma SkipsExactlyOnCheck(verbose: bool, revision: string, hosts: seq<string>,
                            world: string -> HostEnv, responses: seq<string>, i: nat)
    requires RunDeployments(false, verbose, revision, hosts, world, responses).Success?
    requires i < |RunDeployments(false, verbose, revision, hosts, world, responses).value.outcomes|
    ensures var run := RunDeployments(false, verbose, revision, hosts, world, responses).value;
      var env := world(hosts[i]);
      && Asked(run.outcomes[..i]) <= |responses|
      && var c := CheckHostState(hosts[i], env.probe, revision, env.before, env.afterFetch, env.fetchOk,
                                 responses[Asked(run.outcomes[..i])..]);
         && c.Success?
         && (run.outcomes[i].Skipped? <==> c.value.skip)
  {
    var run := RunDeployments(false, verbose, revision, hosts, world, responses).value;
    assert Faithful(run.outcomes[i], false, verbose, revision, world);
    assert CheckedOn(run.outcomes[i], revision, world, responses[Asked(run.outcomes[..i])..]);
  }

  /**
   * A fetch that fails while the first host is checked ends the run before
   * any host is pushed to: the error is not caught.
   */
  lemma FetchFailureEndsRun(verbose: bool, revision: string, hosts: seq<string>,
                            world: string -> HostEnv, responses: seq<string>)
    requires |hosts| >= 1 && OffersFetch(world(hosts[0]).probe, revision, world(hosts[0]).before)
    requires !world(hosts[0]).fetchOk
    requires |responses| >= 1 && Lower(responses[0]) != "n"
    ensures RunDeployments(false, verbose, revision, hosts, world, responses) == Failure(FetchFailed)
  {
  }

  /** Whether deploying to `host` would end with a non-zero status. */
  predicate Fails(env: HostEnv) {
    !env.pushOk || env.remoteExit != 0
  }

  /**
   * With `--skip-host-check` every host is deployed to in order; the first
   * failing host `k` ends the run with its status and no later host is
   * contacted; when none fails the run finishes with status 0.
   */
  lemma {:induction false} FailFast(verbose: bool, revision: string, hosts: seq<string>,
                                    world: string -> HostEnv, responses: seq<string>, k: nat)
    requires k <= |hosts|
    requires forall i :: 0 <= i < k ==> !Fails(world(hosts[i]))
    requires k < |hosts| ==> Fails(world(hosts[k]))
    ensures var r := RunDeployments(true, verbose, revision, hosts, world, responses);
      && r.Success?
      && (k == |hosts| ==> r.value.done && |r.value.outcomes| == |hosts|)
      && (k < |hosts| ==>
            && |r.value.outcomes| == k + 1
            && r.value.exitCode == (if world(hosts[k]).pushOk then world(hosts[k]).remoteExit else 1))
    decreases |hosts|
  {
    if |hosts| > 0 && k > 0 {
      FailFast(verbose, revision, hosts[1..], world, responses, k - 1);
    }
  }

  /** The repository facts the preconditions look at. */
  datatype Repo = Repo(
    deployments: Option<seq<string>>,  // the host list, or None when it cannot be read
    hasChanges: bool,                  // uncommitted local changes
    loads: bool,                       // whether the state loads
    validationErrors: nat,             // errors reported by validation
    head: string)                      // `rev_parse('HEAD')`

  /** Where the command stopped. */
  datatype Stop =
    | Finished
    | DeploymentsUnavailable
    | LocalChanges
    | LoadFailed
    | ValidationDeclined
    | HostFailed

  datatype CommandResult = CommandResult(exitCode: int, stop: Stop, outcomes: seq<HostOutcome>)

  /**
   * `command`: read the host list, refuse local changes, require the state
   * to load, ask before deploying a state with validation errors, then run
   * the deployments against the current HEAD.
   */
  function DeployCommand(repo: Repo, skipHostCheck: bool, verbose: bool,
                         world: string -> HostEnv, responses: seq<string>): (r: Result<CommandResult, PromptError>)
    ensures r.Success? && r.value.stop != Finished && r.value.stop != HostFailed ==>
      r.value.exitCode == 1 && r.value.outcomes == []
    ensures r.Success? ==> (r.value.stop == Finished <==> r.value.exitCode == 0)
    ensures repo.deployments.None? ==> r == Success(CommandResult(1, DeploymentsUnavailable, []))
    ensures repo.deployments.Some? && repo.hasChanges ==> r == Success(CommandResult(1, LocalChanges, []))
    ensures repo.deployments.Some? && !repo.hasChanges && !repo.loads ==>
      r == Success(CommandResult(1, LoadFailed, []))
    ensures repo.deployments.Some? && !repo.hasChanges && repo.loads && repo.validationErrors > 0 ==>
      && (|responses| == 0 ==> r == Failure(EndOfInput))
      && (|responses| >= 1 && Lower(responses[0]) != "y" ==> r == Success(CommandResult(1, ValidationDeclined, [])))
    ensures repo.deployments.Some? && !repo.hasChanges && repo.loads
              && (repo.validationErrors == 0 || (|responses| >= 1 && Lower(responses[0]) == "y")) ==>
      var k := if repo.validationErrors > 0 then 1 else 0;
      var run := RunDeployments(skipHostCheck, verbose, repo.head, repo.deployments.value, world, responses[k..]);
      && (run.Failure? ==> r == Failure(run.error))
      && (run.Success? ==> r == Success(CommandResult(run.value.exitCode,
                                                      if run.value.done then Finished else HostFailed,
                                                      run.value.outcomes)))
  {
    match repo.deployments
    case None => Success(CommandResult(1, DeploymentsUnavailable, []))
    case Some(hosts) =>
      if repo.hasChanges then Success(CommandResult(1, LocalChanges, []))
      else if !repo.loads then Success(CommandResult(1, LoadFailed, []))
      else
        var warned :- if repo.validationErrors > 0 then QueryWarn(responses) else Success(BoolReply(true, 0));
        if !warned.yes then Success(CommandResult(1, ValidationDeclined, []))
        else
          var run :- RunDeployments(skipHostCheck, verbose, repo.head, hosts, world, responses[warned.consumed..]);
          Success(CommandResult(run.exitCode, if run.done then Finished else HostFailed, run.outcomes))
  }

  /**
   * A command that went ahead deployed the current HEAD: the hosts it
   * reached are the first hosts of the deployment list, in order, and every
   * host it pushed to received HEAD's refspec at its own URL.
   */
  lemma CommandDeploysHead(repo: Repo, skipHostCheck: bool, verbose: bool,
                           world: string -> HostEnv, responses: seq<string>)
    requires DeployCommand(repo, skipHostCheck, verbose, world, responses).Success?
    ensures var c := DeployCommand(repo, skipHostCheck, verbose, world, responses).value;
      && (c.outcomes != [] ==> repo.deployments.Some? && |c.outcomes| <= |repo.deployments.value|)
      && (forall i :: 0 <= i < |c.outcomes| ==> c.outcomes[i].host == repo.deployments.value[i])
      && (forall i :: 0 <= i < |c.outcomes| && c.outcomes[i].Deployed? ==>
            c.outcomes[i].step == DeployTo(repo.deployments.value[i], repo.head, verbose,
                                           world(repo.deployments.value[i]).pushOk,
                                           world(repo.deployments.value[i]).remoteExit))
  {
    var c := DeployCommand(repo, skipHostCheck, verbose, world, responses).value;
    if c.outcomes != [] {
      var k := if repo.validationErrors > 0 then 1 else 0;
      var run := RunDeployments(skipHostCheck, verbose, repo.head, repo.deployments.value, world, responses[k..]);
      assert run.Success? && c.outcomes == run.value.outcomes;
      forall i | 0 <= i < |c.outcomes| && c.outcomes[i].Deployed?
        ensures c.outcomes[i].step == DeployTo(repo.deployments.value[i], repo.head, verbose,
                                               world(repo.deployments.value[i]).pushOk,
                                               world(repo.deployments.value[i]).remoteExit)
      {
        assert Faithful(run.value.outcomes[i], skipHostCheck, verbose, repo.head, world);
      }
    }
  }
}
