/**
 * The configuration validator of server/lib/Config.ts: the user's
 * configuration is read into a `Config` whose constructor records one line
 * per setting in `messages`, and one line per missing mandatory setting in
 * `errs`. The lines' texts are abstracted to what they report.
 */
module Configuration {
  import opened Strings

  /** One line of `messages` or `errs`. */
  datatype Line =
    | SyncDisabled
    | SyncEnabled
    | RepoOwner(owner: string)
    | RepoName(name: string)
    | AccessToken
    | MissingRepoOwner
    | MissingRepoName
    | MissingAccessToken
    | TargetBranch(branch: string)
    | PrBranch(branch: string)
    | UnusedAfter(days: int)
    | SelectorsPerPr(count: int)
    | IgnoredSelectors(selectors: seq<string>)
    | IgnoredFiles(files: seq<string>)

  /** The user's settings; a missing key is `None`. Numbers are integers. */
  datatype UserConfig = UserConfig(
    pushToGithub: Option<bool>,
    githubPersonalAccessToken: Option<string>,
    repoOwner: Option<string>,
    repoName: Option<string>,
    targetBranch: Option<string>,
    prBranch: Option<string>,
    markUnusedAfter: Option<int>,
    numSelectorsPerPr: Option<int>,
    ignoredSelectorsList: Option<seq<string>>,
    ignoredSourceCssFileList: Option<seq<string>>)

  const DefaultTargetBranch: string := "master"
  const DefaultPrBranch: string := "bleachcss"
  const DefaultMarkUnusedAfter: int := 30
  const DefaultNumSelectorsPerPr: int := 25

  /** A string setting is truthy when present and not empty. */
  predicate GivenText(o: Option<string>) {
    o.Some? && o.value != ""
  }

  /** A number setting is truthy when present and not zero. */
  predicate GivenNumber(o: Option<int>) {
    o.Some? && o.value != 0
  }

  /** Everything a `Config` holds. */
  datatype Settings = Settings(
    messages: seq<Line>,
    errs: seq<Line>,
    pushToGithub: bool,
    githubPersonalAccessToken: Option<string>,
    repoOwner: Option<string>,
    repoName: Option<string>,
    targetBranch: string,
    prBranch: string,
    markUnusedAfter: int,
    numSelectorsPerPr: int,
    ignoredSelectorsList: seq<string>,
    ignoredSourceCssFileList: seq<string>)

  /** A truthy text setting, or none. */
  function TextOrNone(o: Option<string>): Option<string> {
    if GivenText(o) then o else None
  }

  /** A truthy text setting, or the default. */
  function TextOr(o: Option<string>, default: string): string {
    if GivenText(o) then o.value else default
  }

  /** A truthy number setting, or the default. */
  function NumberOr(o: Option<int>, default: int): int {
    if GivenNumber(o) then o.value else default
  }

  /** The mandatory settings' messages: one per present setting, in order. */
  function MandatoryMessages(u: UserConfig): seq<Line> {
    (if GivenText(u.repoOwner) then [RepoOwner(u.repoOwner.value)] else [])
    + (if GivenText(u.repoName) then [RepoName(u.repoName.value)] else [])
    + (if GivenText(u.githubPersonalAccessToken) then [AccessToken] else [])
  }

  /** The mandatory settings' errors: one per missing setting, in order. */
  function MandatoryErrors(u: UserConfig): seq<Line> {
    (if GivenText(u.repoOwner) then [] else [MissingRepoOwner])
    + (if GivenText(u.repoName) then [] else [MissingRepoName])
    + (if GivenText(u.githubPersonalAccessToken) then [] else [MissingAccessToken])
  }

  /** The optional settings' messages, each with the value in force. */
  function OptionalMessages(u: UserConfig): seq<Line> {
    [ TargetBranch(TextOr(u.targetBranch, DefaultTargetBranch)),
      PrBranch(TextOr(u.prBranch, DefaultPrBranch)),
      UnusedAfter(NumberOr(u.markUnusedAfter, DefaultMarkUnusedAfter)),
      SelectorsPerPr(NumberOr(u.numSelectorsPerPr, DefaultNumSelectorsPerPr)),
      IgnoredSelectors(ListOr(u.ignoredSelectorsList, [])),
      IgnoredFiles(ListOr(u.ignoredSourceCssFileList, [])) ]
  }

  /** A list setting, or the default; an array is truthy even when empty. */
  function ListOr(o: Option<seq<string>>, default: seq<string>): seq<string> {
    if o.Some? then o.value else default
  }

  /** What the constructor builds from `u`. */
  function Configured(u: UserConfig): (r: Settings)
    ensures r.pushToGithub <==> u.pushToGithub == Some(true)
    ensures r.errs != [] ==> r.pushToGithub
    ensures |r.errs| < |r.messages|
  {
    if u.pushToGithub != Some(true) then
      Settings([SyncDisabled], [], false, None, None, None, DefaultTargetBranch, DefaultPrBranch,
               DefaultMarkUnusedAfter, DefaultNumSelectorsPerPr, [], [])
    else
      Settings([SyncEnabled] + MandatoryMessages(u) + OptionalMessages(u), MandatoryErrors(u), true,
               TextOrNone(u.githubPersonalAccessToken), TextOrNone(u.repoOwner), TextOrNone(u.repoName),
               TextOr(u.targetBranch, DefaultTargetBranch), TextOr(u.prBranch, DefaultPrBranch),
               NumberOr(u.markUnusedAfter, DefaultMarkUnusedAfter), NumberOr(u.numSelectorsPerPr, DefaultNumSelectorsPerPr),
               ListOr(u.ignoredSelectorsList, []), ListOr(u.ignoredSourceCssFileList, []))
  }

  /** `Object.assign(target, source)` on arrays: `source` copied over `target` index by index. */
  function AssignByIndex(target: seq<Line>, source: seq<Line>): (r: seq<Line>)
    ensures |r| == if |source| < |target| then |target| else |source|
    ensures forall i :: 0 <= i < |r| ==> r[i] == if i < |source| then source[i] else target[i]
  {
    if |source| < |target| then source + target[|source|..] else source
  }

  /** Syncing is off unless `push_to_github` is exactly `true`; then every setting has its default and there is one message. */
  lemma DisabledKeepsDefaults(u: UserConfig)
    requires u.pushToGithub != Some(true)
    ensures var s := Configured(u);
      && !s.pushToGithub && s.errs == [] && s.messages == [SyncDisabled]
      && s.repoOwner.None? && s.repoName.None? && s.githubPersonalAccessToken.None?
      && s.targetBranch == "master" && s.prBranch == "bleachcss"
      && s.markUnusedAfter == 30 && s.numSelectorsPerPr == 25
      && s.ignoredSelectorsList == [] && s.ignoredSourceCssFileList == []
  {
  }

  /**
   * When syncing is on, there is exactly one error per missing mandatory
   * setting (`repo_owner`, `repo_name`, `github_personal_access_token`),
   * each present one is reported among the messages, and there is an error
   * iff one is missing.
   */
  lemma MandatorySettings(u: UserConfig)
    requires u.pushToGithub == Some(true)
    ensures var s := Configured(u);
      && (MissingRepoOwner in s.errs <==> !GivenText(u.repoOwner))
      && (MissingRepoName in s.errs <==> !GivenText(u.repoName))
      && (MissingAccessToken in s.errs <==> !GivenText(u.githubPersonalAccessToken))
      && (GivenText(u.repoOwner) ==> RepoOwner(u.repoOwner.value) in s.messages && s.repoOwner == u.repoOwner)
      && (GivenText(u.repoName) ==> RepoName(u.repoName.value) in s.messages && s.repoName == u.repoName)
      && (GivenText(u.githubPersonalAccessToken) ==>
            AccessToken in s.messages && s.githubPersonalAccessToken == u.githubPersonalAccessToken)
      && |s.errs| == (if GivenText(u.repoOwner) then 0 else 1) + (if GivenText(u.repoName) then 0 else 1)
                     + (if GivenText(u.githubPersonalAccessToken) then 0 else 1)
      && (|s.errs| > 0 <==> !GivenText(u.repoOwner) || !GivenText(u.repoName) || !GivenText(u.githubPersonalAccessToken))
  {
  }

  /**
   * When syncing is on, each optional setting takes the user's value when
   * truthy and keeps its default otherwise (`0` and `""` included), and is
   * reported; with the start message that makes at least seven messages,
   * and ten lines in all.
   */
  lemma OptionalSettings(u: UserConfig)
    requires u.pushToGithub == Some(true)
    ensures var s := Configured(u);
      && s.pushToGithub
      && s.targetBranch == (if u.targetBranch.Some? && u.targetBranch.value != "" then u.targetBranch.value else "master")
      && s.prBranch == (if u.prBranch.Some? && u.prBranch.value != "" then u.prBranch.value else "bleachcss")
      && s.markUnusedAfter == (if u.markUnusedAfter.Some? && u.markUnusedAfter.value != 0 then u.markUnusedAfter.value else 30)
      && s.numSelectorsPerPr == (if u.numSelectorsPerPr.Some? && u.numSelectorsPerPr.value != 0 then u.numSelectorsPerPr.value else 25)
      && TargetBranch(s.targetBranch) in s.messages && PrBranch(s.prBranch) in s.messages
      && UnusedAfter(s.markUnusedAfter) in s.messages && SelectorsPerPr(s.numSelectorsPerPr) in s.messages
      && IgnoredSelectors(s.ignoredSelectorsList) in s.messages && IgnoredFiles(s.ignoredSourceCssFileList) in s.messages
      && s.messages[0] == SyncEnabled
      && |s.messages| >= 7 && |s.messages| + |s.errs| == 10
  {
    var s := Configured(u);
    var tail := [TargetBranch(s.targetBranch), PrBranch(s.prBranch), UnusedAfter(s.markUnusedAfter),
                 SelectorsPerPr(s.numSelectorsPerPr), IgnoredSelectors(s.ignoredSelectorsList),
                 IgnoredFiles(s.ignoredSourceCssFileList)];
    assert s.messages[|s.messages| - 6..] == tail;
    assert forall x :: x in tail ==> x in s.messages;
  }

  /**
   * `logs` copies `messages` over `errs` index by index; as there are always
   * more messages than errors, it equals `messages`.
   */
  lemma LogsAreMessages(u: UserConfig)
    ensures var s := Configured(u);
      |s.errs| < |s.messages| && AssignByIndex(AssignByIndex([], s.errs), s.messages) == s.messages
  {
    if u.pushToGithub == Some(true) {
      OptionalSettings(u);
    }
  }

  class Config {
    var messages: seq<Line>
    var errs: seq<Line>
    var pushToGithub: bool
    var githubPersonalAccessToken: Option<string>
    var repoOwner: Option<string>
    var repoName: Option<string>
    var targetBranch: string
    var prBranch: string
    var markUnusedAfter: int
    var numSelectorsPerPr: int
    var ignoredSelectorsList: seq<string>
    var ignoredSourceCssFileList: seq<string>

    /** The config's contents. */
    function State(): (s: Settings)
      reads this
      ensures s.messages == messages && s.errs == errs
    {
      Settings(messages, errs, pushToGithub, githubPersonalAccessToken, repoOwner, repoName,
               targetBranch, prBranch, markUnusedAfter, numSelectorsPerPr,
               ignoredSelectorsList, ignoredSourceCssFileList)
    }

    /** The constructor: the defaults, then each setting in turn, as `Configured` says. */
    constructor(u: UserConfig)
      ensures State() == Configured(u)
    {
      messages := [];
      errs := [];
      pushToGithub := false;
      githubPersonalAccessToken := None;
      repoOwner := None;
      repoName := None;
      targetBranch := DefaultTargetBranch;
      prBranch := DefaultPrBranch;
      markUnusedAfter := DefaultMarkUnusedAfter;
      numSelectorsPerPr := DefaultNumSelectorsPerPr;
      ignoredSelectorsList := [];
      ignoredSourceCssFileList := [];
      new;
      if u.pushToGithub != Some(true) {
        messages := messages + [SyncDisabled];
        return;
      }
      pushToGithub := true;
      messages := messages + [SyncEnabled];
      ReadMandatory(u);
      ReadOptional(u);
      assert messages == [SyncEnabled] + MandatoryMessages(u) + OptionalMessages(u);
    }

    /** The three mandatory settings: each present one is kept and reported, each missing one is an error. */
    method ReadMandatory(u: UserConfig)
      modifies this`messages, this`errs, this`repoOwner, this`repoName, this`githubPersonalAccessToken
      ensures messages == old(messages) + MandatoryMessages(u) && errs == old(errs) + MandatoryErrors(u)
      ensures repoOwner == TextOrNone(u.repoOwner) && repoName == TextOrNone(u.repoName)
      ensures githubPersonalAccessToken == TextOrNone(u.githubPersonalAccessToken)
    {
      ghost var m0, e0 := messages, errs;
      if GivenText(u.repoOwner) {
        repoOwner := u.repoOwner;
        messages := messages + [RepoOwner(u.repoOwner.value)];
      } else {
        repoOwner := None;
        errs := errs + [MissingRepoOwner];
      }
      if GivenText(u.repoName) {
        repoName := u.repoName;
        messages := messages + [RepoName(u.repoName.value)];
      } else {
        repoName := None;
        errs := errs + [MissingRepoName];
      }
      if GivenText(u.githubPersonalAccessToken) {
        githubPersonalAccessToken := u.githubPersonalAccessToken;
        messages := messages + [AccessToken];
      } else {
        githubPersonalAccessToken := None;
        errs := errs + [MissingAccessToken];
      }
      assert messages == m0 + MandatoryMessages(u);
      assert errs == e0 + MandatoryErrors(u);
    }

    /** The optional settings have their defaults. */
    predicate OptionalDefaults()
      reads this
    {
      && targetBranch == DefaultTargetBranch && prBranch == DefaultPrBranch
      && markUnusedAfter == DefaultMarkUnusedAfter && numSelectorsPerPr == DefaultNumSelectorsPerPr
      && ignoredSelectorsList == [] && ignoredSourceCssFileList == []
    }

    /** The six optional settings: each takes the user's value when truthy, and is reported. */
    method ReadOptional(u: UserConfig)
      requires OptionalDefaults()
      modifies this`messages, this`targetBranch, this`prBranch, this`markUnusedAfter, this`numSelectorsPerPr,
        this`ignoredSelectorsList, this`ignoredSourceCssFileList
      ensures messages == old(messages) + OptionalMessages(u)
      ensures targetBranch == TextOr(u.targetBranch, DefaultTargetBranch) && prBranch == TextOr(u.prBranch, DefaultPrBranch)
      ensures markUnusedAfter == NumberOr(u.markUnusedAfter, DefaultMarkUnusedAfter)
      ensures numSelectorsPerPr == NumberOr(u.numSelectorsPerPr, DefaultNumSelectorsPerPr)
      ensures ignoredSelectorsList == ListOr(u.ignoredSelectorsList, [])
      ensures ignoredSourceCssFileList == ListOr(u.ignoredSourceCssFileList, [])
    {
      targetBranch := TextOr(u.targetBranch, targetBranch);
      messages := messages + [TargetBranch(targetBranch)];
      prBranch := TextOr(u.prBranch, prBranch);
      messages := messages + [PrBranch(prBranch)];
      markUnusedAfter := NumberOr(u.markUnusedAfter, markUnusedAfter);
      messages := messages + [UnusedAfter(markUnusedAfter)];
      numSelectorsPerPr := NumberOr(u.numSelectorsPerPr, numSelectorsPerPr);
      messages := messages + [SelectorsPerPr(numSelectorsPerPr)];
      ignoredSelectorsList := ListOr(u.ignoredSelectorsList, ignoredSelectorsList);
      messages := messages + [IgnoredSelectors(ignoredSelectorsList)];
      ignoredSourceCssFileList := ListOr(u.ignoredSourceCssFileList, ignoredSourceCssFileList);
      messages := messages + [IgnoredFiles(ignoredSourceCssFileList)];
    }

    /** `has_error`: some mandatory setting is missing. */
    function HasError(): (r: bool)
      reads this
      ensures r <==> exists e :: e in errs
    {
      if |errs| > 0 then assert errs[0] in errs; true else false
    }

    /** `logs`: the messages copied over the errors, index by index. */
    function Logs(): (r: seq<Line>)
      reads this
      ensures |r| == if |messages| < |errs| then |errs| else |messages|
      ensures r[..|messages|] == messages
      ensures forall i :: |messages| <= i < |errs| ==> r[i] == errs[i]
    {
      AssignByIndex(AssignByIndex([], errs), messages)
    }

    /** `errors`: a copy of the errors. */
    function Errors(): (r: seq<Line>)
      reads this
      ensures r == errs
    {
      AssignByIndex([], errs)
    }
  }

  /**
   * For a constructed config, `has_error` holds iff syncing is on and a
   * mandatory setting is missing, and `logs` is exactly the messages.
   */
  lemma ConfigGetters(c: Config, u: UserConfig)
    requires c.State() == Configured(u)
    ensures c.HasError() <==>
      u.pushToGithub == Some(true) &&
      (!GivenText(u.repoOwner) || !GivenText(u.repoName) || !GivenText(u.githubPersonalAccessToken))
    ensures c.Logs() == c.messages && c.Errors() == c.errs
  {
    LogsAreMessages(u);
    if u.pushToGithub == Some(true) {
      MandatorySettings(u);
    }
  }
}
