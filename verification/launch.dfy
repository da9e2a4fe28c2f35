/** Whether a run starts, and on which networks, in each front end: the
    `start` and `stop` routes of the web application, the `main` functions of
    the two command-line tools with the keyword-count guard, and the
    keyword guard at the top of the desktop worker's `run`. The keyword file
    is read elsewhere; here it is the list of keywords it yielded (empty when
    the file could not be read). */
module Launch {
  import opened Networks
  import opened GuiController
  import opened Dicts
  import opened PyStr

  // ---------------------------------------------------------------------
  // The web application

  /** The module globals the `start` and `stop` routes touch. */
  datatype WebState = WebState(running: bool, attempts: nat, found: nat, selected: seq<string>)

  /** The flashed message that reports what a request did. `BadInterval` is
      not a flash: `float()` raises `ValueError` on the interval field and
      the request ends in a server error. */
  datatype Flash = AlreadyRunning | BadInterval | NoValidNetworks | KeywordsUnreadable | Started | Stopped | NotRunning

  datatype WebOutcome = WebOutcome(state: WebState, flash: Flash)

  const WebInitial: WebState := WebState(false, 0, 0, [])

  /** The `start` route: refused while a run is going, when the interval
      field is not a number (`intervalParses` says whether `float()` accepts
      it; an absent field takes the default 1.0), when none of the submitted
      networks is configured, or when no keyword could be read; otherwise the
      counters are reset and a run starts on the configured networks among
      those submitted, in the order submitted, repeats included. */
  function WebStart(s: WebState, intervalParses: bool, submitted: seq<string>, keywords: seq<string>): (o: WebOutcome)
    ensures o.flash == Started <==> !s.running && intervalParses && Filter(submitted, ApiKeys) != [] && keywords != []
    ensures s.running ==> o.flash == AlreadyRunning
    ensures !s.running && !intervalParses ==> o.flash == BadInterval
    ensures !s.running && intervalParses && Filter(submitted, ApiKeys) == [] ==> o.flash == NoValidNetworks
    ensures !s.running && intervalParses && Filter(submitted, ApiKeys) != [] && keywords == [] ==> o.flash == KeywordsUnreadable
    ensures o.flash != Started ==> o.state == s
    ensures o.flash == Started ==>
      o.state.running && o.state.attempts == 0 && o.state.found == 0
      && Sublist(o.state.selected, submitted)
      && (forall n :: n in o.state.selected <==> n in submitted && n in ApiKeys)
      && o.state.selected == Filter(submitted, ApiKeys)
  {
    if s.running then WebOutcome(s, AlreadyRunning)
    else if !intervalParses then WebOutcome(s, BadInterval)
    else
      var valid := Filter(submitted, ApiKeys);
      FilterSublist(submitted, ApiKeys);
      if valid == [] then WebOutcome(s, NoValidNetworks)
      else if keywords == [] then WebOutcome(s, KeywordsUnreadable)
      else WebOutcome(WebState(true, 0, 0, valid), Started)
  }

  /** The `stop` route: clears the running flag if it was set and touches
      nothing else. */
  function WebStop(s: WebState): (o: WebOutcome)
    ensures !o.state.running
    ensures o.flash == Stopped <==> s.running
    ensures o.state.attempts == s.attempts && o.state.found == s.found && o.state.selected == s.selected
  {
    if s.running then WebOutcome(s.(running := false), Stopped) else WebOutcome(s, NotRunning)
  }

  /** A start that succeeds can be stopped, a second stop is reported as
      having nothing to stop, and the stopped state accepts a new start. */
  lemma WebStartStop(s: WebState, submitted: seq<string>, keywords: seq<string>)
    requires WebStart(s, true, submitted, keywords).flash == Started
    ensures WebStop(WebStart(s, true, submitted, keywords).state).flash == Stopped
    ensures WebStop(WebStop(WebStart(s, true, submitted, keywords).state).state).flash == NotRunning
    ensures WebStart(WebStop(WebStart(s, true, submitted, keywords).state).state, true, submitted, keywords).flash == Started
  {
  }

  /** Submitting every configured network with a readable keyword file starts
      a run on all of them. */
  lemma WebStartAll(keywords: seq<string>)
    requires keywords != []
    ensures WebStart(WebInitial, true, ApiNetworks, keywords) == WebOutcome(WebState(true, 0, 0, ApiNetworks), Started)
  {
    FilterAllAllowed(ApiNetworks, ApiKeys);
  }

  // ---------------------------------------------------------------------
  // The command-line tools

  /** How a tool's `main` ends up. */
  datatype Launch = NoNetworks | NoKeywords | TooFewKeywords | Running(networks: seq<string>)

  /** `brute_force` refuses to run on fewer than twelve keywords. */
  const MinKeywords: nat := 12

  /** `main` of the comma-separated `--networks` tool, followed by the guard
      at the top of `brute_force`. */
  function CliLaunch(option: string, keywords: seq<string>): (l: Launch)
    ensures l.Running? <==> ParseNetworkOption(option) != [] && |keywords| >= MinKeywords
    ensures l.Running? ==> l.networks == ParseNetworkOption(option)
    ensures l == NoNetworks <==> ParseNetworkOption(option) == []
  {
    var networks := ParseNetworkOption(option);
    if networks == [] then NoNetworks
    else if keywords == [] then NoKeywords
    else if |keywords| < MinKeywords then TooFewKeywords
    else Running(networks)
  }

  /** With the default option and enough keywords, all four networks run. */
  lemma CliDefault(keywords: seq<string>)
    requires |keywords| >= MinKeywords
    ensures CliLaunch(Join(ApiNetworks, ","), keywords) == Running(ApiNetworks)
  {
    DefaultOption();
  }

  /** `main` of the standalone tool, whose `--networks` takes separate
      words. It has no keyword-count guard of its own: one keyword is
      enough. */
  function StandaloneLaunch(requested: seq<string>, keywords: seq<string>): (l: Launch)
    ensures l.Running? <==> Filter(requested, ApiKeys) != [] && keywords != []
    ensures l.Running? ==> Sublist(l.networks, requested) && (forall i :: 0 <= i < |l.networks| ==> l.networks[i] in ApiKeys)
    ensures l.Running? ==> l.networks == Filter(requested, ApiKeys)
    ensures !l.TooFewKeywords?
  {
    var valid := Filter(requested, ApiKeys);
    FilterSublist(requested, ApiKeys);
    if valid == [] then NoNetworks
    else if keywords == [] then NoKeywords
    else Running(valid)
  }

  /** The standalone default `--networks BTC` runs on Bitcoin alone. */
  lemma StandaloneDefault(keywords: seq<string>)
    requires keywords != []
    ensures StandaloneLaunch(["BTC"], keywords) == Running(["BTC"])
  {
    FilterAllAllowed(["BTC"], ApiKeys);
  }

  /** Both tools accept exactly the same network names when those are
      written in canonical form, but only the comma-separated tool insists on
      twelve keywords. */
  lemma ToolsAgree(items: seq<string>, keywords: seq<string>)
    requires |items| >= 1
    requires forall i :: 0 <= i < |items| ==> IsTrimmedName(items[i]) && ',' !in items[i] && items[i] in ApiKeys
    ensures CliLaunch(Join(items, ","), keywords).Running? ==> StandaloneLaunch(items, keywords) == CliLaunch(Join(items, ","), keywords)
    ensures StandaloneLaunch(items, keywords).Running? && |keywords| < MinKeywords ==> CliLaunch(Join(items, ","), keywords) == TooFewKeywords
  {
    NormalOption(items);
    FilterAllAllowed(items, ApiKeys);
  }

  /** A name the option parser leaves as it is. */
  predicate IsTrimmedName(n: string) {
    IsTrimmed(n) && Upper(n) == n
  }

  // ---------------------------------------------------------------------
  // The desktop worker

  /** The first message the desktop worker sends: an error when it was given
      fewer than twelve keywords (which includes none at all), otherwise it
      starts generating. */
  function WorkerFirstMessage(keywords: seq<string>): (m: Option<Message>)
    ensures m.Some? <==> |keywords| < MinKeywords
    ensures m.Some? ==> m.value.ErrorMessage?
  {
    if keywords == [] || |keywords| < MinKeywords then
      Some(ErrorMessage("Error: Keywords file not found or has less than 12 words"))
    else None
  }

  /** Started with too few keywords, a desktop run stops itself on the
      worker's first message, in either window. */
  lemma ShortKeywordsStop(w: Window, selected: seq<string>, keywords: seq<string>)
    requires Valid(w.ctl) && !w.ctl.running && selected != []
    requires |keywords| < MinKeywords
    ensures Start(w.ctl, selected).state.running
    ensures var started := w.(ctl := Start(w.ctl, selected).state);
      && !TkUpdate(started, WorkerFirstMessage(keywords).value).ctl.running
      && !QtUpdate(started, WorkerFirstMessage(keywords).value).ctl.running
      && Valid(TkUpdate(started, WorkerFirstMessage(keywords).value).ctl)
  {
  }
}
