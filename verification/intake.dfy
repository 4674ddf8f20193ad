/**
 Task intake of the assessor's executor: the task text must carry a `white_agent_url`
 and an `env_config` tag; the configuration is decoded as JSON, two environment
 settings get defaults, and the evaluation loop runs with its default step budget.
 */
module Intake {

  import opened PyValues
  import opened Text
  import opened Tags
  import opened TagLaws
  import opened Episode
  import opened EpisodeLaws

  const UrlTag: string := "white_agent_url"
  const ConfigTag: string := "env_config"
  const DefaultNumProducts: int := 1000
  const DefaultHumanGoals: bool := true
  const MissingTagsText: string := "Error: Missing <white_agent_url> or <env_config> tags."

  /** `json.loads(env_config_str)` followed by the two `get` calls: an object whose two
      fields may be absent, or a failure (undecodable text, or a value without `get`). */
  datatype ConfigJson = ConfigObject(numProducts: Option<int>, humanGoals: Option<bool>) | ConfigMalformed(error: string)

  /** The keyword arguments the environment is built with. */
  datatype EnvSettings = EnvSettings(observationMode: string, numProducts: int, humanGoals: bool)

  datatype Task =
    | Rejected                                   // a tag is missing or empty
    | BadConfig(error: string)                   // decoding the configuration raised
    | Accepted(url: string, settings: EnvSettings)

  /** A message put on the event queue. */
  datatype Event = ErrorText(text: string) | Evaluated(success: bool, metrics: Metrics)

  /** An exception that escapes `execute`. */
  datatype Raised = ConfigFailed(error: string) | RunFailed(reason: Abort)

  datatype Execution = Execution(events: seq<Event>, raised: Option<Raised>)

  /** The solver agent behind each URL, the environment built for each setting, and the
      decoder of action blocks. */
  datatype Agents = Agents(solverAt: string -> seq<Sent> -> Reply, envFor: EnvSettings -> Env, decode: string -> Decoded)

  /** `tags.get(name)` used as a condition: present and not the empty string. */
  predicate Given(tags: map<string, string>, name: string) {
    name in tags && tags[name] != ""
  }

  /** Reading the task text, up to building the environment. */
  function ReadTask(decodeConfig: string -> ConfigJson, userInput: string): Task {
    var tags := ParseTags(userInput);
    if !Given(tags, UrlTag) || !Given(tags, ConfigTag) then Rejected
    else
      match decodeConfig(tags[ConfigTag])
      case ConfigMalformed(error) => BadConfig(error)
      case ConfigObject(n, h) =>
        Accepted(tags[UrlTag], EnvSettings("text", OrDefault(n, DefaultNumProducts), OrDefault(h, DefaultHumanGoals)))
  }

  /** `execute` without the timing: the events it emits and the exception it raises. */
  function Execute(a: Agents, decodeConfig: string -> ConfigJson, userInput: string): Execution {
    match ReadTask(decodeConfig, userInput)
    case Rejected => Execution([ErrorText(MissingTagsText)], None)
    case BadConfig(error) => Execution([], Some(ConfigFailed(error)))
    case Accepted(url, settings) =>
      match AskAgentToSolve(Config(a.solverAt(url), a.envFor(settings), a.decode), DefaultMaxSteps)
      case Finished(metrics, _, _) => Execution([Evaluated(metrics.success, metrics)], None)
      case Aborted(reason, _, _) => Execution([], Some(RunFailed(reason)))
  }

  /**
   A task without both tags, or with either one empty, gets exactly one event, the error
   text, whatever the agents do; no other task gets that answer.
   */
  lemma MissingTagIsRejected(a: Agents, decodeConfig: string -> ConfigJson, userInput: string)
    ensures var tags := ParseTags(userInput);
      Execute(a, decodeConfig, userInput) == Execution([ErrorText(MissingTagsText)], None)
      <==> !Given(tags, UrlTag) || !Given(tags, ConfigTag)
  {
  }

  /** A block after prose without `<`: the prose contributes nothing. */
  lemma BlockInProse(x: string, pre: string, u: string, rest: string)
    requires IsWord(x) && !Occurs(Close(x), u)
    requires forall k :: 0 <= k < |pre| ==> pre[k] != '<'
    ensures ParseTags(pre + Encode(x, u) + rest) == map[x := Strip(u)] + ParseTags(rest)
  {
    assert pre + Encode(x, u) + rest == pre + (Encode(x, u) + rest);
    PlainPrefix(pre, Encode(x, u) + rest);
    BlockThenRest(x, u, rest);
  }

  /** The tags of a text made of two blocks with prose without `<` around them. */
  lemma TwoBlocksInProse(x: string, y: string, pre: string, u: string, mid: string, g: string, post: string)
    requires IsWord(x) && IsWord(y) && x != y
    requires forall k :: 0 <= k < |pre| ==> pre[k] != '<'
    requires forall k :: 0 <= k < |mid| ==> mid[k] != '<'
    requires forall k :: 0 <= k < |post| ==> post[k] != '<'
    requires !Occurs(Close(x), u) && !Occurs(Close(y), g)
    ensures ParseTags(pre + Encode(x, u) + mid + Encode(y, g) + post) == map[x := Strip(u), y := Strip(g)]
  {
    var second := mid + Encode(y, g) + post;
    Regroup(pre, Encode(x, u), mid, Encode(y, g), post);
    BlockInProse(x, pre, u, second);
    BlockInProse(y, mid, g, post);
    PlainTextHasNoTags(post);
    TwoKeys(x, y, Strip(u), Strip(g));
  }

  /** Five pieces of text read as the first two followed by the last three. */
  lemma Regroup(a: string, b: string, c: string, d: string, e: string)
    ensures a + b + c + d + e == a + b + (c + d + e)
  {
  }

  /** Adding a second key to a one-key map, then nothing more. */
  lemma TwoKeys(x: string, y: string, vx: string, vy: string)
    requires x != y
    ensures map[x := vx] + (map[y := vy] + map[]) == map[x := vx, y := vy]
  {
  }

  /**
   The task text the launcher writes, prose around a `white_agent_url` block and an
   `env_config` block, is accepted with the stripped URL and with the configuration's
   values or their defaults.
   */
  lemma LauncherTaskIsAccepted(decodeConfig: string -> ConfigJson,
                               pre: string, u: string, mid: string, g: string, post: string)
    requires forall k :: 0 <= k < |pre| ==> pre[k] != '<'
    requires forall k :: 0 <= k < |mid| ==> mid[k] != '<'
    requires forall k :: 0 <= k < |post| ==> post[k] != '<'
    requires !Occurs(Close(UrlTag), u) && Strip(u) != ""
    requires !Occurs(Close(ConfigTag), g) && Strip(g) != ""
    ensures ReadTask(decodeConfig, pre + Encode(UrlTag, u) + mid + Encode(ConfigTag, g) + post)
         == match decodeConfig(Strip(g))
            case ConfigMalformed(error) => BadConfig(error)
            case ConfigObject(n, h) =>
              Accepted(Strip(u), EnvSettings("text", OrDefault(n, DefaultNumProducts), OrDefault(h, DefaultHumanGoals)))
  {
    var text := pre + Encode(UrlTag, u) + mid + Encode(ConfigTag, g) + post;
    LauncherTaskTags(pre, u, mid, g, post);
    assert UrlTag != ConfigTag;
    var _, _ := TaggedTaskIsAccepted(decodeConfig, text);
  }

  /** The tags of the launcher's task text. */
  lemma LauncherTaskTags(pre: string, u: string, mid: string, g: string, post: string)
    requires forall k :: 0 <= k < |pre| ==> pre[k] != '<'
    requires forall k :: 0 <= k < |mid| ==> mid[k] != '<'
    requires forall k :: 0 <= k < |post| ==> post[k] != '<'
    requires !Occurs(Close(UrlTag), u) && !Occurs(Close(ConfigTag), g)
    ensures ParseTags(pre + Encode(UrlTag, u) + mid + Encode(ConfigTag, g) + post)
         == map[UrlTag := Strip(u), ConfigTag := Strip(g)]
  {
    assert IsWord(UrlTag) && IsWord(ConfigTag) && UrlTag != ConfigTag;
    TwoBlocksInProse(UrlTag, ConfigTag, pre, u, mid, g, post);
  }

  /**
   A task text that gives both tags a non-empty value is accepted exactly when its
   configuration decodes to an object, whatever other tags it carries. The URL is the
   stripped content of the last `white_agent_url` block the regex reports (block `u`),
   the configuration that of the last `env_config` block (block `g`), and a field the
   object lacks takes its default: 1000 products, human goals on.
   */
  lemma TaggedTaskIsAccepted(decodeConfig: string -> ConfigJson, text: string) returns (u: nat, g: nat)
    requires Given(ParseTags(text), UrlTag) && Given(ParseTags(text), ConfigTag)
    ensures var hits := Scan(text, 0);
      && u < |hits| && hits[u].m.name == UrlTag
      && g < |hits| && hits[g].m.name == ConfigTag
      && (forall j :: u < j < |hits| ==> hits[j].m.name != UrlTag)
      && (forall j :: g < j < |hits| ==> hits[j].m.name != ConfigTag)
    ensures var hits := Scan(text, 0);
      var t := ReadTask(decodeConfig, text);
      var d := decodeConfig(Strip(hits[g].m.content));
      && (t.Accepted? <==> d.ConfigObject?)
      && (d.ConfigMalformed? ==> t == BadConfig(d.error))
      && (t.Accepted? ==> t.url == Strip(hits[u].m.content) && t.settings.observationMode == "text")
      && (d.ConfigObject? && d.numProducts.None? ==> t.settings.numProducts == 1000)
      && (d.ConfigObject? && d.numProducts.Some? ==> t.settings.numProducts == d.numProducts.value)
      && (d.ConfigObject? && d.humanGoals.None? ==> t.settings.humanGoals)
      && (d.ConfigObject? && d.humanGoals.Some? ==> t.settings.humanGoals == d.humanGoals.value)
  {
    u := CollectLastWins(Scan(text, 0), UrlTag);
    g := CollectLastWins(Scan(text, 0), ConfigTag);
  }

  /**
   An evaluation reported on the queue ran at most the default 50 rounds and says
   `success` exactly when its final reward is 1.0.
   */
  lemma ReportedRunIsBounded(a: Agents, decodeConfig: string -> ConfigJson, userInput: string)
    ensures var x := Execute(a, decodeConfig, userInput);
      forall e | e in x.events && e.Evaluated? ::
        && 1 <= e.metrics.steps <= DefaultMaxSteps
        && (e.success <==> e.metrics.reward == 1.0)
  {
    match ReadTask(decodeConfig, userInput)
    case Rejected =>
    case BadConfig(_) =>
    case Accepted(url, settings) =>
      RewardIsLastStepReward(Config(a.solverAt(url), a.envFor(settings), a.decode), DefaultMaxSteps);
  }
}
