/**
 The evaluation loop `ask_agent_to_solve`: the assessor sends the WebShop task to the
 solver agent, reads an action back from each reply, applies it to the shop
 environment and feeds the result back, for at most `max_num_steps` rounds.

 Everything the loop talks to is a parameter. The solver agent (`send_message` bound to
 the solver's URL) is a function of the whole list of messages sent so far, the
 environment is its reset result plus a step function of all actions handed to it so
 far, and `json.loads` is an abstract decoder. With those fixed, a run is the pure
 function `AskAgentToSolve`.
 */
module Episode {

  import opened PyValues
  import opened Text
  import opened Tags

  /** Default of the `max_num_steps` parameter. */
  const DefaultMaxSteps: int := 50

  /** What the assessor says; the three prompt templates, without their fixed wording. */
  datatype Message =
    | InitialTask(instruction: string, obs: string)
    | Executed(action: string, obs: string)
    | ErrorFeedback(error: string)

  /** One call of `send_message`: the text and the context id it carries. */
  datatype Sent = Sent(message: Message, contextId: Option<string>)

  /** What a call of `send_message` gives back. */
  datatype Reply =
    | Answer(contextId: Option<string>, textParts: seq<string>)  // a success response
    | ErrorResponse                                              // any other JSON-RPC response
    | SendRaised(error: string)                                  // the call itself raised

  /** `json.loads(s).get("action", "")`: an object with or without a string `action`
      field, or a failure (undecodable text, or a decoded value without `get`). */
  datatype Decoded = Object(action: Option<string>) | Malformed(error: string)

  /** What `env.step` gives back. */
  datatype EnvReply = Observed(obs: string, reward: real, done: bool) | StepRaised(error: string)

  /** The shop environment after `env.reset()`, and its step function over every action
      handed to `env.step` so far, the current one last. */
  datatype Env = Env(instruction: string, firstObs: string, step: seq<string> -> EnvReply)

  datatype Config = Config(solver: seq<Sent> -> Reply, env: Env, decode: string -> Decoded)

  /** What the `try` block of one round did with the reply text. */
  datatype Turn =
    | Stepped(action: string, obs: string, reward: real, done: bool)
    | ActionRejected(error: string)        // decoding the action raised
    | EnvFailed(action: string, error: string)   // `env.step` raised

  /** One completed round: the context id of the reply, its first text part, the turn. */
  datatype Round = Round(received: Option<string>, text: string, turn: Turn)

  /** One `(action, reward)` pair of `history`. */
  datatype Entry = Entry(action: string, reward: real)

  /** The locals of the loop, plus what has been sent and done so far. */
  datatype State = State(
    contextId: Option<string>,
    reward: real,
    done: bool,
    history: seq<Entry>,
    next: Message,
    sent: seq<Sent>,
    log: seq<Round>)

  /** Exceptions that escape the loop and end the run. */
  datatype Abort =
    | SendFailed(error: string)   // `send_message` raised
    | NotSuccessResponse          // the `isinstance` assertion failed
    | NoTextPart                  // `text_parts[0]` on an empty list
    | StepUnbound                 // `step` read after a loop that never ran

  /** The dictionary the function returns. */
  datatype Metrics = Metrics(success: bool, reward: real, steps: nat, history: seq<Entry>)

  datatype Outcome =
    | Finished(metrics: Metrics, sent: seq<Sent>, log: seq<Round>)
    | Aborted(reason: Abort, sent: seq<Sent>, log: seq<Round>)

  datatype End = End(state: State, abort: Option<Abort>)

  /** The action a reply asks for: the `action` field of its `json` tag, `""` when the
      field is absent, or the whole reply stripped when there is no `json` tag. */
  function ChooseAction(decode: string -> Decoded, text: string): Result<string, string> {
    var tags := ParseTags(text);
    if "json" in tags then
      match decode(tags["json"])
      case Object(action) => Success(OrDefault(action, ""))
      case Malformed(error) => Failure(error)
    else
      Success(Strip(text))
  }

  /** The `try` block: choose the action, then step the environment with it. */
  function Attempt(c: Config, tried: seq<string>, text: string): Turn {
    match ChooseAction(c.decode, text)
    case Failure(error) => ActionRejected(error)
    case Success(action) =>
      match c.env.step(tried + [action])
      case Observed(obs, reward, done) => Stepped(action, obs, reward, done)
      case StepRaised(error) => EnvFailed(action, error)
  }

  /** Every action handed to `env.step` in a log, in order. */
  function Attempts(log: seq<Round>): (tried: seq<string>)
    ensures |tried| <= |log|
  {
    if log == [] then []
    else
      var last := log[|log| - 1].turn;
      Attempts(log[..|log| - 1]) + (if last.Stepped? || last.EnvFailed? then [last.action] else [])
  }

  /** `if context_id is None: context_id = res_result.context_id`. */
  function Adopt(current: Option<string>, received: Option<string>): Option<string> {
    if current.None? then received else current
  }

  /** True when a turn makes the loop `break`. */
  predicate Ends(t: Turn) {
    t.Stepped? && t.done
  }

  /** The locals after one completed round. A failed turn only replaces the next message. */
  function Apply(s: State, r: Round): (s': State)
    ensures s'.sent == s.sent && s'.log == s.log + [r] && s'.contextId == s.contextId
  {
    var log := s.log + [r];
    match r.turn
    case Stepped(action, obs, reward, done) =>
      s.(reward := reward, done := done, history := s.history + [Entry(action, reward)],
         next := if done then s.next else Executed(action, obs), log := log)
    case ActionRejected(error) => s.(next := ErrorFeedback(error), log := log)
    case EnvFailed(_, error) => s.(next := ErrorFeedback(error), log := log)
  }

  function InitialState(c: Config): State {
    State(None, 0.0, false, [], InitialTask(c.env.instruction, c.env.firstObs), [], [])
  }

  /** The loop from the round numbered `|s.log|` on. */
  function Loop(c: Config, max: nat, s: State): (e: End)
    requires |s.sent| == |s.log| < max
    ensures |s.sent| < |e.state.sent| <= max
    ensures s.log <= e.state.log && s.sent <= e.state.sent
    ensures |e.state.sent| == |e.state.log| + (if e.abort.Some? then 1 else 0)
    decreases max - |s.log|
  {
    var sent := s.sent + [Sent(s.next, s.contextId)];
    match c.solver(sent)
    case SendRaised(error) => End(s.(sent := sent), Some(SendFailed(error)))
    case ErrorResponse => End(s.(sent := sent), Some(NotSuccessResponse))
    case Answer(received, parts) =>
      if |parts| == 0 then End(s.(sent := sent), Some(NoTextPart))
      else
        var turn := Attempt(c, Attempts(s.log), parts[0]);
        var s' := Apply(s.(contextId := Adopt(s.contextId, received), sent := sent),
                        Round(received, parts[0], turn));
        if Ends(turn) || |s'.log| == max then End(s', None) else Loop(c, max, s')
  }

  /** The exception the loop ended with, or the returned dictionary built from its locals. */
  function Report(e: End): Outcome {
    var s := e.state;
    match e.abort
    case Some(reason) => Aborted(reason, s.sent, s.log)
    case None => Finished(Metrics(s.reward == 1.0, s.reward, |s.log|, s.history), s.sent, s.log)
  }

  /** `ask_agent_to_solve(white_agent_url, env, maxSteps)`. */
  function AskAgentToSolve(c: Config, maxSteps: int): (o: Outcome)
    ensures maxSteps <= 0 <==> o == Aborted(StepUnbound, [], [])
    ensures o.Finished? ==> 1 <= o.metrics.steps <= maxSteps && o.metrics.steps == |o.log| == |o.sent|
    ensures o.Aborted? && maxSteps > 0 ==> |o.log| < |o.sent| == |o.log| + 1 <= maxSteps
  {
    if maxSteps <= 0 then Aborted(StepUnbound, [], [])
    else Report(Loop(c, maxSteps, InitialState(c)))
  }
}
