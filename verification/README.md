# WebShop assessor: tag codec and evaluation loop

This project models two pieces of the WebShop assessor ("green agent") in Dafny and
proves properties about them.

1. The tag codec `parse_tags`. Agents smuggle machine-readable fields inside free text
   as `<name>content</name>` blocks. `parse_tags` finds them with the regex
   `<(\w+)>(.*?)</\1>` under DOTALL through `re.findall`. It returns a dictionary from
   each name to the stripped content of the last block of that name.
2. The evaluation loop `ask_agent_to_solve` and the task intake of
   `WebShopGreenAgentExecutor.execute`.
   - The assessor sends the WebShop task to the solver agent ("white agent") and reads
     an action from each reply. The action is the `action` field of a `<json>` block,
     or else the whole reply stripped.
   - It steps the shop environment with that action and feeds the result back, for at
     most `max_num_steps` rounds (default 50).
   - Errors while decoding or stepping do not end the episode: they become an error
     message for the next round.
   - The intake reads the `white_agent_url` and `env_config` tags, decodes the
     configuration and fills in two defaults before starting the loop.

The modules follow the program's structure:

- `PyValues`: `Option` (a value or `None`) and `Result` (returned or raised).
- `Text`: the Python string behaviour the codec relies on:
  - the ASCII `\w` class;
  - `str.isspace` and `str.strip()`;
  - substring search.
- `Tags`: the regex modelled twice and tied together by `ScanIsFindAll`:
  - a character scanner (`MatchAt`, `Scan`), which does what the regex engine does;
  - a declarative statement of a regex match and of `re.findall`'s list of leftmost,
    non-overlapping matches (`IsMatchAt`, `IsFindAll`);
  - the dictionary loop (`Collect`) and `ParseTags`.
- `TagLaws`: what `parse_tags` returns, and how it decodes what producers write.
- `Episode`: the loop as a pure function of three parameters:
  - the solver agent, a function of every message sent so far;
  - the environment, its reset result plus a step function of every action handed to
    it so far;
  - the JSON decoder.
- `EpisodeLaws`: a loop-free description of a run (`Describes`), proved to hold of the
  loop's result and of no other outcome. Also the properties about context ids,
  termination, failed rounds, history and reward.
- `Intake`: the executor's tag check, configuration defaults and reported events.

Behaviour of the code that a reader might not expect, and that the model keeps:

- **Context id.** The first context id that a reply actually carries is adopted, not
  necessarily the id of the first reply. The code only tests `context_id is None`
  (agent.py:88-89).
- **History length.** Rounds whose action could not be decoded, or whose step raised,
  add no history entry. A run that used up 50 steps may report fewer than 50 entries.
- **Empty action.** A `json` object without an `action` field yields the empty action
  `""`, which is handed to `env.step`.
- **Exceptions outside the `try`.** These end the run with an exception instead of
  being recovered:
  - `send_message` raising;
  - a non-success response;
  - a reply with no text part.
- **Non-positive step budget.** With `max_num_steps <= 0` the loop never runs and
  reading `step` raises. The model reports this as `Aborted(StepUnbound, [], [])`.

## Model

| member | source | states |
|---|---|---|
| Text.Strip | agentify-webshop/src/my_util/__init__.py:58 | `strip()` returns a slice of its input with only whitespace cut from either end, and neither end of the result is whitespace |
| Text.StripUnique | agentify-webshop/src/my_util/__init__.py:58 | any split of a string into leading whitespace, a middle that does not start or end with whitespace, and trailing whitespace has `strip()` as its middle |
| Text.StripFixesStripped | agentify-webshop/src/my_util/__init__.py:58 | `strip()` leaves a string unchanged exactly when neither end of it is whitespace |
| Text.StripIdempotent | agentify-webshop/src/my_util/__init__.py:58 | stripping a stored tag value again changes nothing |
| Text.FindFromSkipsNone | agentify-webshop/src/my_util/__init__.py:55 | the search for the closer that ends a lazy `(.*?)` reports the first occurrence at or after its start, and reports none only when there is none |
| Tags.WordRunIsMaximal | agentify-webshop/src/my_util/__init__.py:55 | the name greedy `\w+` takes is all word characters and is followed by the end of the text or a non-word character |
| Tags.Collect | agentify-webshop/src/my_util/__init__.py:57-58 | the dictionary's keys are exactly the names of the reported blocks |
| Tags.MatchAtSound | agentify-webshop/src/my_util/__init__.py:55 | a block the scanner finds at a position is a regex match there and lies inside the text |
| Tags.MatchAtComplete | agentify-webshop/src/my_util/__init__.py:55 | every regex match at a position is the one the scanner finds there |
| Tags.MatchAtIsRegexMatch | agentify-webshop/src/my_util/__init__.py:55 | the scanner's result at a position is a given match if and only if the regex matches there with those groups |
| Tags.MatchIsUnique | agentify-webshop/src/my_util/__init__.py:55 | the regex has at most one match at a position: the backreference and the lazy group force both groups |
| Tags.ScanIsFindAll | agentify-webshop/src/my_util/__init__.py:55-56 | the scanner's list is a given list of blocks if and only if that list is the leftmost non-overlapping match list of `re.findall` |
| Tags.FindAllIsUnique | agentify-webshop/src/my_util/__init__.py:56 | a text has only one leftmost non-overlapping match list |
| Tags.ScanHitsDoNotOverlap | agentify-webshop/src/my_util/__init__.py:56 | the reported blocks lie inside the text, in order, each starting at or after the end of the previous one |
| TagLaws.CollectLastWins | agentify-webshop/src/my_util/__init__.py:57-58 | each key's value is the stripped content of a block of that name with no later block of the same name |
| TagLaws.LastHitDecides | agentify-webshop/src/my_util/__init__.py:57-58 | conversely, the last block of a name is in the dictionary with its stripped content |
| TagLaws.ScanHitsMatch | agentify-webshop/src/my_util/__init__.py:55-56 | every block reported is a regex match in the text |
| TagLaws.ParsedTagsWellFormed | agentify-webshop/src/my_util/__init__.py:52-59 | every key is a word whose `<k>` and `</k>` occur in the text; its value is stripped and never contains `</k>` |
| TagLaws.LastMatchWins | agentify-webshop/src/my_util/__init__.py:57-58 | `parse_tags` keeps the stripped content of the last block of each name |
| TagLaws.NoBlockNoTags | agentify-webshop/src/my_util/__init__.py:52-59 | the result is empty if and only if the regex matches nowhere in the text |
| TagLaws.PlainTextHasNoTags | agentify-webshop/src/my_util/__init__.py:52-59 | a text without `<` yields no tags |
| TagLaws.FindAllSuffix | agentify-webshop/src/my_util/__init__.py:56 | the match list of a suffix, shifted by the prefix length, is the match list of the whole text from there on |
| TagLaws.PlainPrefix | agentify-webshop/src/my_util/__init__.py:52-59 | prose without `<` in front of a text does not change what it decodes to |
| TagLaws.BlockThenRest | agentify-webshop/src/my_util/__init__.py:52-59 | a block `<n>c</n>` in front of a text, with no `</n>` inside `c`, adds `n` with `c` stripped, and later blocks of the same name override it |
| TagLaws.RoundTrip | agentify-webshop/src/my_util/__init__.py:52-59 | decoding one encoded block gives back its name and its stripped content |
| TagLaws.AdjacentBlocks | agentify-webshop/src/my_util/__init__.py:52-59 | two adjacent blocks with different names both decode |
| TagLaws.DuplicateNameKeepsLast | agentify-webshop/src/my_util/__init__.py:57-58 | of two blocks with the same name, the later content is kept |
| TagLaws.NestedBlockNotReported | agentify-webshop/src/my_util/__init__.py:55-58 | a block nested in another is not reported itself: the outer content is returned verbatim, inner tags included |
| TagLaws.NestedExample | agentify-webshop/src/my_util/__init__.py:52-59 | `<a><b>x</b></a>` decodes to `{a: "<b>x</b>"}` |
| Episode.Apply | agentify-webshop/src/green_agent/agent.py:108-126 | a round never changes what was sent or the context id, and appends exactly that round to the log |
| Episode.Loop | agentify-webshop/src/green_agent/agent.py:77-126 | each iteration sends exactly one message and never more than `max_num_steps` in all; a run that ends by an exception has one more send than completed rounds |
| Episode.AskAgentToSolve | agentify-webshop/src/green_agent/agent.py:44-133 | a non-positive budget raises before any send; a returned run took between 1 and `max_num_steps` steps, one send per step; an aborted run stopped at a send of its last round |
| EpisodeLaws.AdoptedAppend | agentify-webshop/src/green_agent/agent.py:88-89 | keeping the first context id seen and replacing it only while none is held, round by round, gives the first id any reply carried |
| EpisodeLaws.FailedRoundKeepsState | agentify-webshop/src/green_agent/agent.py:96-126 | a round that failed to decode or step leaves reward, `done` and history as they were and only sets the next message to its error feedback |
| EpisodeLaws.ApplyKeepsInv | agentify-webshop/src/green_agent/agent.py:84-126 | after an answered round, the locals are again what the rounds so far call for: sends, context id, next message, history and reward |
| EpisodeLaws.LoopFacts | agentify-webshop/src/green_agent/agent.py:77-126 | the loop stops at the first round whose step reported `done`, after the last allowed round, or at a send whose reply raises, with every round what the agents made of its send |
| EpisodeLaws.RunIsDescribed | agentify-webshop/src/green_agent/agent.py:44-133 | the loop's result satisfies the loop-free description of a run |
| EpisodeLaws.DescribedRunIsUnique | agentify-webshop/src/green_agent/agent.py:44-133 | the description admits at most one run for given agents and budget |
| EpisodeLaws.RunIsTheDescribedOne | agentify-webshop/src/green_agent/agent.py:44-133 | an outcome is the loop's result if and only if it satisfies the description |
| EpisodeLaws.AdoptedKept | agentify-webshop/src/green_agent/agent.py:88-89 | once a context id is adopted, later replies never replace it |
| EpisodeLaws.AdoptedIsFirstReceived | agentify-webshop/src/green_agent/agent.py:88-89 | the adopted id is the one carried by the first reply that carried any |
| EpisodeLaws.NothingAdopted | agentify-webshop/src/green_agent/agent.py:72-89 | no id is adopted while every reply came without one |
| EpisodeLaws.ContextIdIsAdoptedOnce | agentify-webshop/src/green_agent/agent.py:72-89 | the first send carries no context id; every send carries the first id an earlier reply carried; once a send carries an id, every later send carries the same one |
| EpisodeLaws.StopsAtFirstDone | agentify-webshop/src/green_agent/agent.py:77-114 | a returned run stopped at the first round that reported `done`; a run where no round did used the whole budget |
| EpisodeLaws.FailedRoundRecovers | agentify-webshop/src/green_agent/agent.py:124-126 | a round that failed to decode or step adds no history entry and does not end the run; the next send, which the budget allows, carries its error |
| EpisodeLaws.RewardIsLastStepReward | agentify-webshop/src/green_agent/agent.py:73-130 | the reported reward is that of the last successful step, not a sum, and 0.0 when none succeeded; `success` holds exactly when it is 1.0 |
| EpisodeLaws.AttemptsAreReachedActions | agentify-webshop/src/green_agent/agent.py:96-108 | an action is among those replayed to `env.step` exactly when some round's action reached the step, whether the step returned or raised; an action that failed to decode is never replayed |
| EpisodeLaws.SuccessesCount | agentify-webshop/src/green_agent/agent.py:110 | the history has at most one entry per round, one per round when every step went through, and none when no step did |
| EpisodeLaws.PlainReplyIsAction | agentify-webshop/src/green_agent/agent.py:97-103 | a reply without `<` is taken as the action itself, stripped |
| EpisodeLaws.JsonReplyIsDecoded | agentify-webshop/src/green_agent/agent.py:97-100 | a reply opening with a `json` block takes its action from the decoded, stripped block, and a decoding failure becomes the round's error |
| EpisodeLaws.MissingActionFieldIsEmpty | agentify-webshop/src/green_agent/agent.py:100 | a `json` object without an `action` field asks for the empty action |
| Intake.MissingTagIsRejected | agentify-webshop/src/green_agent/agent.py:139-147 | a task with either tag missing or empty gets exactly the one error event; no other task gets that answer |
| Intake.BlockInProse | agentify-webshop/src/green_agent/agent.py:139-141 | a tag block after prose without `<` decodes as if the prose were absent |
| Intake.TwoBlocksInProse | agentify-webshop/src/green_agent/agent.py:139-141 | two differently named blocks in prose without `<` both decode |
| Intake.LauncherTaskTags | agentify-webshop/src/green_agent/agent.py:139-141 | a launcher task text decodes to its stripped URL and stripped configuration |
| Intake.TaggedTaskIsAccepted | agentify-webshop/src/green_agent/agent.py:139-159 | a task that gives both tags a non-empty value is accepted exactly when its configuration decodes to an object, whatever other tags it has. The URL is the stripped content of the last `white_agent_url` block the regex reports. The configuration comes from the last `env_config` block. A decoding failure is passed on. An absent field becomes 1000 products or human goals on; a present field is used as given |
| Intake.LauncherTaskIsAccepted | agentify-webshop/src/green_agent/agent.py:139-159 | a launcher task text is accepted with its stripped URL and the configuration's values or their defaults, or fails where decoding the configuration raises |
| Intake.ReportedRunIsBounded | agentify-webshop/src/green_agent/agent.py:164-172 | a reported evaluation ran between 1 and the default 50 steps, and reports success exactly when its reward is 1.0 |

## Left out

- `send_message` and the agent-card lookup are network calls. They are left out. The
  solver agent is a parameter: a function from every message sent so far to a success
  reply, a non-success response, or an exception.
- `get_text_parts` (agent.py:91) is not a network call. It keeps the text parts of
  `res_result.parts`, in order. The model does not filter the parts itself: a success
  reply carries that filter's output directly, as `Answer.textParts` (episode.dfy).
- A success response whose result is a Task rather than a Message has no `parts`, so
  `res_result.parts` (agent.py:91) raises outside the `try`. The solver reply type has no
  such case; the model reaches that outcome only through the exception or non-success
  reply the solver parameter may return.
- `wait_agent_ready`, the launcher, the solver agent's own logic and the server
  start-up (`start_green_agent`, uvicorn, the TOML agent card) are outside the loop and
  the codec. They are not modelled.
- The WebShop environment is not modelled.
  - `WebAgentTextEnv` is a parameter built from the settings.
  - `env.reset()` is its instruction and first observation.
  - `env.step` is a function of all actions handed to it so far.
  - The constructor and `reset` raising are not modelled.
  - `info` is ignored.
- Rewards are real numbers. Floating-point rounding is not modelled, and the `== 1.0`
  test is exact equality on reals.
- `json.loads` is an abstract decoder parameter. It yields:
  - for an action block, an object with or without a string `action` field, or a
    failure;
  - for `env_config`, an integer `num_products`, a boolean `human_goals`, each possibly
    absent, or a failure.

  Non-string actions, non-integer or non-boolean configuration values, and the JSON
  grammar are not modelled.
- The prompt wording is left out. The three prompt templates keep only the values they
  embed: instruction and observation, action and observation, or the error text.
- `print`, `total_cost`, `time_used` and the text of the final event are left out. The
  final event is modelled as the success flag and the metrics; its emoji and
  `json.dumps` layout are not.
- `\w` is modelled as ASCII letters, digits and underscore. Python's Unicode `\w` also
  accepts other letters and digits.
- Dictionary insertion order is not modelled. The result is a map.
- The exception type raised for a non-positive `max_num_steps` is not named. The run
  ends with `StepUnbound`.
- `cancel` always raises `NotImplementedError` and is not modelled.
- The state an aborted run ends in does not adopt the failing reply's context id. No
  caller can observe it, because the exception discards the locals.
