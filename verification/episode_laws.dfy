/**
 What a run of `ask_agent_to_solve` promises, stated against reference definitions
 over the log of completed rounds rather than the loop's own locals.
 */
module EpisodeLaws {

  import opened PyValues
  import opened Text
  import opened Tags
  import opened TagLaws
  import opened Episode

  /** The first context id any reply carried, scanning from the first round. */
  function Adopted(log: seq<Round>): Option<string> {
    if log == [] then None
    else if log[0].received.Some? then log[0].received
    else Adopted(log[1..])
  }

  /** The message that follows a turn that did not end the episode. */
  function Feedback(t: Turn): Message {
    match t
    case Stepped(action, obs, _, _) => Executed(action, obs)
    case ActionRejected(error) => ErrorFeedback(error)
    case EnvFailed(_, error) => ErrorFeedback(error)
  }

  /** The message sent after the rounds of `log`. */
  function NextMessage(c: Config, log: seq<Round>): Message {
    if log == [] then InitialTask(c.env.instruction, c.env.firstObs)
    else Feedback(log[|log| - 1].turn)
  }

  /** One history entry per round in which the environment stepped. */
  function Successes(log: seq<Round>): seq<Entry> {
    if log == [] then []
    else
      var t := log[|log| - 1].turn;
      Successes(log[..|log| - 1]) + (if t.Stepped? then [Entry(t.action, t.reward)] else [])
  }

  /** The reward of the last history entry, and 0.0 before any. */
  function LastReward(history: seq<Entry>): real {
    if history == [] then 0.0 else history[|history| - 1].reward
  }

  /** Send number `k` carries the message and context id the rounds before it call for. */
  ghost predicate Sends(c: Config, sent: seq<Sent>, log: seq<Round>)
    requires |sent| <= |log| + 1
  {
    forall k | 0 <= k < |sent| :: sent[k] == Sent(NextMessage(c, log[..k]), Adopted(log[..k]))
  }

  /** Round `r` is what the solver answered to `sent` and what the environment then did. */
  ghost predicate Answered(c: Config, sent: seq<Sent>, before: seq<Round>, r: Round) {
    var reply := c.solver(sent);
    reply.Answer? && reply.contextId == r.received && |reply.textParts| > 0
    && reply.textParts[0] == r.text && r.turn == Attempt(c, Attempts(before), r.text)
  }

  /** Every round of `log` is what the oracles produced for it. */
  ghost predicate Rounds(c: Config, sent: seq<Sent>, log: seq<Round>)
    requires |log| <= |sent|
  {
    forall k | 0 <= k < |log| :: Answered(c, sent[..k + 1], log[..k], log[k])
  }

  /** The solver's reply to `sent` raises the exception `reason`. */
  ghost predicate Refuses(c: Config, sent: seq<Sent>, reason: Abort) {
    match c.solver(sent)
    case SendRaised(error) => reason == SendFailed(error)
    case ErrorResponse => reason == NotSuccessResponse
    case Answer(_, parts) => parts == [] && reason == NoTextPart
  }

  /** The locals at the top of an iteration of the loop. */
  ghost predicate Inv(c: Config, s: State) {
    && |s.sent| == |s.log|
    && Sends(c, s.sent, s.log)
    && Rounds(c, s.sent, s.log)
    && s.contextId == Adopted(s.log)
    && s.next == NextMessage(c, s.log)
    && s.history == Successes(s.log)
    && s.reward == LastReward(s.history)
    && (forall k | 0 <= k < |s.log| :: !Ends(s.log[k].turn))
  }

  /** What the loop leaves behind, from the first round on. */
  ghost predicate EndFacts(c: Config, max: nat, e: End) {
    var s := e.state;
    && |s.log| <= |s.sent| <= |s.log| + 1
    && Rounds(c, s.sent, s.log) && Sends(c, s.sent, s.log)
    && (forall k | 0 <= k < |s.log| - 1 :: !Ends(s.log[k].turn))
    && s.history == Successes(s.log)
    && s.reward == LastReward(s.history)
    && match e.abort
       case Some(reason) =>
         |s.sent| == |s.log| + 1 && Refuses(c, s.sent, reason)
         && (forall k | 0 <= k < |s.log| :: !Ends(s.log[k].turn))
       case None =>
         |s.sent| == |s.log| && 0 < |s.log|
         && (Ends(s.log[|s.log| - 1].turn) || |s.log| == max)
  }

  lemma {:induction false} AdoptedAppend(log: seq<Round>, r: Round)
    ensures Adopted(log + [r]) == Adopt(Adopted(log), r.received)
    decreases |log|
  {
    if log != [] {
      assert (log + [r])[1..] == log[1..] + [r];
      AdoptedAppend(log[1..], r);
    }
  }

  lemma PrefixOfAppend<T>(xs: seq<T>, x: T, k: nat)
    requires k <= |xs|
    ensures (xs + [x])[..k] == xs[..k]
  {
  }

  lemma SendsAppend(c: Config, sent: seq<Sent>, log: seq<Round>, r: Round)
    requires |sent| == |log| + 1 && Sends(c, sent, log)
    ensures Sends(c, sent, log + [r])
  {
    forall k | 0 <= k < |sent| ensures sent[k] == Sent(NextMessage(c, (log + [r])[..k]), Adopted((log + [r])[..k])) {
      PrefixOfAppend(log, r, k);
    }
  }

  lemma SendsSend(c: Config, sent: seq<Sent>, log: seq<Round>, x: Sent)
    requires |sent| == |log| && Sends(c, sent, log)
    requires x == Sent(NextMessage(c, log), Adopted(log))
    ensures Sends(c, sent + [x], log)
  {
    assert log[..|log|] == log;
  }

  lemma RoundsSend(c: Config, sent: seq<Sent>, log: seq<Round>, x: Sent)
    requires |log| <= |sent| && Rounds(c, sent, log)
    ensures Rounds(c, sent + [x], log)
  {
    forall k | 0 <= k < |log| ensures Answered(c, (sent + [x])[..k + 1], log[..k], log[k]) {
      PrefixOfAppend(sent, x, k + 1);
    }
  }

  lemma RoundsAppend(c: Config, sent: seq<Sent>, log: seq<Round>, r: Round)
    requires |sent| == |log| + 1 && Rounds(c, sent, log)
    requires Answered(c, sent, log, r)
    ensures Rounds(c, sent, log + [r])
  {
    var log' := log + [r];
    forall k | 0 <= k < |log'| ensures Answered(c, sent[..k + 1], log'[..k], log'[k]) {
      PrefixOfAppend(log, r, k);
      if k == |log| {
        assert sent[..k + 1] == sent;
      }
    }
  }

  /** The history gains an entry exactly for a round in which the environment stepped. */
  lemma SuccessesAppend(log: seq<Round>, r: Round)
    ensures Successes(log + [r])
         == Successes(log) + (if r.turn.Stepped? then [Entry(r.turn.action, r.turn.reward)] else [])
  {
    assert (log + [r])[..|log|] == log;
  }

  /** A turn whose action was handed to `env.step`, whether the step returned or raised. */
  predicate Reached(t: Turn) {
    t.Stepped? || t.EnvFailed?
  }

  /**
   The actions replayed to `env.step` are exactly the actions of the rounds whose turn
   reached the environment; a rejected action is never among them.
   */
  lemma {:induction false} AttemptsAreReachedActions(log: seq<Round>, a: string)
    ensures a in Attempts(log)
        <==> exists k :: 0 <= k < |log| && Reached(log[k].turn) && log[k].turn.action == a
  {
    if log != [] {
      var init := log[..|log| - 1];
      var last := log[|log| - 1];
      AttemptsAreReachedActions(init, a);
      assert forall k :: 0 <= k < |init| ==> init[k] == log[k];
      if exists k :: 0 <= k < |log| && Reached(log[k].turn) && log[k].turn.action == a {
        var k :| 0 <= k < |log| && Reached(log[k].turn) && log[k].turn.action == a;
        if k < |init| {
          assert init[k] == log[k];
        }
      }
      if a in Attempts(init) {
        var k :| 0 <= k < |init| && Reached(init[k].turn) && init[k].turn.action == a;
        assert log[k] == init[k];
      }
      if Reached(last.turn) && last.turn.action == a {
        assert log[|log| - 1] == last;
      }
    }
  }

  /**
   A round whose action could not be decoded or whose step raised changes only the next
   message, to the error feedback: reward, `done` and history stay as they were.
   */
  lemma FailedRoundKeepsState(s: State, r: Round)
    requires !r.turn.Stepped?
    ensures var s' := Apply(s, r);
      && s'.reward == s.reward && s'.done == s.done && s'.history == s.history
      && s'.next == ErrorFeedback(r.turn.error) && s'.log == s.log + [r]
  {
  }

  /** One completed round keeps the loop invariant (all but the "no round ended" part). */
  lemma ApplyKeepsInv(c: Config, s: State, received: Option<string>, parts: seq<string>)
    requires Inv(c, s)
    requires c.solver(s.sent + [Sent(s.next, s.contextId)]) == Answer(received, parts) && |parts| > 0
    ensures
      var sent := s.sent + [Sent(s.next, s.contextId)];
      var r := Round(received, parts[0], Attempt(c, Attempts(s.log), parts[0]));
      var s' := Apply(s.(contextId := Adopt(s.contextId, received), sent := sent), r);
      && |s'.sent| == |s'.log|
      && Sends(c, s'.sent, s'.log)
      && Rounds(c, s'.sent, s'.log)
      && s'.contextId == Adopted(s'.log)
      && (!Ends(r.turn) ==> s'.next == NextMessage(c, s'.log))
      && s'.history == Successes(s'.log)
      && s'.reward == LastReward(s'.history)
  {
    var sent := s.sent + [Sent(s.next, s.contextId)];
    var r := Round(received, parts[0], Attempt(c, Attempts(s.log), parts[0]));
    SendsSend(c, s.sent, s.log, Sent(s.next, s.contextId));
    SendsAppend(c, sent, s.log, r);
    RoundsSend(c, s.sent, s.log, Sent(s.next, s.contextId));
    RoundsAppend(c, sent, s.log, r);
    AdoptedAppend(s.log, r);
    SuccessesAppend(s.log, r);
  }

  lemma NoEndsAppend(log: seq<Round>, r: Round)
    requires forall k | 0 <= k < |log| :: !Ends(log[k].turn)
    ensures forall k | 0 <= k < |log + [r]| - 1 :: !Ends((log + [r])[k].turn)
    ensures !Ends(r.turn) ==> forall k | 0 <= k < |log + [r]| :: !Ends((log + [r])[k].turn)
  {
  }

  /** An exception out of `send_message` or the reply handling ends the loop as it stands. */
  lemma AbortFacts(c: Config, max: nat, s: State, reason: Abort)
    requires Inv(c, s)
    requires Refuses(c, s.sent + [Sent(s.next, s.contextId)], reason)
    ensures EndFacts(c, max, End(s.(sent := s.sent + [Sent(s.next, s.contextId)]), Some(reason)))
  {
    var x := Sent(s.next, s.contextId);
    SendsSend(c, s.sent, s.log, x);
    RoundsSend(c, s.sent, s.log, x);
  }

  /** The state after the last round, the one that ended the episode or used up the steps. */
  lemma FinishFacts(c: Config, max: nat, s: State, r: Round)
    requires |s.sent| == |s.log| + 1 && forall k | 0 <= k < |s.log| :: !Ends(s.log[k].turn)
    requires Rounds(c, s.sent, s.log + [r]) && Sends(c, s.sent, s.log + [r])
    requires Successes(s.log + [r]) == s.history && s.reward == LastReward(s.history)
    requires Ends(r.turn) || |s.log| + 1 == max
    ensures EndFacts(c, max, End(s.(log := s.log + [r]), None))
  {
    NoEndsAppend(s.log, r);
  }

  /** The loop, run from a state that keeps the invariant, leaves `EndFacts` behind. */
  lemma {:induction false} LoopFacts(c: Config, max: nat, s: State)
    requires |s.sent| == |s.log| < max && Inv(c, s)
    ensures EndFacts(c, max, Loop(c, max, s))
    decreases max - |s.log|
  {
    var x := Sent(s.next, s.contextId);
    var sent := s.sent + [x];
    match c.solver(sent)
    case SendRaised(error) => AbortFacts(c, max, s, SendFailed(error));
    case ErrorResponse => AbortFacts(c, max, s, NotSuccessResponse);
    case Answer(received, parts) =>
      if |parts| == 0 {
        AbortFacts(c, max, s, NoTextPart);
      } else {
        var r := Round(received, parts[0], Attempt(c, Attempts(s.log), parts[0]));
        var s' := Apply(s.(contextId := Adopt(s.contextId, received), sent := sent), r);
        ApplyKeepsInv(c, s, received, parts);
        if Ends(r.turn) || |s'.log| == max {
          FinishFacts(c, max, s'.(log := s.log), r);
          assert s'.(log := s.log).(log := s.log + [r]) == s';
        } else {
          NoEndsAppend(s.log, r);
          LoopFacts(c, max, s');
        }
      }
  }

  /** The part of a run's description shared by both ways it can end. */
  ghost predicate Traced(c: Config, max: int, sent: seq<Sent>, log: seq<Round>) {
    && |log| <= |sent| <= |log| + 1 && |sent| <= max
    && Sends(c, sent, log) && Rounds(c, sent, log)
    && (forall k | 0 <= k < |log| - 1 :: !Ends(log[k].turn))
  }

  /** How a traced run stops, and what it reports. */
  ghost predicate Stops(c: Config, max: int, o: Outcome) {
    match o
    case Aborted(reason, sent, log) =>
      |sent| == |log| + 1 && Refuses(c, sent, reason)
      && (forall k | 0 <= k < |log| :: !Ends(log[k].turn))
    case Finished(metrics, sent, log) =>
      var history := Successes(log);
      && |sent| == |log| && 0 < |log|
      && (Ends(log[|log| - 1].turn) || |log| == max)
      && metrics == Metrics(LastReward(history) == 1.0, LastReward(history), |log|, history)
  }

  /**
   A run described without the loop: the sends follow the rounds, every round is what the
   solver and the environment made of its send, and the run stops either at the first
   round whose step reported `done`, after `max` rounds, or at a send whose reply raises.
   */
  ghost predicate Describes(c: Config, max: int, o: Outcome) {
    if max <= 0 then o == Aborted(StepUnbound, [], [])
    else Traced(c, max, o.sent, o.log) && Stops(c, max, o)
  }

  lemma InitialStateKeepsInv(c: Config)
    ensures Inv(c, InitialState(c))
  {
  }

  lemma EndFactsDescribe(c: Config, max: nat, e: End)
    requires max > 0 && EndFacts(c, max, e) && |e.state.sent| <= max
    ensures Describes(c, max, Report(e))
  {
  }

  /** The loop does what the description says. */
  lemma RunIsDescribed(c: Config, max: int)
    ensures Describes(c, max, AskAgentToSolve(c, max))
  {
    if max > 0 {
      InitialStateKeepsInv(c);
      LoopFacts(c, max, InitialState(c));
      EndFactsDescribe(c, max, Loop(c, max, InitialState(c)));
    }
  }

  lemma SendAt(c: Config, sent: seq<Sent>, log: seq<Round>, k: nat)
    requires |sent| <= |log| + 1 && Sends(c, sent, log) && k < |sent|
    ensures sent[k] == Sent(NextMessage(c, log[..k]), Adopted(log[..k]))
  {
  }

  lemma RoundAt(c: Config, sent: seq<Sent>, log: seq<Round>, k: nat)
    requires |log| <= |sent| && Rounds(c, sent, log) && k < |log|
    ensures Answered(c, sent[..k + 1], log[..k], log[k])
  {
  }

  /** The oracles leave one possible round for a send. */
  lemma AnsweredUnique(c: Config, sent: seq<Sent>, before: seq<Round>, r1: Round, r2: Round)
    requires Answered(c, sent, before, r1) && Answered(c, sent, before, r2)
    ensures r1 == r2
  {
  }

  /** Equal sends before equal rounds give equal rounds. */
  lemma AgreeRound(c: Config, s1: seq<Sent>, l1: seq<Round>, s2: seq<Sent>, l2: seq<Round>, k: nat)
    requires 0 < k <= |l1| && k <= |l2| && k <= |s1| && k <= |s2|
    requires Answered(c, s1[..k], l1[..k - 1], l1[k - 1]) && Answered(c, s2[..k], l2[..k - 1], l2[k - 1])
    requires l1[..k - 1] == l2[..k - 1] && s1[..k] == s2[..k]
    ensures l1[..k] == l2[..k]
  {
    AnsweredUnique(c, s1[..k], l1[..k - 1], l1[k - 1], l2[k - 1]);
    assert l1[..k] == l1[..k - 1] + [l1[k - 1]];
    assert l2[..k] == l2[..k - 1] + [l2[k - 1]];
  }

  /** Equal rounds before a send, and equal sends before it, give equal sends. */
  lemma AgreeSend(c: Config, s1: seq<Sent>, l1: seq<Round>, s2: seq<Sent>, l2: seq<Round>, k: nat)
    requires |s1| <= |l1| + 1 && Sends(c, s1, l1) && |s2| <= |l2| + 1 && Sends(c, s2, l2)
    requires k < |s1| && k < |s2| && k <= |l1| && k <= |l2|
    requires l1[..k] == l2[..k] && s1[..k] == s2[..k]
    ensures s1[..k + 1] == s2[..k + 1]
  {
    SendAt(c, s1, l1, k);
    SendAt(c, s2, l2, k);
    assert s1[..k + 1] == s1[..k] + [s1[k]];
    assert s2[..k + 1] == s2[..k] + [s2[k]];
  }

  /** Two traced runs agree on their common rounds and on the send after them. */
  lemma {:induction false} Agree(c: Config, max: int, s1: seq<Sent>, l1: seq<Round>,
                                 s2: seq<Sent>, l2: seq<Round>, k: nat)
    requires Traced(c, max, s1, l1) && Traced(c, max, s2, l2)
    requires k <= |l1| && k <= |l2|
    ensures l1[..k] == l2[..k]
    ensures k < |s1| && k < |s2| ==> s1[..k + 1] == s2[..k + 1]
    decreases k
  {
    if k > 0 {
      Agree(c, max, s1, l1, s2, l2, k - 1);
      RoundAt(c, s1, l1, k - 1);
      RoundAt(c, s2, l2, k - 1);
      AgreeRound(c, s1, l1, s2, l2, k);
    }
    if k < |s1| && k < |s2| {
      AgreeSend(c, s1, l1, s2, l2, k);
    }
  }

  /** A traced run got a text reply to every send before its last round. */
  lemma AnsweredBefore(c: Config, max: int, s: seq<Sent>, l: seq<Round>, n: nat)
    requires Traced(c, max, s, l)
    ensures n < |l| ==> n + 1 <= |s| && c.solver(s[..n + 1]).Answer? && c.solver(s[..n + 1]).textParts != []
  {
    if n < |l| {
      RoundAt(c, s, l, n);
    }
  }

  /** No round of a traced run but the last reported `done`. */
  lemma NotEndedBefore(c: Config, max: int, s: seq<Sent>, l: seq<Round>, n: nat)
    requires Traced(c, max, s, l)
    ensures 0 < n < |l| ==> !Ends(l[n - 1].turn)
  {
  }

  /** How a described run stopped, in terms of its last send and last round. */
  lemma StopFacts(c: Config, max: int, o: Outcome)
    requires max > 0 && Describes(c, max, o)
    ensures o.Aborted? ==> |o.sent| == |o.log| + 1 && !(c.solver(o.sent).Answer? && c.solver(o.sent).textParts != [])
    ensures o.Finished? ==> |o.sent| == |o.log| && 0 < |o.log| && (Ends(o.log[|o.log| - 1].turn) || |o.log| == max)
  {
  }

  /** A described run is no shorter than another: a shorter one would have stopped at a
      round the other went past. */
  lemma NotShorter(c: Config, max: int, o1: Outcome, o2: Outcome)
    requires max > 0 && Describes(c, max, o1) && Describes(c, max, o2)
    ensures |o1.log| >= |o2.log|
  {
    if |o1.log| < |o2.log| {
      var n := |o1.log|;
      Agree(c, max, o1.sent, o1.log, o2.sent, o2.log, n);
      StopFacts(c, max, o1);
      if o1.Aborted? {
        AnsweredBefore(c, max, o2.sent, o2.log, n);
        SameSends(c, o1.sent, o2.sent, n);
      } else {
        NotEndedBefore(c, max, o2.sent, o2.log, n);
        SameLastRound(o1.log, o2.log, n);
      }
    }
  }

  /** Two runs that agree on the first `n + 1` sends got the same reply to the last of them. */
  lemma SameSends(c: Config, s1: seq<Sent>, s2: seq<Sent>, n: nat)
    requires |s1| == n + 1 && n < |s2| && s1[..n + 1] == s2[..n + 1]
    ensures c.solver(s1) == c.solver(s2[..n + 1])
  {
    assert s1[..n + 1] == s1;
  }

  /** Two logs that agree on their first `n` rounds agree on round `n - 1`. */
  lemma SameLastRound(l1: seq<Round>, l2: seq<Round>, n: nat)
    requires 0 < n == |l1| && n <= |l2| && l1[..n] == l2[..n]
    ensures l1[n - 1] == l2[n - 1]
  {
    assert l1[n - 1] == l1[..n][n - 1];
  }

  /** The description admits exactly one run. */
  lemma DescribedRunIsUnique(c: Config, max: int, o1: Outcome, o2: Outcome)
    requires Describes(c, max, o1) && Describes(c, max, o2)
    ensures o1 == o2
  {
    if max > 0 {
      NotShorter(c, max, o1, o2);
      NotShorter(c, max, o2, o1);
      var n := |o1.log|;
      Agree(c, max, o1.sent, o1.log, o2.sent, o2.log, n);
      assert o1.log == o1.log[..n] && o2.log == o2.log[..n];
      if n > 0 {
        Agree(c, max, o1.sent, o1.log, o2.sent, o2.log, n - 1);
      }
      assert o1.sent == o1.sent[..|o1.sent|] && o2.sent == o2.sent[..|o2.sent|];
    }
  }

  /** The loop's result is the one run the description admits. */
  lemma RunIsTheDescribedOne(c: Config, max: int, o: Outcome)
    ensures o == AskAgentToSolve(c, max) <==> Describes(c, max, o)
  {
    RunIsDescribed(c, max);
    if Describes(c, max, o) {
      DescribedRunIsUnique(c, max, o, AskAgentToSolve(c, max));
    }
  }

  // ---------------------------------------------------------------------------
  // Context ids.

  lemma {:induction false} AdoptedKept(a: seq<Round>, b: seq<Round>)
    requires Adopted(a).Some?
    ensures Adopted(a + b) == Adopted(a)
    decreases |a|
  {
    assert (a + b)[0] == a[0];
    if a[0].received.None? {
      assert (a + b)[1..] == a[1..] + b;
      AdoptedKept(a[1..], b);
    }
  }

  /** `Adopted` is the id of the first reply that carried one. */
  lemma {:induction false} AdoptedIsFirstReceived(log: seq<Round>, i: nat)
    requires i < |log| && log[i].received.Some?
    requires forall j | 0 <= j < i :: log[j].received.None?
    ensures Adopted(log) == log[i].received
    decreases i
  {
    if i > 0 {
      AdoptedIsFirstReceived(log[1..], i - 1);
    }
  }

  /** No id is adopted while every reply came without one. */
  lemma {:induction false} NothingAdopted(log: seq<Round>)
    requires forall j | 0 <= j < |log| :: log[j].received.None?
    ensures Adopted(log) == None
  {
    if log != [] {
      NothingAdopted(log[1..]);
    }
  }

  lemma ContextIdsOfTrace(c: Config, sent: seq<Sent>, log: seq<Round>, j: nat, k: nat)
    requires |sent| <= |log| + 1 && Sends(c, sent, log)
    ensures 0 < |sent| ==> sent[0].contextId == None
    ensures k < |sent| ==> k <= |log| && sent[k].contextId == Adopted(log[..k])
    ensures j < k < |sent| && sent[j].contextId.Some? ==> sent[k].contextId == sent[j].contextId
  {
    if 0 < |sent| {
      SendAt(c, sent, log, 0);
    }
    if k < |sent| {
      SendAt(c, sent, log, k);
      if j < k {
        SendAt(c, sent, log, j);
        if Adopted(log[..j]).Some? {
          AdoptedKept(log[..j], log[j..k]);
          assert log[..j] + log[j..k] == log[..k];
        }
      }
    }
  }

  /**
   The first send carries no context id, every send carries the first id any earlier
   reply carried, and once a send carries an id every later send carries the same one.
   */
  lemma ContextIdIsAdoptedOnce(c: Config, max: int, j: nat, k: nat)
    ensures var o := AskAgentToSolve(c, max);
      && (0 < |o.sent| ==> o.sent[0].contextId == None)
      && (k < |o.sent| ==> k <= |o.log| && o.sent[k].contextId == Adopted(o.log[..k]))
      && (j < k < |o.sent| && o.sent[j].contextId.Some? ==> o.sent[k].contextId == o.sent[j].contextId)
  {
    var o := AskAgentToSolve(c, max);
    RunIsDescribed(c, max);
    ContextIdsOfTrace(c, o.sent, o.log, j, k);
  }

  // ---------------------------------------------------------------------------
  // Termination, failed rounds, history and reward.

  /**
   A finished run stopped at the first round whose step reported `done` and counted
   that round; a run in which no step reported `done` used up every step.
   */
  lemma StopsAtFirstDone(c: Config, max: int)
    ensures var o := AskAgentToSolve(c, max);
      o.Finished? ==>
        && (forall k | 0 <= k < |o.log| - 1 :: !Ends(o.log[k].turn))
        && (o.metrics.steps < max ==> Ends(o.log[|o.log| - 1].turn))
        && ((forall k | 0 <= k < |o.log| :: !Ends(o.log[k].turn)) ==> o.metrics.steps == max)
  {
    RunIsDescribed(c, max);
  }

  lemma FailedRoundOfTrace(c: Config, sent: seq<Sent>, log: seq<Round>, k: nat)
    requires |sent| <= |log| + 1 && Sends(c, sent, log)
    requires k < |log| && !log[k].turn.Stepped?
    ensures Successes(log[..k + 1]) == Successes(log[..k])
    ensures k + 1 < |sent| ==> sent[k + 1].message == ErrorFeedback(log[k].turn.error)
  {
    SuccessesAppend(log[..k], log[k]);
    assert log[..k + 1] == log[..k] + [log[k]];
    if k + 1 < |sent| {
      SendAt(c, sent, log, k + 1);
      assert log[..k + 1][k] == log[k];
    }
  }

  /**
   A round whose action could not be decoded or whose step raised adds nothing to the
   history and does not end the episode: the next send, which the step budget allows,
   reports the error.
   */
  lemma FailedRoundRecovers(c: Config, max: int, k: nat)
    ensures var o := AskAgentToSolve(c, max);
      k < |o.log| && !o.log[k].turn.Stepped? ==>
        && Successes(o.log[..k + 1]) == Successes(o.log[..k])
        && (k + 1 < max ==> k + 1 < |o.sent|)
        && (k + 1 < |o.sent| ==> o.sent[k + 1].message == ErrorFeedback(o.log[k].turn.error))
  {
    var o := AskAgentToSolve(c, max);
    RunIsDescribed(c, max);
    if k < |o.log| && !o.log[k].turn.Stepped? {
      FailedRoundOfTrace(c, o.sent, o.log, k);
      StopFacts(c, max, o);
    }
  }

  /**
   The reported reward is the reward of the last successful step, not a sum, and 0.0
   when no step succeeded; `success` holds exactly when that reward is 1.0.
   */
  lemma RewardIsLastStepReward(c: Config, max: int)
    ensures var o := AskAgentToSolve(c, max);
      o.Finished? ==>
        && o.metrics.history == Successes(o.log)
        && (o.metrics.history == [] ==> o.metrics.reward == 0.0)
        && (o.metrics.history != [] ==> o.metrics.reward == o.metrics.history[|o.metrics.history| - 1].reward)
        && (o.metrics.success <==> o.metrics.reward == 1.0)
  {
    RunIsDescribed(c, max);
  }

  /** One history entry per round whose step went through, in round order. */
  lemma {:induction false} SuccessesCount(log: seq<Round>)
    ensures |Successes(log)| <= |log|
    ensures (forall k | 0 <= k < |log| :: log[k].turn.Stepped?) ==> |Successes(log)| == |log|
    ensures (forall k | 0 <= k < |log| :: !log[k].turn.Stepped?) ==> Successes(log) == []
  {
    if log != [] {
      SuccessesCount(log[..|log| - 1]);
    }
  }

  // ---------------------------------------------------------------------------
  // Which action a reply asks for.

  /** A reply without any `<` is taken as the action itself, stripped. */
  lemma PlainReplyIsAction(decode: string -> Decoded, text: string)
    requires forall k :: 0 <= k < |text| ==> text[k] != '<'
    ensures ChooseAction(decode, text) == Success(Strip(text))
  {
    PlainTextHasNoTags(text);
  }

  /**
   A reply that opens with a `json` block takes its action from the decoded block,
   stripped of surrounding whitespace, whatever follows unless another `json` block does.
   */
  lemma JsonReplyIsDecoded(decode: string -> Decoded, body: string, rest: string)
    requires !Occurs(Close("json"), body) && "json" !in ParseTags(rest)
    ensures ChooseAction(decode, Encode("json", body) + rest)
         == match decode(Strip(body))
            case Object(action) => Success(OrDefault(action, ""))
            case Malformed(error) => Failure(error)
  {
    assert IsWord("json");
    BlockThenRest("json", body, rest);
  }

  /** A `json` object without an `action` field asks for the empty action. */
  lemma MissingActionFieldIsEmpty(decode: string -> Decoded, body: string)
    requires !Occurs(Close("json"), body) && decode(Strip(body)) == Object(None)
    ensures ChooseAction(decode, Encode("json", body)) == Success("")
  {
    assert IsWord("json");
    RoundTrip("json", body);
  }
}
