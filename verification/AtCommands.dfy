// The functions that clients of the channel call: the wrappers that insist on an intermediate
// line, and the handshake.
module AtCommands {
  import opened CString
  import opened LineFraming
  import opened AtProtocol
  import opened AtChannel
  import opened CommandChannel

  // at_send_command_singleline, at_send_command_numeric and at_send_command_sms: a success
  // without an intermediate line is taken back and reported as an error.
  method SendForLine(channel: CommandChannel, text: string, cmd: Command, env: seq<Step>)
    returns (returned: bool, err: int, reply: ATResponse?, taken: nat, ghost written: bool)
    requires channel.Valid() && channel.waiting.None? && NulFree(cmd.prefix) && !cmd.timed
    requires Script(env)
    modifies channel, channel.Objects(), channel.port
    ensures channel.Valid() && taken <= |env|
    ensures var t := After(old(channel.Abs()), [Issue(cmd, written)] + env[..taken]);
            if returned && t.results != [] && var r := t.results[|t.results| - 1];
                 r.err == 0 && r.reply.Some? && r.reply.value.success && r.reply.value.lines == []
            then err == -6 && reply == null
                 && exists id :: t.handed[id] > 0 && channel.Abs() == Rejected(t, id)
            else channel.Abs() == t && (returned ==> channel.Settled(err, reply))
    ensures returned && reply != null && err == 0 && reply.success ==> reply.Stored() != []
    ensures if old(channel.response) != null || old(channel.closed) then channel.port.State() == old(channel.port.State())
            else var w := Transmitted(old(channel.port.State()), text, '\r');
                 && (written <==> Send(old(channel.port.script), |text|).ok)
                 && PduDone(if written then cmd.pdu else None, w, channel.port.State(), channel.closed,
                            PduIn(channel.log, |old(channel.log)|))
  {
    hide After, Next, Transmitted, Send, PduDone, PduIn, NodeTexts, NodeAt, Distinct;
    returned, err, reply, taken, written := channel.SendCommand(text, cmd, env);
    if returned && err == 0 && reply != null {
      var lacks := LacksLine(reply);
      if lacks {
        ghost var t := channel.Abs();
        channel.Reject(reply);
        assert t.handed[reply.id] > 0;
        reply := null;
        err := AT_ERROR_INVALID_RESPONSE;
      }
    }
  }

  // A success that lacks the line the command asked for.
  method LacksLine(r: ATResponse) returns (lacks: bool)
    requires r.Valid()
    ensures lacks <==> r.success && r.Stored() == []
  {
    lacks := r.success && r.intermediates == null;
  }

  // The commands issued in a run, and all its other steps.
  function IssuedIn(steps: seq<Step>): seq<Command> {
    if steps == [] then []
    else IssuedIn(steps[..|steps| - 1]) + if steps[|steps| - 1].Issue? then [steps[|steps| - 1].cmd] else []
  }

  function OthersIn(steps: seq<Step>): seq<Step> {
    if steps == [] then []
    else OthersIn(steps[..|steps| - 1]) + if steps[|steps| - 1].Issue? then [] else [steps[|steps| - 1]]
  }

  const HANDSHAKE: Command := Command(NoResult, "", None, true, false)

  // A run that is attempts issues of the handshake command among the first steps of a script.
  predicate Attempts(steps: seq<Step>, attempts: nat, env: seq<Step>, taken: nat) {
    && taken <= |env| && OthersIn(steps) == env[..taken]
    && |IssuedIn(steps)| == attempts && forall k :: 0 <= k < attempts ==> IssuedIn(steps)[k] == HANDSHAKE
  }

  lemma StepAdded(steps: seq<Step>, last: Step)
    ensures IssuedIn(steps + [last]) == if last.Issue? then IssuedIn(steps) + [last.cmd] else IssuedIn(steps)
    ensures OthersIn(steps + [last]) == if last.Issue? then OthersIn(steps) else OthersIn(steps) + [last]
  {
    assert (steps + [last])[..|steps|] == steps;
  }

  lemma {:induction false} ScriptAdded(steps: seq<Step>, more: seq<Step>)
    requires forall k :: 0 <= k < |more| ==> !more[k].Issue?
    ensures IssuedIn(steps + more) == IssuedIn(steps) && OthersIn(steps + more) == OthersIn(steps) + more
  {
    hide IssuedIn, OthersIn;
    if more == [] {
      assert steps + more == steps;
    } else {
      var front, last := more[..|more| - 1], more[|more| - 1];
      ScriptAdded(steps, front);
      assert steps + more == (steps + front) + [last];
      StepAdded(steps + front, last);
      assert OthersIn(steps) + front + [last] == OthersIn(steps) + more;
    }
  }

  // Every return since the first ones was an error.
  predicate FailedSince(results: seq<Return>, first: nat) {
    forall k :: first <= k < |results| ==> results[k].err != 0
  }

  lemma NoneFailed(results: seq<Return>)
    ensures FailedSince(results, |results|)
  {
  }

  lemma ReturnAdded(before: seq<Return>, after: seq<Return>, first: nat)
    requires OneMore(before, after) && FailedSince(before, first)
    ensures |after| == |before| + 1 && FailedSince(after[..|after| - 1], first)
    ensures after[|after| - 1].err != 0 ==> FailedSince(after, first)
  {
    assert forall k :: 0 <= k < |before| ==> after[k] == after[..|after| - 1][k];
  }

  lemma NoAttempts(env: seq<Step>)
    ensures Attempts([], 0, env, 0)
  {
  }

  lemma AttemptAdded(s: Channel, t: Channel, steps: seq<Step>, attempts: nat, env: seq<Step>, taken: nat,
                     written: bool, n: nat)
    requires Script(env) && Attempts(steps, attempts, env, taken) && taken + n <= |env|
    requires t == After(After(s, steps), [Issue(HANDSHAKE, written)] + env[taken..][..n])
    ensures t == After(s, steps + ([Issue(HANDSHAKE, written)] + env[taken..][..n]))
    ensures Attempts(steps + ([Issue(HANDSHAKE, written)] + env[taken..][..n]), attempts + 1, env, taken + n)
  {
    hide After, Attempts;
    var more := env[taken..][..n];
    var issue := Issue(HANDSHAKE, written);
    RunConcat(s, steps, [issue] + more);
    assert env[..taken + n] == env[..taken] + more;
    StepsRegroup(steps, issue, more);
    AttemptTakes(steps, attempts, env, taken, issue, more);
  }

  lemma StepsRegroup(steps: seq<Step>, issue: Step, more: seq<Step>)
    ensures steps + ([issue] + more) == steps + [issue] + more
  {
  }

  lemma AttemptTakes(steps: seq<Step>, attempts: nat, env: seq<Step>, taken: nat, issue: Step, more: seq<Step>)
    requires Attempts(steps, attempts, env, taken) && issue.Issue? && issue.cmd == HANDSHAKE
    requires taken + |more| <= |env| && env[..taken + |more|] == env[..taken] + more
    requires forall k :: 0 <= k < |more| ==> !more[k].Issue?
    ensures Attempts(steps + [issue] + more, attempts + 1, env, taken + |more|)
  {
    hide IssuedIn, OthersIn;
    StepAdded(steps, issue);
    ScriptAdded(steps + [issue], more);
  }

  // What the port takes of n handshake commands.
  function Handshakes(w: Wires, n: nat): Wires {
    if n == 0 then w else Transmitted(Handshakes(w, n - 1), "ATE0Q0V1", '\r')
  }

  // One attempt of the handshake, after attempts others that have taken steps.
  method Attempt(channel: CommandChannel, env: seq<Step>, used: nat, ghost s: Channel, ghost steps: seq<Step>, ghost attempts: nat)
    returns (returned: bool, err: int, n: nat, ghost more: seq<Step>)
    requires channel.Valid() && channel.waiting.None? && Script(env)
    requires channel.Abs() == After(s, steps) && Attempts(steps, attempts, env, used)
    modifies channel, channel.Objects(), channel.port
    ensures channel.Valid() && fresh(channel.Objects() - old(channel.Objects()))
    ensures channel.Abs() == After(s, steps + more) && Attempts(steps + more, attempts + 1, env, used + n)
    ensures used + n <= |env|
    ensures if returned
            then channel.waiting.None? && channel.response == null && channel.pdu == None
                 && OneMore(old(channel.results), channel.results) && err == channel.results[|channel.results| - 1].err
            else channel.waiting.Some?
    ensures channel.port.State() == if old(channel.response) != null || old(channel.closed) then old(channel.port.State())
                                    else Transmitted(old(channel.port.State()), "ATE0Q0V1", '\r')
    ensures old(channel.closed) ==> channel.closed
  {
    assert used <= |env| && Script(env[used..]);
    hide After, Next, Attempts, Script, Transmitted, Send, PduIn;
    var reply;
    ghost var written;
    returned, err, reply, n, written := channel.SendCommand(HANDSHAKE_COMMAND, HANDSHAKE, env[used..]);
    more := [Issue(HANDSHAKE, written)] + env[used..][..n];
    AttemptAdded(s, channel.Abs(), steps, attempts, env, used, written, n);
  }

  // at_handshake: up to eight attempts under one lock, until one succeeds.  steps is all that
  // happened meanwhile, the attempts included; sends of them wrote the command.
  method Handshake(channel: CommandChannel, env: seq<Step>)
    returns (returned: bool, err: int, attempts: nat, ghost steps: seq<Step>, ghost taken: nat, ghost sends: nat)
    requires channel.Valid() && channel.waiting.None?
    requires Script(env)
    modifies channel, channel.Objects(), channel.port
    ensures channel.Valid() && channel.Abs() == After(old(channel.Abs()), steps)
    ensures 1 <= attempts <= 8 && Attempts(steps, attempts, env, taken)
    ensures returned ==>
              && channel.waiting.None? && channel.response == null && channel.pdu == None
              && |channel.results| == |old(channel.results)| + attempts
              && err == channel.results[|channel.results| - 1].err
              && (err != 0 ==> attempts == 8)
              && FailedSince(channel.results[..|channel.results| - 1], |old(channel.results)|)
    ensures !returned ==> channel.waiting.Some?
    ensures channel.port.State() == Handshakes(old(channel.port.State()), sends) && sends <= attempts
    ensures !channel.closed ==> sends == if old(channel.response) == null then attempts else attempts - 1
  {
    hide After, Attempts, FailedSince, Script, CommandChannel.Valid, OneMore, Transmitted;
    var used: nat := 0;
    attempts, err, returned, steps, taken, sends := 0, 0, true, [], 0, 0;
    ghost var s, first := channel.Abs(), |channel.results|;
    NoSteps(s, []);
    NoAttempts(env);
    NoneFailed(channel.results);
    while attempts < HANDSHAKE_RETRY_COUNT
      invariant channel.Valid() && channel.waiting.None? && attempts <= HANDSHAKE_RETRY_COUNT && taken == used <= |env|
      invariant fresh(channel.Objects() - old(channel.Objects()))
      invariant channel.Abs() == After(s, steps) && Attempts(steps, attempts, env, used)
      invariant returned && |channel.results| == first + attempts && FailedSince(channel.results, first)
      invariant attempts > 0 ==> channel.response == null && channel.pdu == None
                                 && err == channel.results[|channel.results| - 1].err && err != 0
                                 && FailedSince(channel.results[..|channel.results| - 1], first)
      invariant attempts == 0 ==> channel.response == old(channel.response)
      invariant channel.port.State() == Handshakes(old(channel.port.State()), sends) && sends <= attempts
      invariant !channel.closed ==> sends == if old(channel.response) == null || attempts == 0 then attempts else attempts - 1
    {
      sends := if channel.response == null && !channel.closed then sends + 1 else sends;
      ghost var before, more := channel.results, [];
      var n;
      returned, err, n, more := Attempt(channel, env, used, s, steps, attempts);
      steps := steps + more;
      used := used + n;
      taken := used;
      attempts := attempts + 1;
      if !returned {
        return;
      }
      ReturnAdded(before, channel.results, first);
      if err == 0 {
        break;
      }
    }
  }
}
