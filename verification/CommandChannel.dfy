// The static state of the command channel and the functions that update it in place.  Each
// reader-side method is one critical section.  A sending method runs on the command thread; what
// the other threads do while it waits is a script of steps, consumed at each wait.
module CommandChannel {
  import opened CString
  import opened LineFraming
  import opened AtProtocol
  import opened AtChannel

  const HANDSHAKE_COMMAND: string := "ATE0Q0V1"

  // A PDU is among the effects logged since from.
  predicate PduIn(log: seq<Effect>, from: nat) {
    exists k: nat :: from <= k < |log| && log[k].PduSent?
  }

  // What the port sees of a PDU: all that it takes of one attempt to send it, nothing of an attempt
  // on a closed channel, and nothing without an attempt.
  predicate PduDone(pdu: Option<string>, w: Wires, w': Wires, closed: bool, attempted: bool) {
    if attempted then pdu.Some? && (w' == Transmitted(w, pdu.value, '\U{1A}') || (closed && w' == w))
    else w' == w
  }

  // How a PDU fares between two states: there is at most one attempt to send it.
  predicate PduWire(before: Option<string>, after: Option<string>, w: Wires, w': Wires, closed: bool,
                    log: seq<Effect>, log': seq<Effect>)
  {
    && log <= log'
    && PduDone(before, w, w', closed, PduIn(log', |log|))
    && after == if PduIn(log', |log|) then None else before
  }

  lemma PduKept(pdu: Option<string>, w: Wires, closed: bool, log: seq<Effect>, log': seq<Effect>)
    requires log <= log' && forall k :: |log| <= k < |log'| ==> !log'[k].PduSent?
    ensures PduWire(pdu, pdu, w, w, closed, log, log')
  {
  }

  lemma PduChain(a: Option<string>, b: Option<string>, c: Option<string>, w: Wires, w1: Wires, w2: Wires,
                 closed1: bool, closed2: bool, log: seq<Effect>, log1: seq<Effect>, log2: seq<Effect>)
    requires PduWire(a, b, w, w1, closed1, log, log1) && PduWire(b, c, w1, w2, closed2, log1, log2)
    requires closed1 ==> closed2
    ensures PduWire(a, c, w, w2, closed2, log, log2)
  {
    hide Transmitted;
    if PduIn(log1, |log|) {
      var k: nat :| |log| <= k < |log1| && log1[k].PduSent?;
      assert log2[k].PduSent?;
    }
    if PduIn(log2, |log1|) {
      assert PduIn(log2, |log|);
    }
    if PduIn(log2, |log|) && !PduIn(log1, |log|) {
      var k: nat :| |log| <= k < |log2| && log2[k].PduSent?;
      assert |log1| <= k;
    }
  }

  // One more return was recorded.
  predicate OneMore(before: seq<Return>, after: seq<Return>) {
    after != [] && after[..|after| - 1] == before
  }

  // What other threads do meanwhile: they hand over C strings, and none of them writes commands.
  predicate Script(env: seq<Step>) {
    forall k :: 0 <= k < |env| ==> !env[k].Issue? && (env[k].Line? ==> NulFree(env[k].line))
  }

  // How a wait ends; Blocked: the script is used up and the command thread still waits.
  datatype WaitEnd = Woken | TimedOut | Blocked

  class CommandChannel {
    const port: Port
    const hooked: bool
    var closed: bool
    var kind: Kind
    var prefix: Option<string>
    var pdu: Option<string>
    var response: ATResponse?
    ghost var waiting: Option<Command>
    ghost var log: seq<Effect>
    ghost var issued: nat
    ghost var freed: multiset<nat>
    ghost var handed: multiset<nat>
    ghost var results: seq<Return>

    ghost function Objects(): set<object>
      reads this
    {
      if response == null then {} else {response}
    }

    ghost function Nodes(): set<object>
      reads this, Objects()
    {
      if response == null then {} else set n | n in response.nodes
    }

    ghost predicate Valid()
      reads this, Objects(), Nodes()
    {
      response != null ==>
        response.Valid() && prefix.Some? && NulFree(prefix.value)
    }

    // The state of the transition system.
    ghost function Abs(): Channel
      reads this, Objects()
    {
      Channel(if response == null then None
              else Some(Pending(response.id, kind, if prefix.Some? then prefix.value else "", pdu,
                                response.success, response.final, response.Stored())),
              waiting, closed, hooked, log, issued, freed, handed, results)
    }

    // at_open, on a channel that accepts writes as scripted.
    constructor (p: Port, callback: bool)
      ensures Valid() && Abs() == Opened(callback) && port == p
    {
      port := p;
      hooked := callback;
      closed := false;
      kind := NoResult;
      prefix, pdu, response := None, None, null;
      waiting, log, issued, freed, handed, results := None, [], 0, multiset{}, multiset{}, [];
    }

    // The prefix and digit tests of processLine.
    method IsWanted(line: string) returns (r: bool)
      requires response != null && Valid() && NulFree(line)
      ensures r == Wanted(kind, prefix.value, line)
    {
      match kind
      case NoResult => r := false;
      case Numeric => r := ByteAt(line, 0) >= '0' && ByteAt(line, 0) <= '9';
      case SingleLine => r := StrStartsWith(line, prefix.value);
      case MultiLine => r := StrStartsWith(line, prefix.value);
    }

    // writeline and writeCtrlZ.
    method WriteText(text: string, end: char) returns (err: int)
      modifies port
      ensures closed ==> err == AT_ERROR_CHANNEL_CLOSED && port.State() == old(port.State())
      ensures !closed ==> (err == 0 || err == AT_ERROR_GENERIC) && (err == 0 <==> Send(old(port.script), |text|).ok)
      ensures !closed ==> port.State() == Transmitted(old(port.State()), text, end)
      ensures err == 0 ==> port.sent == old(port.sent) + text + [end]
    {
      if closed {
        return AT_ERROR_CHANNEL_CLOSED;
      }
      err := port.Transmit(text, end);
    }

    // The final branches of processLine, with handleFinalResponse.
    method Finish(line: string, good: bool)
      requires Valid() && response != null && IsFinal(line) && good == IsSuccess(line)
      modifies this`log, Objects()
      ensures Valid() && Abs() == Deliver(old(Abs()), line) && Nodes() == old(Nodes())
      ensures log == old(log) + [Finished(line)]
    {
      response.success := good;
      response.final := Some(line);
      log := log + [Finished(line)];
    }

    // The switch of processLine.
    method Collect(line: string)
      requires Valid() && NulFree(line) && response != null && !IsFinal(line)
      requires !(pdu.Some? && line == PROMPT)
      modifies this`log, Objects()
      ensures Valid() && Abs() == Deliver(old(Abs()), line)
      ensures forall n :: n in Nodes() && n !in old(Nodes()) ==> fresh(n)
      ensures log == old(log) + [Kept(line)] || log == old(log) + [Unsolicited(line)]
    {
      var wanted := IsWanted(line);
      if wanted && (kind.MultiLine? || response.intermediates == null) {
        response.AddIntermediate(line);
        log := log + [Kept(line)];
      } else {
        log := log + [Unsolicited(line)];
      }
    }

    // The prompt branch of processLine.
    method SendPdu(line: string)
      requires Valid() && response != null && !IsFinal(line) && pdu.Some? && line == PROMPT
      modifies this`log, this`pdu, port
      ensures Valid() && Abs() == Deliver(old(Abs()), line) && Nodes() == old(Nodes())
      ensures PduWire(old(pdu), pdu, old(port.State()), port.State(), closed, old(log), log)
    {
      hide StartsWithAny, Wanted, Transmitted;
      var _ := WriteText(pdu.value, CTRL_Z);
      pdu := None;
      log := log + [PduSent(response.id, line)];
      assert log[|old(log)|].PduSent?;
    }

    // processLine.
    method ProcessLine(line: string)
      requires Valid() && NulFree(line)
      modifies this`log, this`pdu, Objects(), port
      ensures Valid() && Abs() == Deliver(old(Abs()), line)
      ensures forall n :: n in Nodes() && n !in old(Nodes()) ==> fresh(n)
      ensures PduWire(old(pdu), pdu, old(port.State()), port.State(), closed, old(log), log)
      ensures port.State() != old(port.State()) ==> response != null && !IsFinal(line) && line == PROMPT
    {
      hide StartsWithAny, Wanted, Classify, Transmitted;
      if response == null {
        log := log + [Unsolicited(line)];
        return;
      }
      var good := StartsWithEntry(line, FINAL_SUCCESS);
      var bad := StartsWithEntry(line, FINAL_ERROR);
      if good || bad {
        Finish(line, good);
      } else if pdu.Some? && line == PROMPT {
        SendPdu(line);
      } else {
        Collect(line);
      }
    }

    // A step of another thread.
    method Other(step: Step)
      requires Valid() && (step.Line? ==> NulFree(step.line))
      requires !step.Wake? && !step.Expire? && !step.Issue?
      modifies this`log, this`pdu, this`closed, Objects(), port
      ensures Valid() && Abs() == Next(old(Abs()), step)
      ensures forall n :: n in Nodes() && n !in old(Nodes()) ==> fresh(n)
      ensures old(closed) ==> closed
      ensures PduWire(old(pdu), pdu, old(port.State()), port.State(), closed, old(log), log)
    {
      match step
      case Line(line) => ProcessLine(line);
      case SmsPair(header, body) => log := log + [SmsDelivered(header, body)];
      case Close => closed := true;
      case ReaderEnds =>
        if hooked && !closed {
          closed := true;
        }
      case _ =>
    }

    // at_response_free.
    method Free(r: ATResponse)
      modifies this`freed
      ensures freed == old(freed) + multiset{r.id}
    {
      freed := freed + multiset{r.id};
    }

    // A response taken back from the caller and freed.
    method Reject(r: ATResponse)
      requires Valid() && handed[r.id] > 0
      modifies this`freed, this`handed
      ensures Valid() && Abs() == Rejected(old(Abs()), r.id)
    {
      handed := handed - multiset{r.id};
      Free(r);
    }

    // clearPendingCommand.
    method ClearPending()
      requires Valid()
      modifies this`freed, this`response, this`prefix, this`pdu
      ensures Valid() && Abs() == Clear(old(Abs()))
      ensures response == null && prefix == None && pdu == None
    {
      if response != null {
        Free(response);
      }
      response := null;
      prefix := None;
      pdu := None;
    }

    // A step taken while the command thread waits, other than one that ends its wait.
    method Meanwhile(step: Step)
      requires Valid() && waiting.Some? && (step.Line? ==> NulFree(step.line))
      requires !step.Issue? && !step.Wake? && (step.Expire? ==> !waiting.value.timed)
      modifies this`log, this`pdu, this`closed, Objects(), port
      ensures Valid() && Abs() == Next(old(Abs()), step)
      ensures forall x :: x in Nodes() && x !in old(Nodes()) ==> fresh(x)
      ensures old(closed) ==> closed
      ensures PduWire(old(pdu), pdu, old(port.State()), port.State(), closed, old(log), log)
    {
      if !step.Expire? {
        Other(step);
      }
    }

    // pthread_cond_wait and pthread_cond_timedwait: the other threads take steps until this one
    // is woken, or its time is up.  n counts the steps taken, the last one included.
    method Wait(timed: bool, env: seq<Step>) returns (end: WaitEnd, n: nat)
      requires Valid() && response != null && waiting.Some? && waiting.value.timed == timed
      requires Script(env)
      modifies this`log, this`pdu, this`closed, Objects(), port
      ensures Valid() && n <= |env|
      ensures forall x :: x in Nodes() && x !in old(Nodes()) ==> fresh(x)
      ensures old(closed) ==> closed
      ensures PduWire(old(pdu), pdu, old(port.State()), port.State(), closed, old(log), log)
      ensures match end
              case Woken => n > 0 && env[n - 1] == Wake && Abs() == After(old(Abs()), env[..n - 1])
              case TimedOut => n > 0 && timed && env[n - 1] == Expire && Abs() == After(old(Abs()), env[..n - 1])
              case Blocked => n == |env| && Abs() == After(old(Abs()), env)
    {
      hide Next, After, PduWire, CommandChannel.Valid;
      PduKept(pdu, port.State(), closed, log, log);
      n := 0;
      ghost var s := Abs();
      NoSteps(s, env);
      while n < |env| && !env[n].Wake? && !(env[n].Expire? && timed)
        invariant n <= |env| && Valid() && Abs() == After(s, env[..n])
        invariant forall x :: x in Nodes() && x !in old(Nodes()) ==> fresh(x)
        invariant old(closed) ==> closed
        invariant PduWire(old(pdu), pdu, old(port.State()), port.State(), closed, old(log), log)
      {
        ghost var pdu1, w1, closed1, log1 := pdu, port.State(), closed, log;
        Meanwhile(env[n]);
        PduChain(old(pdu), pdu1, pdu, old(port.State()), w1, port.State(), closed1, closed, old(log), log1, log);
        n := n + 1;
        Extend(s, env, n);
      }
      if n == |env| {
        assert env[..n] == env;
        end := Blocked;
      } else {
        end := if env[n].Wake? then Woken else TimedOut;
        n := n + 1;
      }
    }

    // One wait of the loop below, after the first from steps of env.
    method Sleep(cmd: Command, env: seq<Step>, from: nat, ghost s: Channel) returns (end: WaitEnd, taken: nat)
      requires Valid() && response != null && waiting == Some(cmd) && from <= |env|
      requires Script(env)
      requires Abs() == After(s, env[..from])
      modifies this`log, this`pdu, this`closed, Objects(), port
      ensures Valid() && from <= taken <= |env|
      ensures forall x :: x in Nodes() && x !in old(Nodes()) ==> fresh(x)
      ensures old(closed) ==> closed
      ensures PduWire(old(pdu), pdu, old(port.State()), port.State(), closed, old(log), log)
      ensures match end
              case Woken => from < taken && After(s, env[..taken]) == Next(Abs(), Wake)
              case TimedOut => from < taken && cmd.timed && After(s, env[..taken]) == Next(Abs(), Expire)
              case Blocked => taken == |env| && After(s, env[..taken]) == Abs()
    {
      hide Next, After;
      ghost var t0 := Abs();
      var n;
      end, n := Wait(cmd.timed, env[from..]);
      taken := from + n;
      match end
      case Woken => SleptUntil(s, t0, Abs(), env, from, n, Wake);
      case TimedOut => SleptUntil(s, t0, Abs(), env, from, n, Expire);
      case Blocked => SleptOver(s, t0, Abs(), env, from);
    }

    // The waiting loop of the send function.  When it ends awake, the response is complete or
    // the channel closed, and the wake-up is still to be acted on; likewise for a timeout.
    method Await(cmd: Command, env: seq<Step>) returns (end: WaitEnd, taken: nat)
      requires Valid() && response != null && waiting == Some(cmd) && response.final.None? && !closed
      requires Script(env)
      modifies this`log, this`pdu, this`closed, Objects(), port
      ensures Valid() && taken <= |env|
      ensures forall x :: x in Nodes() && x !in old(Nodes()) ==> fresh(x)
      ensures old(closed) ==> closed
      ensures PduWire(old(pdu), pdu, old(port.State()), port.State(), closed, old(log), log)
      ensures match end
              case Woken => (response.final.Some? || closed) && After(old(Abs()), env[..taken]) == Next(Abs(), Wake)
              case TimedOut => cmd.timed && After(old(Abs()), env[..taken]) == Next(Abs(), Expire)
              case Blocked => taken == |env| && After(old(Abs()), env[..taken]) == Abs()
    {
      hide After, PduWire;
      PduKept(pdu, port.State(), closed, log, log);
      taken := 0;
      end := Woken;
      ghost var s := Abs();
      NoSteps(s, env);
      while end.Woken? && response.final.None? && !closed
        invariant Valid() && taken <= |env|
        invariant match end
                  case Woken => After(s, env[..taken]) == Next(Abs(), Wake)
                  case TimedOut => cmd.timed && After(s, env[..taken]) == Next(Abs(), Expire)
                  case Blocked => taken == |env| && After(s, env[..taken]) == Abs()
        invariant forall x :: x in Nodes() && x !in old(Nodes()) ==> fresh(x)
        invariant old(closed) ==> closed
        invariant PduWire(old(pdu), pdu, old(port.State()), port.State(), closed, old(log), log)
        decreases |env| - taken, end.Woken?
      {
        assert Next(Abs(), Wake) == Abs();
        ghost var pdu1, w1, closed1, log1 := pdu, port.State(), closed, log;
        end, taken := Sleep(cmd, env, taken, s);
        PduChain(old(pdu), pdu1, pdu, old(port.State()), w1, port.State(), closed1, closed, old(log), log1, log);
      }
    }

    // A response for the command, which is now pending.
    method Register(cmd: Command)
      requires Valid() && response == null && waiting.None? && !closed && NulFree(cmd.prefix)
      modifies this`kind, this`prefix, this`pdu, this`response, this`issued, this`waiting
      ensures Valid() && Abs() == Next(old(Abs()), Issue(cmd, true))
      ensures response != null && fresh(response) && response.nodes == [] && pdu == cmd.pdu
      ensures response.final.None? && waiting == Some(cmd) && issued == old(issued) + 1
    {
      hide Deliver, Clear, Complete, NodeAt, Distinct;
      kind := cmd.kind;
      prefix := Some(cmd.prefix);
      pdu := cmd.pdu;
      response := new ATResponse(issued);
      issued := issued + 1;
      waiting := Some(cmd);
    }

    // The send function has returned err: nothing is pending, and reply, if any, is the response
    // its last return stands for.
    ghost predicate Settled(err: int, reply: ATResponse?)
      reads this, reply, if reply == null then {} else set n | n in reply.nodes
    {
      && waiting.None? && response == null && prefix == None && pdu == None
      && results != [] && err == results[|results| - 1].err
      && (reply == null <==> results[|results| - 1].reply.None?)
      && (reply != null ==>
            && reply.Valid() && handed[reply.id] > 0
            && results[|results| - 1].reply.value == Reply(reply.success, reply.final, reply.Stored()))
    }

    // The error exit: clearPendingCommand, then the code.
    method Fail(err: int)
      requires Valid()
      modifies this`freed, this`response, this`prefix, this`pdu, this`waiting, this`results
      ensures Valid() && Settled(err, null) && OneMore(old(results), results)
      ensures Abs() == Clear(old(Abs())).(waiting := None, results := old(results) + [Return(err, None, None)])
    {
      ClearPending();
      waiting := None;
      results := results + [Return(err, None, None)];
    }

    // The response is freed, or turned round and handed over.
    method Release(cmd: Command) returns (reply: ATResponse?)
      requires Valid() && response != null
      modifies this`freed, this`handed, Objects(), Nodes()
      ensures Valid() && response.final == old(response.final) && response.success == old(response.success)
      ensures if cmd.wanted
              then reply == response && response.Stored() == Reverse(old(response.Stored()))
                   && handed == old(handed) + multiset{response.id} && freed == old(freed)
              else reply == null && freed == old(freed) + multiset{response.id} && handed == old(handed)
    {
      reply := null;
      if cmd.wanted {
        response.ReverseIntermediates();
        reply := response;
        handed := handed + multiset{response.id};
      } else {
        Free(response);
      }
    }

    // The pending response is let go of, and the send function returns.
    method Retire(ghost result: Return)
      requires Valid()
      modifies this`response, this`prefix, this`pdu, this`waiting, this`results, this`freed
      ensures Valid() && response == null && prefix == None && pdu == None
      ensures Abs() == old(Abs()).(pending := None, waiting := None, results := old(results) + [result])
    {
      response := null;
      waiting := None;
      results := results + [result];
      ClearPending();
    }

    // The normal exit.
    method Deliverable(cmd: Command) returns (err: int, reply: ATResponse?)
      requires Valid() && response != null && waiting == Some(cmd) && (response.final.Some? || closed)
      modifies this`response, this`freed, this`handed, this`waiting, this`results, this`prefix, this`pdu, Objects(), Nodes()
      ensures Valid() && Abs() == Next(old(Abs()), Wake)
      ensures Settled(err, reply) && (reply == null || reply == old(response)) && OneMore(old(results), results)
    {
      hide NodeAt, Distinct, NodeTexts, Reverse;
      reply := Release(cmd);
      err := if closed then AT_ERROR_CHANNEL_CLOSED else 0;
      ghost var outcome := if reply == null then None else Some(Reply(reply.success, reply.final, reply.Stored()));
      Retire(Return(err, response.final, outcome));
    }

    // The send function after its wait.
    method Conclude(cmd: Command, end: WaitEnd) returns (err: int, reply: ATResponse?)
      requires Valid() && response != null && waiting == Some(cmd) && !end.Blocked?
      requires if end.Woken? then response.final.Some? || closed else cmd.timed
      modifies this`response, this`freed, this`handed, this`waiting, this`results, this`prefix, this`pdu, Objects(), Nodes()
      ensures Valid() && Abs() == Next(old(Abs()), if end.Woken? then Wake else Expire)
      ensures Settled(err, reply) && (reply == null || reply == old(response)) && OneMore(old(results), results)
    {
      if end.TimedOut? {
        err, reply := AT_ERROR_TIMEOUT, null;
        Fail(err);
      } else {
        err, reply := Deliverable(cmd);
      }
    }

    // at_send_command_full_nolock.  The script env says what happens during the waits; taken of
    // its steps are used.  returned is false when the script ends with the command still waiting.
    method SendCommand(text: string, cmd: Command, env: seq<Step>)
      returns (returned: bool, err: int, reply: ATResponse?, taken: nat, ghost written: bool)
      requires Valid() && waiting.None? && NulFree(cmd.prefix)
      requires Script(env)
      modifies this, Objects(), port
      ensures Valid() && taken <= |env|
      ensures Abs() == After(old(Abs()), [Issue(cmd, written)] + env[..taken])
      ensures if returned then Settled(err, reply) && (reply == null || fresh(reply)) && OneMore(old(results), results)
              else taken == |env| && waiting == Some(cmd) && response != null && fresh(response)
      ensures if old(response) != null || old(closed) then port.State() == old(port.State())
              else var w := Transmitted(old(port.State()), text, '\r');
                   && (written <==> Send(old(port.script), |text|).ok)
                   && PduDone(if written then cmd.pdu else None, w, port.State(), closed, PduIn(log, |old(log)|))
      ensures old(closed) ==> closed
    {
      returned, err, reply, taken, written := true, 0, null, 0, true;
      ghost var s := Abs();
      assert env[..0] == [];
      Issued(s, cmd, true);
      Issued(s, cmd, false);
      hide Transmitted, Send;
      if response != null {
        err := AT_ERROR_COMMAND_PENDING;
        Fail(err);
        return;
      }
      err := WriteText(text, CR);
      if err < 0 {
        written := false;
        Fail(err);
        return;
      }
      returned, err, reply, taken := Perform(cmd, env);
      StartThen(s, Issue(cmd, true), env[..taken]);
    }

    // The send function once the command is written.
    method Perform(cmd: Command, env: seq<Step>)
      returns (returned: bool, err: int, reply: ATResponse?, taken: nat)
      requires Valid() && response == null && waiting.None? && !closed && NulFree(cmd.prefix)
      requires Script(env)
      modifies this, port
      ensures Valid() && taken <= |env| && issued == old(issued) + 1
      ensures Abs() == After(Next(old(Abs()), Issue(cmd, true)), env[..taken])
      ensures if returned then Settled(err, reply) && (reply == null || fresh(reply)) && OneMore(old(results), results)
              else taken == |env| && waiting == Some(cmd) && response != null && fresh(response)
      ensures PduDone(cmd.pdu, old(port.State()), port.State(), closed, PduIn(log, |old(log)|))
    {
      hide After, Next, PduDone, PduIn;
      Register(cmd);
      returned, err, reply, taken := AwaitResponse(cmd, env);
    }

    // The wait for the response to the command that is pending, and the end of the send function.
    method AwaitResponse(cmd: Command, env: seq<Step>)
      returns (returned: bool, err: int, reply: ATResponse?, taken: nat)
      requires Valid() && response != null && waiting == Some(cmd) && response.final.None? && !closed && Script(env)
      modifies this, Objects(), Nodes(), port
      ensures Valid() && taken <= |env| && issued == old(issued)
      ensures Abs() == After(old(Abs()), env[..taken])
      ensures if returned then Settled(err, reply) && (reply == null || reply == old(response)) && OneMore(old(results), results)
              else taken == |env| && waiting == Some(cmd) && response == old(response)
      ensures PduDone(old(pdu), old(port.State()), port.State(), closed, PduIn(log, |old(log)|))
    {
      hide After, Next, PduDone, PduIn;
      returned, err, reply := false, 0, null;
      var end;
      end, taken := Await(cmd, env);
      if !end.Blocked? {
        returned := true;
        err, reply := Conclude(cmd, end);
      }
    }
  }

  lemma Issued(s: Channel, cmd: Command, written: bool)
    ensures After(s, [Issue(cmd, written)] + []) == Next(s, Issue(cmd, written))
  {
    assert ([Issue(cmd, written)] + [])[..0] == [];
  }

  lemma NoSteps(s: Channel, env: seq<Step>)
    ensures After(s, env[..0]) == s
  {
  }

  lemma StartThen(s: Channel, first: Step, more: seq<Step>)
    ensures After(s, [first] + more) == After(Next(s, first), more)
  {
    assert [first][..0] == [];
    RunConcat(s, [first], more);
  }

  lemma SleptUntil(s: Channel, t0: Channel, t: Channel, env: seq<Step>, from: nat, n: nat, last: Step)
    requires 0 < n && from + n <= |env| && env[from..][n - 1] == last
    requires t0 == After(s, env[..from]) && t == After(t0, env[from..][..n - 1])
    ensures After(s, env[..from + n]) == Next(t, last)
  {
    hide Next, After;
    assert env[..from + n - 1] == env[..from] + env[from..][..n - 1];
    RunConcat(s, env[..from], env[from..][..n - 1]);
    Extend(s, env, from + n);
  }

  lemma SleptOver(s: Channel, t0: Channel, t: Channel, env: seq<Step>, from: nat)
    requires from <= |env|
    requires t0 == After(s, env[..from]) && t == After(t0, env[from..])
    ensures After(s, env[..|env|]) == t
  {
    hide Next, After;
    assert env[..|env|] == env[..from] + env[from..];
    RunConcat(s, env[..from], env[from..]);
  }

  lemma Extend(s: Channel, env: seq<Step>, to: nat)
    requires 0 < to <= |env|
    ensures After(s, env[..to]) == Next(After(s, env[..to - 1]), env[to - 1])
  {
    assert env[..to][..to - 1] == env[..to - 1];
  }
}
