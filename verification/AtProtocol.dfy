// The command channel as a transition system.  The command mutex is released only while the
// command thread waits, so a run is a sequence of whole critical sections: lines and SMS pairs
// handled by the reader thread, the channel closing, and the command thread issuing a command,
// waking, or timing out.  A wake-up is a step of its own: lines may arrive between the signal
// and the moment the command thread holds the mutex again.
module AtProtocol {
  import opened CString
  import opened LineFraming

  const AT_ERROR_GENERIC: int := -1
  const AT_ERROR_COMMAND_PENDING: int := -2
  const AT_ERROR_CHANNEL_CLOSED: int := -3
  const AT_ERROR_TIMEOUT: int := -4
  const AT_ERROR_INVALID_RESPONSE: int := -6

  // Final result codes, annex B of 3GPP TS 27.007.
  const FINAL_SUCCESS: seq<string> := ["OK", "CONNECT"]
  const FINAL_ERROR: seq<string> :=
    ["ERROR", "+CMS ERROR:", "+CME ERROR:", "NO CARRIER", "NO ANSWER", "NO DIALTONE"]
  // Headers of two-line SMS results.
  const SMS_UNSOLICITED: seq<string> := ["+CMT:", "+CDS:", "+CBM:"]

  predicate StartsWithAny(line: string, prefixes: seq<string>) {
    exists k :: 0 <= k < |prefixes| && prefixes[k] <= line
  }

  predicate IsSuccess(line: string) {
    StartsWithAny(line, FINAL_SUCCESS)
  }

  predicate IsFinal(line: string) {
    StartsWithAny(line, FINAL_SUCCESS) || StartsWithAny(line, FINAL_ERROR)
  }

  predicate IsSmsHeader(line: string) {
    StartsWithAny(line, SMS_UNSOLICITED)
  }

  datatype Kind = NoResult | Numeric | SingleLine | MultiLine

  // timed: a timeout was given; wanted: the caller asked for the response.
  datatype Command = Command(kind: Kind, prefix: string, pdu: Option<string>, timed: bool, wanted: bool)

  // The response being assembled; the newest intermediate line comes first.
  datatype Pending = Pending(id: nat, kind: Kind, prefix: string, pdu: Option<string>,
                             success: bool, final: Option<string>, stored: seq<string>)

  // What became of a line.
  datatype Effect =
    | Unsolicited(line: string)
    | SmsDelivered(header: string, body: string)
    | Kept(line: string)
    | Finished(line: string)
    | PduSent(id: nat, line: string)

  datatype Reply = Reply(success: bool, final: Option<string>, lines: seq<string>)

  // A return of the send function: its code, the final response seen, the response handed over.
  datatype Return = Return(err: int, final: Option<string>, reply: Option<Reply>)

  // freed and handed count what happened to each response, by serial number.
  datatype Channel = Channel(pending: Option<Pending>, waiting: Option<Command>, closed: bool, hooked: bool,
                             log: seq<Effect>, issued: nat, freed: multiset<nat>, handed: multiset<nat>,
                             results: seq<Return>)

  datatype Step =
    | Line(line: string)
    | SmsPair(header: string, body: string)
    | Close
    | ReaderEnds
    | Issue(cmd: Command, written: bool)
    | Wake
    | Expire

  function Reverse<T>(s: seq<T>): (r: seq<T>)
    ensures |r| == |s|
  {
    if s == [] then [] else Reverse(s[1..]) + [s[0]]
  }

  // The line is one the command type collects.
  predicate Wanted(kind: Kind, prefix: string, line: string) {
    match kind
    case NoResult => false
    case Numeric => line != [] && '0' <= line[0] <= '9'
    case SingleLine => prefix <= line
    case MultiLine => prefix <= line
  }

  // processLine for a pending command.
  function Classify(p: Pending, line: string): (Pending, Effect) {
    if StartsWithAny(line, FINAL_SUCCESS) then
      (p.(success := true, final := Some(line)), Finished(line))
    else if StartsWithAny(line, FINAL_ERROR) then
      (p.(success := false, final := Some(line)), Finished(line))
    else if p.pdu.Some? && line == PROMPT then
      (p.(pdu := None), PduSent(p.id, line))
    else if Wanted(p.kind, p.prefix, line) && (p.kind.MultiLine? || p.stored == []) then
      (p.(stored := [line] + p.stored), Kept(line))
    else
      (p, Unsolicited(line))
  }

  function Deliver(s: Channel, line: string): Channel {
    match s.pending
    case None => s.(log := s.log + [Unsolicited(line)])
    case Some(p) =>
      var (p', e) := Classify(p, line);
      s.(pending := Some(p'), log := s.log + [e])
  }

  // clearPendingCommand.
  function Clear(s: Channel): Channel {
    match s.pending
    case None => s
    case Some(p) => s.(pending := None, freed := s.freed + multiset{p.id})
  }

  // The send function up to its first wait.  A response that is still pending, another command's,
  // is freed on the way out.
  function Begin(s: Channel, cmd: Command, written: bool): Channel {
    if s.pending.Some? then
      Clear(s).(results := s.results + [Return(AT_ERROR_COMMAND_PENDING, None, None)])
    else if s.closed then
      s.(results := s.results + [Return(AT_ERROR_CHANNEL_CLOSED, None, None)])
    else if !written then
      s.(results := s.results + [Return(AT_ERROR_GENERIC, None, None)])
    else
      s.(pending := Some(Pending(s.issued, cmd.kind, cmd.prefix, cmd.pdu, false, None, [])),
         waiting := Some(cmd), issued := s.issued + 1)
  }

  // The send function after its wait, when a final response is there or the channel is closed.
  function Complete(s: Channel, cmd: Command, p: Pending): Channel {
    var reply := Reply(p.success, p.final, Reverse(p.stored));
    var err := if s.closed then AT_ERROR_CHANNEL_CLOSED else 0;
    s.(pending := None, waiting := None,
       freed := if cmd.wanted then s.freed else s.freed + multiset{p.id},
       handed := if cmd.wanted then s.handed + multiset{p.id} else s.handed,
       results := s.results + [Return(err, p.final, if cmd.wanted then Some(reply) else None)])
  }

  function Next(s: Channel, step: Step): Channel {
    match step
    case Line(line) => Deliver(s, line)
    case SmsPair(header, body) => s.(log := s.log + [SmsDelivered(header, body)])
    case Close => s.(closed := true)
    case ReaderEnds => s.(closed := s.closed || s.hooked)
    case Issue(cmd, written) => Begin(s, cmd, written)
    case Wake =>
      if s.waiting.Some? && s.pending.Some? && (s.pending.value.final.Some? || s.closed) then
        Complete(s, s.waiting.value, s.pending.value)
      else s
    case Expire =>
      if s.waiting.Some? && s.waiting.value.timed then
        Clear(s).(waiting := None, results := s.results + [Return(AT_ERROR_TIMEOUT, None, None)])
      else s
  }

  // A run, one step after the other.
  function After(s: Channel, steps: seq<Step>): Channel {
    if steps == [] then s else Next(After(s, steps[..|steps| - 1]), steps[|steps| - 1])
  }

  lemma {:induction false} RunConcat(s: Channel, a: seq<Step>, b: seq<Step>)
    ensures After(s, a + b) == After(After(s, a), b)
  {
    if b == [] {
      assert a + b == a;
    } else {
      assert (a + b)[..|a + b| - 1] == a + b[..|b| - 1];
      RunConcat(s, a, b[..|b| - 1]);
    }
  }

  // A channel as at_open leaves it, with or without a callback for a dead reader.
  function Opened(hooked: bool): Channel {
    Channel(None, None, false, hooked, [], 0, multiset{}, multiset{}, [])
  }

  // --- invariants of every run ---

  predicate Owned(s: Channel, id: nat) {
    s.pending.Some? && s.pending.value.id == id
  }

  // Each response issued so far is pending, freed or handed over, and that exactly once.
  ghost predicate SingleOwner(s: Channel) {
    forall id: nat :: s.freed[id] + s.handed[id] + (if Owned(s, id) then 1 else 0) == if id < s.issued then 1 else 0
  }

  predicate NoFinals(lines: seq<string>) {
    forall k :: 0 <= k < |lines| ==> !IsFinal(lines[k])
  }

  predicate Sound(p: Pending) {
    && (p.final.Some? ==> IsFinal(p.final.value) && (p.success <==> IsSuccess(p.final.value)))
    && NoFinals(p.stored)
  }

  function PromptCount(log: seq<Effect>, id: nat): nat {
    if log == [] then 0
    else PromptCount(log[..|log| - 1], id)
         + if log[|log| - 1].PduSent? && log[|log| - 1].id == id then 1 else 0
  }

  // A PDU is sent at most once for a command, and not before it is issued.
  ghost predicate PduOnce(s: Channel) {
    forall id: nat :: PromptCount(s.log, id)
      + (if Owned(s, id) && s.pending.value.pdu.Some? then 1 else 0) <= if id < s.issued then 1 else 0
  }

  ghost predicate Inv(s: Channel) {
    && (s.waiting.Some? <==> s.pending.Some?)
    && (s.pending.Some? ==>
          && s.pending.value.id + 1 == s.issued && Sound(s.pending.value)
          && s.pending.value.kind == s.waiting.value.kind && s.pending.value.prefix == s.waiting.value.prefix)
    && SingleOwner(s) && PduOnce(s)
  }

  lemma PromptCountSnoc(log: seq<Effect>, e: Effect, id: nat)
    ensures PromptCount(log + [e], id) == PromptCount(log, id) + if e.PduSent? && e.id == id then 1 else 0
  {
    assert (log + [e])[..|log|] == log;
  }

  lemma DeliverKeepsPduOnce(s: Channel, line: string)
    requires PduOnce(s) && (s.pending.Some? ==> s.pending.value.id < s.issued)
    ensures PduOnce(Deliver(s, line))
  {
    var s' := Deliver(s, line);
    var e := s'.log[|s.log|];
    assert s'.log == s.log + [e];
    forall id: nat
      ensures PromptCount(s'.log, id) + (if Owned(s', id) && s'.pending.value.pdu.Some? then 1 else 0)
              <= PromptCount(s.log, id) + (if Owned(s, id) && s.pending.value.pdu.Some? then 1 else 0)
    {
      PromptCountSnoc(s.log, e, id);
    }
  }

  lemma DeliverKeepsInv(s: Channel, line: string)
    requires Inv(s)
    ensures Inv(Deliver(s, line))
  {
    hide PromptCount, StartsWithAny;
    var s' := Deliver(s, line);
    DeliverKeepsPduOnce(s, line);
    hide PduOnce;
    assert forall id: nat :: Owned(s', id) == Owned(s, id);
  }

  // A command comes while another waits.
  predicate Clash(s: Channel, step: Step) {
    step.Issue? && s.waiting.Some?
  }

  // There is one writer: no command is issued while another waits.
  predicate OneWriter(s: Channel, steps: seq<Step>) {
    steps == []
    || (OneWriter(s, steps[..|steps| - 1]) && !Clash(After(s, steps[..|steps| - 1]), steps[|steps| - 1]))
  }

  lemma NextKeepsInv(s: Channel, step: Step)
    requires Inv(s) && !Clash(s, step)
    ensures Inv(Next(s, step))
  {
    var s' := Next(s, step);
    match step
    case Line(line) => DeliverKeepsInv(s, line);
    case SmsPair(header, body) =>
      forall id: nat
        ensures PromptCount(s'.log, id) == PromptCount(s.log, id)
      {
        PromptCountSnoc(s.log, SmsDelivered(header, body), id);
      }
      assert forall id: nat :: Owned(s', id) == Owned(s, id);
    case Close => assert forall id: nat :: Owned(s', id) == Owned(s, id);
    case ReaderEnds => assert forall id: nat :: Owned(s', id) == Owned(s, id);
    case Issue(_, _) => assert forall id: nat :: Owned(s', id) ==> Owned(s, id) || id == s.issued;
    case Wake => assert forall id: nat :: Owned(s', id) ==> Owned(s, id);
    case Expire => assert forall id: nat :: Owned(s', id) ==> Owned(s, id);
  }

  // Single ownership, soundness of the response and the PDU rule hold in every run of one writer.
  lemma {:induction false} RunKeepsInv(s: Channel, steps: seq<Step>)
    requires Inv(s) && OneWriter(s, steps)
    ensures Inv(After(s, steps))
  {
    if steps != [] {
      RunKeepsInv(s, steps[..|steps| - 1]);
      NextKeepsInv(After(s, steps[..|steps| - 1]), steps[|steps| - 1]);
    }
  }

  // A response handed over is taken back and freed.
  function Rejected(s: Channel, id: nat): Channel {
    s.(handed := s.handed - multiset{id}, freed := s.freed + multiset{id})
  }

  lemma RejectedKeepsInv(s: Channel, id: nat)
    requires Inv(s) && s.handed[id] > 0
    ensures Inv(Rejected(s, id)) && Rejected(s, id).freed[id] == 1
  {
    assert forall k: nat :: Owned(Rejected(s, id), k) == Owned(s, k);
    assert s.freed[id] + s.handed[id] <= 1;
  }

  // --- what a return means ---

  predicate GoodReturn(r: Return) {
    && r.err != -2
    && (r.err == 0 ==> r.final.Some? && IsFinal(r.final.value))
    && (r.reply.Some? ==>
          && r.reply.value.final == r.final && NoFinals(r.reply.value.lines)
          && (r.final.Some? ==> (r.reply.value.success <==> IsSuccess(r.final.value))))
  }

  lemma {:induction false} ReverseMembers<T>(s: seq<T>, k: nat)
    requires k < |s|
    ensures Reverse(s)[k] == s[|s| - 1 - k]
  {
    if k < |s| - 1 {
      ReverseMembers(s[1..], k);
    }
  }

  // A step that makes the send function return leaves nothing pending, and 0 is returned only
  // with a final response and an open channel.
  lemma ReturnMeans(s: Channel, step: Step)
    requires Inv(s) && !Clash(s, step) && Next(s, step).results != s.results
    ensures var s' := Next(s, step);
            && s'.pending.None? && s'.waiting.None?
            && |s'.results| == |s.results| + 1 && s'.results[..|s.results|] == s.results
            && GoodReturn(s'.results[|s.results|])
            && (s'.results[|s.results|].err == 0 ==> !s'.closed)
  {
    if step.Wake? {
      var stored := s.pending.value.stored;
      forall k | 0 <= k < |stored|
        ensures !IsFinal(Reverse(stored)[k])
      {
        ReverseMembers(stored, k);
      }
    }
  }

  // The waiting loop looks for a final response through the pending one.
  predicate LooksThroughNull(s: Channel) {
    s.waiting.Some? && s.pending.None?
  }

  // A second writer finds the first one's response pending and frees it, although the first still
  // waits: when that one wakes it looks through a null pointer.
  lemma SecondWriter(s: Channel, cmd: Command, written: bool)
    requires Inv(s) && s.waiting.Some?
    ensures var id := s.pending.value.id;
            var s' := Next(s, Issue(cmd, written));
            && !LooksThroughNull(s) && LooksThroughNull(s') && s'.waiting == s.waiting
            && s.freed[id] == 0 && s'.freed[id] == 1
            && s'.results == s.results + [Return(-2, None, None)]
  {
    assert Owned(s, s.pending.value.id);
  }

  lemma ResultsGrow(s: Channel, step: Step)
    ensures s.results <= Next(s, step).results
  {
  }

  ghost predicate AllGood(results: seq<Return>) {
    forall k :: 0 <= k < |results| ==> GoodReturn(results[k])
  }

  // Every return in a run is good if and only if there is one writer; then no waiting command ever
  // looks through a null pointer.
  lemma {:induction false} EveryReturnIsGood(hooked: bool, steps: seq<Step>)
    ensures AllGood(After(Opened(hooked), steps).results) <==> OneWriter(Opened(hooked), steps)
    ensures OneWriter(Opened(hooked), steps) ==> !LooksThroughNull(After(Opened(hooked), steps))
  {
    if steps != [] {
      var front, last := steps[..|steps| - 1], steps[|steps| - 1];
      EveryReturnIsGood(hooked, front);
      OneMoreReturn(hooked, front, last);
    }
  }

  // Some prefix of the run leaves a command waiting without a response.
  predicate NullReached(s: Channel, steps: seq<Step>) {
    exists k: nat :: k <= |steps| && LooksThroughNull(After(s, steps[..k]))
  }

  lemma NullReachedSnoc(s: Channel, front: seq<Step>, last: Step)
    ensures NullReached(s, front + [last]) <==> NullReached(s, front) || LooksThroughNull(After(s, front + [last]))
  {
    hide LooksThroughNull, After;
    var steps := front + [last];
    assert steps[..|steps|] == steps;
    assert forall k: nat :: k <= |front| ==> front[..k] == steps[..k];
  }

  lemma OneWriterSnoc(s: Channel, front: seq<Step>, last: Step)
    ensures OneWriter(s, front + [last]) <==> OneWriter(s, front) && !Clash(After(s, front), last)
    ensures After(s, front + [last]) == Next(After(s, front), last)
  {
    hide Clash, Next;
    assert (front + [last])[..|front|] == front;
  }

  // The null pointer is met in a run if and only if there are two writers.
  lemma {:induction false} NullReachedExactly(hooked: bool, steps: seq<Step>)
    ensures NullReached(Opened(hooked), steps) <==> !OneWriter(Opened(hooked), steps)
  {
    hide LooksThroughNull, After, Next, Clash, Opened, Inv;
    var s := Opened(hooked);
    OpenedInv(hooked);
    if steps == [] {
      EveryReturnIsGood(hooked, steps);
      assert steps[..0] == steps;
    } else {
      var front, last := steps[..|steps| - 1], steps[|steps| - 1];
      assert steps == front + [last];
      hide NullReached, OneWriter;
      NullReachedExactly(hooked, front);
      NullReachedSnoc(s, front, last);
      OneWriterSnoc(s, front, last);
      if OneWriter(s, steps) {
        EveryReturnIsGood(hooked, steps);
      } else if OneWriter(s, front) {
        RunKeepsInv(s, front);
        ClashLeavesNull(After(s, front), last);
      }
    }
  }

  lemma ClashLeavesNull(s: Channel, step: Step)
    requires Inv(s) && Clash(s, step)
    ensures LooksThroughNull(Next(s, step))
  {
    SecondWriter(s, step.cmd, step.written);
  }

  lemma OneMoreReturn(hooked: bool, front: seq<Step>, last: Step)
    requires AllGood(After(Opened(hooked), front).results) <==> OneWriter(Opened(hooked), front)
    ensures var s := After(Opened(hooked), front);
            AllGood(Next(s, last).results) <==> OneWriter(Opened(hooked), front) && !Clash(s, last)
    ensures var s := After(Opened(hooked), front);
            OneWriter(Opened(hooked), front) && !Clash(s, last) ==> !LooksThroughNull(Next(s, last))
  {
    hide After, OneWriter, GoodReturn, Next;
    var s := After(Opened(hooked), front);
    var r, r' := s.results, Next(s, last).results;
    ResultsGrow(s, last);
    assert forall k :: 0 <= k < |r| ==> r[k] == r'[k];
    if OneWriter(Opened(hooked), front) {
      OpenedInv(hooked);
      RunKeepsInv(Opened(hooked), front);
      if Clash(s, last) {
        SecondWriter(s, last.cmd, last.written);
        assert r'[|r|].err == AT_ERROR_COMMAND_PENDING;
        PendingIsBad(r'[|r|]);
      } else {
        NextKeepsInv(s, last);
        if r' != r {
          ReturnMeans(s, last);
        }
      }
    }
  }

  lemma OpenedInv(hooked: bool)
    ensures Inv(Opened(hooked))
  {
  }

  lemma PendingIsBad(r: Return)
    requires r.err == AT_ERROR_COMMAND_PENDING
    ensures !GoodReturn(r)
  {
  }

  // The command thread leaves its wait after the reader has died only if a callback was
  // registered for that event, the channel is closed, or the response had already come.
  lemma DeadReader(s: Channel)
    requires Inv(s) && s.waiting.Some?
    ensures Next(Next(s, ReaderEnds), Wake).waiting.None?
            <==> s.hooked || s.closed || s.pending.value.final.Some?
  {
  }

  // A step that brings the command thread neither a line nor the news of a closed channel.
  predicate Silent(step: Step) {
    step.SmsPair? || step.ReaderEnds? || step.Wake? || step.Expire?
  }

  // Without a callback an untimed command that has no final response keeps waiting, whatever
  // happens, as long as no line comes and the channel is not closed.
  lemma {:induction false} DeadReaderWaits(s: Channel, steps: seq<Step>)
    requires s.waiting.Some? && !s.waiting.value.timed && !s.hooked && !s.closed
    requires s.pending.Some? && s.pending.value.final.None?
    requires forall k :: 0 <= k < |steps| ==> Silent(steps[k])
    ensures var t := After(s, steps);
            t.waiting == s.waiting && t.pending == s.pending && t.results == s.results && !t.closed && !t.hooked
  {
    if steps != [] {
      DeadReaderWaits(s, steps[..|steps| - 1]);
      assert Silent(steps[|steps| - 1]);
    }
  }

  // --- conservation ---

  function LinesIn(e: Effect): seq<string> {
    match e
    case Unsolicited(line) => [line]
    case SmsDelivered(header, body) => [header, body]
    case Kept(line) => [line]
    case Finished(line) => [line]
    case PduSent(_, line) => [line]
  }

  function Consumed(log: seq<Effect>): seq<string> {
    if log == [] then [] else Consumed(log[..|log| - 1]) + LinesIn(log[|log| - 1])
  }

  function LinesFed(step: Step): seq<string> {
    match step
    case Line(line) => [line]
    case SmsPair(header, body) => [header, body]
    case _ => []
  }

  function Fed(steps: seq<Step>): seq<string> {
    if steps == [] then [] else Fed(steps[..|steps| - 1]) + LinesFed(steps[|steps| - 1])
  }

  lemma StepConserves(s: Channel, step: Step)
    ensures Consumed(Next(s, step).log) == Consumed(s.log) + LinesFed(step)
  {
    var s' := Next(s, step);
    if step.Line? || step.SmsPair? {
      var e := s'.log[|s.log|];
      assert s'.log == s.log + [e];
      assert s'.log[..|s'.log| - 1] == s.log;
      assert LinesIn(e) == LinesFed(step);
    } else {
      assert s'.log == s.log;
    }
  }

  // Every line the reader hands over is consumed exactly once, and in order.
  lemma {:induction false} LinesConserved(s: Channel, steps: seq<Step>)
    ensures Consumed(After(s, steps).log) == Consumed(s.log) + Fed(steps)
  {
    if steps != [] {
      LinesConserved(s, steps[..|steps| - 1]);
      StepConserves(After(s, steps[..|steps| - 1]), steps[|steps| - 1]);
    }
  }

  // A line that arrives while no command is pending is unsolicited, whatever it says.
  lemma IdleLine(s: Channel, line: string)
    requires Inv(s) && s.waiting.None?
    ensures Next(s, Line(line)) == s.(log := s.log + [Unsolicited(line)])
  {
  }

  // --- the response as a filter of the lines ---

  function LinesOf(steps: seq<Step>): seq<string> {
    if steps == [] then []
    else LinesOf(steps[..|steps| - 1]) + if steps[|steps| - 1].Line? then [steps[|steps| - 1].line] else []
  }

  function NonFinal(lines: seq<string>): seq<string> {
    if lines == [] then []
    else NonFinal(lines[..|lines| - 1]) + if IsFinal(lines[|lines| - 1]) then [] else [lines[|lines| - 1]]
  }

  // The last final response.
  function LastFinal(lines: seq<string>): Option<string> {
    if lines == [] then None
    else if IsFinal(lines[|lines| - 1]) then Some(lines[|lines| - 1])
    else LastFinal(lines[..|lines| - 1])
  }

  // The prompt that fetches the PDU is no line of the response.
  function WithoutPrompt(pdu: Option<string>, lines: seq<string>): seq<string> {
    if pdu.None? || lines == [] then lines
    else if lines[0] == PROMPT then lines[1..]
    else [lines[0]] + WithoutPrompt(pdu, lines[1..])
  }

  function Matching(kind: Kind, prefix: string, lines: seq<string>): seq<string> {
    if lines == [] then []
    else Matching(kind, prefix, lines[..|lines| - 1])
         + if Wanted(kind, prefix, lines[|lines| - 1]) then [lines[|lines| - 1]] else []
  }

  // The intermediate lines of the response to cmd, given all lines since it was issued: all
  // that match for a multi-line command, the first that matches for the others.
  function Accepted(cmd: Command, lines: seq<string>): seq<string> {
    FirstOnly(cmd.kind, Matching(cmd.kind, cmd.prefix, WithoutPrompt(cmd.pdu, NonFinal(lines))))
  }

  function FirstOnly(kind: Kind, m: seq<string>): seq<string> {
    if kind.MultiLine? || m == [] then m else m[..1]
  }

  lemma {:induction false} WithoutPromptSnoc(pdu: Option<string>, lines: seq<string>, x: string)
    ensures WithoutPrompt(pdu, lines + [x]) ==
              if pdu.Some? && PROMPT !in lines && x == PROMPT then WithoutPrompt(pdu, lines)
              else WithoutPrompt(pdu, lines) + [x]
  {
    if lines == [] {
      assert lines + [x] == [x];
    } else {
      assert (lines + [x])[1..] == lines[1..] + [x];
      WithoutPromptSnoc(pdu, lines[1..], x);
    }
  }

  lemma MatchingSnoc(kind: Kind, prefix: string, lines: seq<string>, x: string)
    ensures Matching(kind, prefix, lines + [x]) == Matching(kind, prefix, lines) + if Wanted(kind, prefix, x) then [x] else []
  {
    assert (lines + [x])[..|lines|] == lines;
  }

  lemma NonFinalSnoc(lines: seq<string>, x: string)
    ensures NonFinal(lines + [x]) == NonFinal(lines) + if IsFinal(x) then [] else [x]
    ensures LastFinal(lines + [x]) == if IsFinal(x) then Some(x) else LastFinal(lines)
  {
    assert (lines + [x])[..|lines|] == lines;
  }

  // p is what the lines since the command was issued make of its response.
  predicate Assembled(p: Pending, cmd: Command, lines: seq<string>) {
    && p.kind == cmd.kind && p.prefix == cmd.prefix
    && p.final == LastFinal(lines)
    && p.success == (p.final.Some? && IsSuccess(p.final.value))
    && p.pdu == (if PROMPT in NonFinal(lines) then None else cmd.pdu)
    && Reverse(p.stored) == Accepted(cmd, lines)
  }

  lemma BodySnoc(pdu: Option<string>, lines: seq<string>, x: string)
    ensures WithoutPrompt(pdu, NonFinal(lines + [x])) ==
              if IsFinal(x) || (pdu.Some? && PROMPT !in NonFinal(lines) && x == PROMPT)
              then WithoutPrompt(pdu, NonFinal(lines))
              else WithoutPrompt(pdu, NonFinal(lines)) + [x]
  {
    NonFinalSnoc(lines, x);
    WithoutPromptSnoc(pdu, NonFinal(lines), x);
    assert NonFinal(lines) + [] == NonFinal(lines);
  }

  lemma FirstOnlySnoc(kind: Kind, m: seq<string>, x: string)
    ensures FirstOnly(kind, m + [x]) ==
              if kind.MultiLine? || FirstOnly(kind, m) == [] then FirstOnly(kind, m) + [x] else FirstOnly(kind, m)
  {
    assert m != [] ==> (m + [x])[..1] == m[..1];
    assert m == [] ==> (m + [x])[..1] == m + [x];
  }

  // How one more line changes the filter.
  lemma AcceptedSnoc(cmd: Command, lines: seq<string>, x: string)
    ensures Accepted(cmd, lines + [x]) ==
              if IsFinal(x) || (cmd.pdu.Some? && PROMPT !in NonFinal(lines) && x == PROMPT) then Accepted(cmd, lines)
              else if Wanted(cmd.kind, cmd.prefix, x) && (cmd.kind.MultiLine? || Accepted(cmd, lines) == [])
              then Accepted(cmd, lines) + [x]
              else Accepted(cmd, lines)
  {
    var body := WithoutPrompt(cmd.pdu, NonFinal(lines));
    var m := Matching(cmd.kind, cmd.prefix, body);
    BodySnoc(cmd.pdu, lines, x);
    MatchingSnoc(cmd.kind, cmd.prefix, body, x);
    FirstOnlySnoc(cmd.kind, m, x);
    assert m + [] == m;
  }

  lemma AssembleLine(p: Pending, cmd: Command, lines: seq<string>, x: string)
    requires Assembled(p, cmd, lines)
    ensures Assembled(Classify(p, x).0, cmd, lines + [x])
  {
    NonFinalSnoc(lines, x);
    AcceptedSnoc(cmd, lines, x);
    assert NonFinal(lines) + [] == NonFinal(lines);
    assert ([x] + p.stored)[1..] == p.stored;
  }

  // A command that is pending after a step was pending before, and only a line changed it.
  lemma StaysPending(s: Channel, step: Step, id: nat)
    requires id < s.issued && Owned(Next(s, step), id)
    ensures Owned(s, id) && Next(s, step).waiting == s.waiting
    ensures Next(s, step).pending.value ==
              if step.Line? then Classify(s.pending.value, step.line).0 else s.pending.value
  {
  }

  // Whatever else happens meanwhile, as long as the command is pending its response is the
  // filter of the lines that came since it was issued.
  lemma {:induction false} ResponseIsFilter(s: Channel, cmd: Command, steps: seq<Step>)
    requires Inv(s) && s.waiting.None? && !s.closed
    requires Owned(After(Next(s, Issue(cmd, true)), steps), s.issued)
    ensures Assembled(After(Next(s, Issue(cmd, true)), steps).pending.value, cmd, LinesOf(steps))
    ensures After(Next(s, Issue(cmd, true)), steps).waiting == Some(cmd)
  {
    var s1 := Next(s, Issue(cmd, true));
    NextKeepsInv(s, Issue(cmd, true));
    if steps == [] {
      assert Assembled(s1.pending.value, cmd, []);
    } else {
      var front, last := steps[..|steps| - 1], steps[|steps| - 1];
      var t := After(s1, front);
      IssuedGrows(s1, front);
      StaysPending(t, last, s.issued);
      ResponseIsFilter(s, cmd, front);
      if last.Line? {
        AssembleLine(t.pending.value, cmd, LinesOf(front), last.line);
      } else {
        assert LinesOf(steps) == LinesOf(front);
      }
    }
  }

  lemma {:induction false} IssuedGrows(s: Channel, steps: seq<Step>)
    ensures s.issued <= After(s, steps).issued
  {
    if steps != [] {
      IssuedGrows(s, steps[..|steps| - 1]);
    }
  }

  // The response a command returns with: the final line, whether it is a success, and the accepted lines in
  // the order of arrival.
  lemma DeliveredResponse(s: Channel, cmd: Command, steps: seq<Step>)
    requires Inv(s) && s.waiting.None? && !s.closed
    requires Owned(After(Next(s, Issue(cmd, true)), steps), s.issued)
    ensures var t := After(Next(s, Issue(cmd, true)), steps);
            var t' := Next(t, Wake);
            var lines := LinesOf(steps);
            if t.closed || LastFinal(lines).Some? then
              && |t'.results| == |t.results| + 1
              && var r := t'.results[|t.results|];
              && r.err == (if t.closed then AT_ERROR_CHANNEL_CLOSED else 0)
              && r.final == LastFinal(lines)
              && r.reply == (if cmd.wanted then Some(Reply(r.final.Some? && IsSuccess(r.final.value), r.final, Accepted(cmd, lines)))
                             else None)
            else t' == t
  {
    ResponseIsFilter(s, cmd, steps);
  }

  // --- the log and the response ---

  // The lines a log says were kept, and the last it says was final.
  function KeptIn(log: seq<Effect>): seq<string> {
    if log == [] then []
    else KeptIn(log[..|log| - 1]) + if log[|log| - 1].Kept? then [log[|log| - 1].line] else []
  }

  function FinishedIn(log: seq<Effect>): Option<string> {
    if log == [] then None
    else if log[|log| - 1].Finished? then Some(log[|log| - 1].line)
    else FinishedIn(log[..|log| - 1])
  }

  lemma LoggedSnoc(log: seq<Effect>, e: Effect)
    ensures KeptIn(log + [e]) == if e.Kept? then KeptIn(log) + [e.line] else KeptIn(log)
    ensures FinishedIn(log + [e]) == if e.Finished? then Some(e.line) else FinishedIn(log)
  {
    assert (log + [e])[..|log|] == log;
  }

  // The log since from agrees with the pending response.
  predicate LogAgrees(s: Channel, from: nat) {
    && from <= |s.log| && s.pending.Some?
    && KeptIn(s.log[from..]) == Reverse(s.pending.value.stored)
    && FinishedIn(s.log[from..]) == s.pending.value.final
  }

  lemma LogStaysAgreed(s: Channel, step: Step, from: nat, id: nat)
    requires LogAgrees(s, from) && id < s.issued && Owned(Next(s, step), id)
    ensures LogAgrees(Next(s, step), from)
  {
    hide KeptIn, FinishedIn;
    StaysPending(s, step, id);
    var s' := Next(s, step);
    if |s'.log| > |s.log| {
      var e := s'.log[|s.log|];
      assert s'.log == s.log + [e];
      assert s'.log[from..] == s.log[from..] + [e];
      LoggedSnoc(s.log[from..], e);
      if step.Line? {
        StoredReversed(s.pending.value, step.line);
      }
    } else {
      assert s'.log == s.log;
    }
  }

  lemma StoredReversed(p: Pending, line: string)
    ensures var (p', e) := Classify(p, line);
            && Reverse(p'.stored) == (if e.Kept? then Reverse(p.stored) + [line] else Reverse(p.stored))
            && p'.final == (if e.Finished? then Some(line) else p.final)
            && (e.Kept? || e.Finished? ==> e.line == line)
  {
    assert ([line] + p.stored)[1..] == p.stored;
  }

  // What became of the lines since a command was issued agrees with its response: the lines logged
  // as kept are those stored, in order, and the last logged as final is the final line.
  lemma {:induction false} ResponseIsLogged(s: Channel, cmd: Command, steps: seq<Step>)
    requires Inv(s) && s.waiting.None? && !s.closed
    requires Owned(After(Next(s, Issue(cmd, true)), steps), s.issued)
    ensures LogAgrees(After(Next(s, Issue(cmd, true)), steps), |s.log|)
  {
    var s1 := Next(s, Issue(cmd, true));
    if steps == [] {
      assert s1.log[|s.log|..] == [];
    } else {
      hide Next, LogAgrees;
      var front, last := steps[..|steps| - 1], steps[|steps| - 1];
      var t := After(s1, front);
      IssuedGrows(s1, front);
      IssueTakes(s, cmd);
      StaysPending(t, last, s.issued);
      ResponseIsLogged(s, cmd, front);
      LogStaysAgreed(t, last, |s.log|, s.issued);
    }
  }

  lemma IssueTakes(s: Channel, cmd: Command)
    requires Inv(s) && s.waiting.None? && !s.closed
    ensures Next(s, Issue(cmd, true)).issued == s.issued + 1
  {
  }
}
