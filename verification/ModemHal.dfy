// The modem HAL at work: its queries, its connect routine and its event loop, each proved to do
// what the model of the connect run says.
module ModemHal {
  import opened CString
  import opened Tokens
  import opened Numerals
  import opened TokenCursor
  import opened SimStatus
  import opened SimModem
  import opened SimGuard
  import AtProtocol

  const MODEM_UNKNOWN_STATE: int := -1
  const MODEM_INIT_STATE: int := 0
  const MODEM_IF_UP_STATE: int := 2
  const MODEM_LAST_STATE: int := 6

  const MODEM_NO_EVENT: int := -1
  const MODEM_STARTUP_EVENT: int := 0
  const MODEM_REGISTRATION_EVENT: int := 5
  const MODEM_LAST_EVENT: int := 6

  datatype Handler = InitHandler | RegistrationHandler | NoHandler
  datatype Rule = Rule(state: int, event: int, handler: Handler)

  const RULES: seq<Rule> := [
    Rule(MODEM_INIT_STATE, MODEM_STARTUP_EVENT, InitHandler),
    Rule(MODEM_IF_UP_STATE, MODEM_REGISTRATION_EVENT, RegistrationHandler),
    Rule(MODEM_IF_UP_STATE, MODEM_REGISTRATION_EVENT, RegistrationHandler),
    Rule(MODEM_UNKNOWN_STATE, MODEM_NO_EVENT, NoHandler)
  ]

  // Nothing the modem says has a NUL in it.
  predicate CleanFate(f: Fate) {
    match f
    case Refused(final) => NulFree(final)
    case Answered(rows, line) => NulFree(line) && forall k :: 0 <= k < |rows| ==> NulFree(PrintRow(rows[k]))
    case _ => true
  }

  predicate Clean(w: World) {
    forall k :: 0 <= k < |w.fates| ==> CleanFate(w.fates[k])
  }

  lemma {:induction false} PrintedRowsClean(rows: seq<Row>)
    requires forall k :: 0 <= k < |rows| ==> NulFree(PrintRow(rows[k]))
    ensures forall k :: 0 <= k < |rows| ==> NulFree(PrintRows(rows)[k])
  {
    hide PrintRow, NulFree;
    if rows != [] {
      PrintedRowsClean(rows[1..]);
    }
  }

  // Every answer is one the channel can give, and the world stays clean.
  lemma AnswerClean(w: World, text: string)
    requires Clean(w)
    ensures Settled(AnswerTo(w, text)) && Clean(WorldAfter(w, text))
  {
    hide PrintRow, PrintRows;
    if CurrentFate(w).Answered? {
      var fate := CurrentFate(w);
      assert CleanFate(w.fates[0]);
      PrintedRowsClean(fate.rows);
      assert NulFree(CpinLine(Field(" ", false, StatusText(w.sim))));
      assert NulFree("+CGREG:" + fate.registration);
    }
  }

  // The modem at the other end of the command channel.
  class Modem {
    var world: World

    constructor (w: World)
      ensures world == w
    {
      world := w;
    }

    method Send(text: string) returns (a: Answer)
      requires Clean(world)
      modifies this
      ensures a == AnswerTo(old(world), text) && world == WorldAfter(old(world), text)
      ensures Settled(a) && Clean(world)
    {
      AnswerClean(world, text);
      a := AnswerTo(world, text);
      world := WorldAfter(world, text);
    }
  }

  // The first string of a response line; None when there is none.
  method FirstString(line: string) returns (text: Option<string>)
    requires NulFree(line)
    ensures text == match Start(line) case None => None case Some(s) => Some(NextTok(s).text)
  {
    var cursor := new Tokenizer(line);
    var err := cursor.Start();
    if err < 0 {
      return None;
    }
    var start;
    err, start := cursor.NextStr();
    var t := cursor.TextAt(start, |cursor.tokens| - 1);
    text := Some(t);
  }

  // One row of the answer to AT+QPINC?: Bad when the query fails on it.
  method ReadRetryRow(line: string) returns (r: Reading)
    requires NulFree(line)
    ensures r == ReadRow(line)
  {
    hide NextTok, IntOf, CutsOnly, CutAt, TokEnd;
    var cursor := new Tokenizer(line);
    var started := cursor.Start();
    var err, start := cursor.NextStr();
    if err < 0 {
      return Bad;
    }
    var facility := cursor.TextAt(start, |cursor.tokens| - 1);
    if !("SC" <= facility) && !("P2" <= facility) {
      return Bad;
    }
    var pin, puk;
    err, pin := cursor.NextInt(Dec, false);
    if err < 0 {
      return Bad;
    }
    err, puk := cursor.NextInt(Dec, false);
    if err < 0 {
      return Bad;
    }
    r := if "SC" <= facility then Sc(pin) else P2;
  }

  // The registration status told by a line; None when there is none.
  method ReadRegistration(line: string) returns (status: Option<int>)
    requires NulFree(line)
    ensures status == Registration(line)
  {
    hide NextTok, IntOf, CutsOnly, CutAt, TokEnd;
    var cursor := new Tokenizer(line);
    var err := cursor.Start();
    if err < 0 {
      return None;
    }
    var urc, value;
    err, urc := cursor.NextInt(Dec, false);
    if err < 0 {
      return None;
    }
    err, value := cursor.NextInt(Dec, false);
    status := if err < 0 then None else Some(value);
  }

  class ModemHal {
    const pin: string
    const modem: Modem
    var state: int

    constructor (pin: string, modem: Modem)
      ensures this.pin == pin && this.modem == modem
    {
      this.pin := pin;
      this.modem := modem;
      state := MODEM_INIT_STATE;
    }

    // modem_hal_check_pin_status.
    method CheckPinStatus() returns (status: Status)
      requires Clean(modem.world)
      modifies modem
      ensures status == PinStatus(AnswerTo(old(modem.world), "AT+CPIN?"))
      ensures modem.world == WorldAfter(old(modem.world), "AT+CPIN?") && Clean(modem.world)
    {
      hide AnswerTo, WorldAfter, Clean, CmeError, NextTok;
      var a := modem.Send("AT+CPIN?");
      if a.err != 0 {
        return NotReady;
      }
      var response := a.reply.value;
      var final: Tokenizer? := null;
      if response.final.Some? {
        final := new Tokenizer(response.final.value);
      }
      var cme := GetCmeError(response.success, final);
      if cme == CME_SIM_NOT_INSERTED {
        return Absent;
      } else if cme != CME_SUCCESS {
        return NotReady;
      }
      if response.lines == [] {
        return Faulted;
      }
      var text := FirstString(response.lines[0]);
      if text.None? {
        return NotReady;
      }
      status := StatusOf(text.value);
    }

    // modem_hal_get_numretries(RIL_REQUEST_CHANGE_SIM_PIN).
    method GetNumRetries(unset: int) returns (n: int)
      requires Clean(modem.world)
      modifies modem
      ensures n == NumRetries(AnswerTo(old(modem.world), "AT+QPINC?"), unset)
      ensures modem.world == WorldAfter(old(modem.world), "AT+QPINC?") && Clean(modem.world)
    {
      hide AnswerTo, WorldAfter, Clean, ReadRow;
      var a := modem.Send("AT+QPINC?");
      if a.err < 0 || a.reply.None? || !a.reply.value.success {
        return -1;
      }
      var lines := a.reply.value.lines;
      n := unset;
      var i := 0;
      while i < |lines|
        invariant 0 <= i <= |lines|
        invariant Retries(lines, unset) == Retries(lines[i..], n)
        invariant modem.world == WorldAfter(old(modem.world), "AT+QPINC?") && Clean(modem.world)
      {
        var reading := ReadRetryRow(lines[i]);
        assert lines[i..][1..] == lines[i + 1..];
        match reading {
          case Bad => return -1;
          case P2 =>
          case Sc(pin1) => n := pin1;
        }
        i := i + 1;
      }
    }

    // enter_sim_pin.
    method EnterSimPin() returns (result: int)
      requires Clean(modem.world)
      modifies modem
      ensures (modem.world, result) == Enter(old(modem.world), pin) && Clean(modem.world)
    {
      hide AnswerTo, WorldAfter, Clean, NextTok;
      var entered := modem.Send(PinText(pin));
      if entered.err < 0 || !entered.reply.value.success {
        return -1;
      }
      var query := modem.Send("AT+CPIN?");
      if query.err < 0 || !query.reply.value.success {
        return -1;
      }
      if query.reply.value.lines == [] {
        return -1;
      }
      var text := FirstString(query.reply.value.lines[0]);
      if text.None? {
        return -1;
      }
      if text.value == "READY" {
        result := 0;
      } else if text.value == "SIM PIN2" {
        result := -2;
      } else if text.value == "SIM PUK2" {
        result := -3;
      } else {
        result := -4;
      }
    }

    method SendEach(texts: seq<string>)
      requires Clean(modem.world)
      modifies modem
      ensures modem.world == SendAll(old(modem.world), texts) && Clean(modem.world)
    {
      hide AnswerTo, WorldAfter, Clean;
      var i := 0;
      while i < |texts|
        invariant 0 <= i <= |texts| && Clean(modem.world)
        invariant SendAll(modem.world, texts[i..]) == SendAll(old(modem.world), texts)
      {
        assert texts[i..][1..] == texts[i + 1..];
        var _ := modem.Send(texts[i]);
        i := i + 1;
      }
    }

    // modem_hal_get_registration_status.
    method GetRegistrationStatus() returns (outcome: Outcome)
      requires Clean(modem.world)
      modifies modem
      ensures (modem.world, outcome) == Poll(old(modem.world), 0) && Clean(modem.world)
    {
      hide AnswerTo, WorldAfter, Clean, Registration, Searching;
      var count := 0;
      while true
        invariant 0 <= count <= MAX_POLLS && Clean(modem.world)
        invariant Poll(modem.world, count) == Poll(old(modem.world), 0)
        decreases MAX_POLLS - count
      {
        var a := modem.Send("AT+CGREG?");
        if a.err != 0 {
          return Failed;
        }
        if a.reply.value.lines == [] {
          return Crashed;
        }
        var status := ReadRegistration(a.reply.value.lines[0]);
        if status.None? {
          return Failed;
        }
        count := count + 1;
        if count > MAX_POLLS {
          return Failed;
        }
        if !Searching(status.value) {
          return if status.value < 0 then Failed else Connected;
        }
      }
    }

    // The end of modem_hal_connect; the data call's command can be run if piped.
    method BringUp(piped: bool) returns (outcome: Outcome)
      requires Clean(modem.world)
      modifies modem
      ensures (modem.world, outcome) == SimGuard.BringUp(old(modem.world), piped) && Clean(modem.world)
    {
      hide AnswerTo, WorldAfter, Clean, Poll, SendAll;
      SendEach(BEFORE_CREG);
      var a := modem.Send("AT+CREG=2");
      if a.err < 0 || !a.reply.value.success {
        var _ := modem.Send("AT+CREG=1");
      }
      SendEach(AFTER_CREG);
      outcome := GetRegistrationStatus();
      if outcome.Connected? && !piped {
        outcome := Failed;
      }
    }

    // modem_hal_connect.
    method Connect(unset: int, piped: bool) returns (outcome: Outcome)
      requires Clean(modem.world)
      modifies modem
      ensures (modem.world, outcome) == SimGuard.Connect(old(modem.world), pin, unset, piped)
      ensures Clean(modem.world)
    {
      hide AnswerTo, WorldAfter, Clean, PinStatus, NumRetries, Enter, SimGuard.BringUp;
      var status := CheckPinStatus();
      match status {
        case Absent => return Failed;
        case NotReady => return Failed;
        case Puk => return Failed;
        case Faulted => return Crashed;
        case Ready =>
        case Pin =>
          var retries := GetNumRetries(unset);
          if retries > 1 {
            var result := EnterSimPin();
            if result != 0 {
              return Failed;
            }
          } else {
            return Failed;
          }
      }
      outcome := BringUp(piped);
    }

    // The handler that the rules give for a state and an event.
    method FindHandler(event: int) returns (handler: Handler)
      ensures handler == if state == MODEM_INIT_STATE && event == MODEM_STARTUP_EVENT then InitHandler
                         else if state == MODEM_IF_UP_STATE && event == MODEM_REGISTRATION_EVENT then RegistrationHandler
                         else NoHandler
    {
      var i := 0;
      while RULES[i].handler != NoHandler
        invariant 0 <= i <= 3
        invariant i > 0 ==> !(state == MODEM_INIT_STATE && event == MODEM_STARTUP_EVENT)
        invariant i > 1 ==> !(state == MODEM_IF_UP_STATE && event == MODEM_REGISTRATION_EVENT)
        decreases 3 - i
      {
        if RULES[i].event == event && RULES[i].state == state {
          break;
        }
        i := i + 1;
      }
      handler := RULES[i].handler;
    }

    // modem_events, until it has used up the attempts or the events it is given: all that reaches
    // the modem is one run of retries, and once connected the HAL never connects again, whatever
    // events arrive.
    method ModemEvents(attempts: seq<Attempt>, events: seq<int>) returns (crashed: bool)
      requires Clean(modem.world) && modem as object != this
      modifies this, modem
      ensures var (w, outcome) := Retry(WorldAfter(old(modem.world), "AT+CGREG?\n"), pin, attempts);
              && modem.world == w && (crashed <==> outcome.Crashed?)
              && state == if outcome.Connected? then MODEM_IF_UP_STATE else MODEM_INIT_STATE
    {
      hide AnswerTo, WorldAfter, Clean, SimGuard.Connect;
      state := MODEM_INIT_STATE;
      var event := MODEM_STARTUP_EVENT;
      var ignored := modem.Send("AT+CGREG?\n");
      ghost var from := modem.world;
      var i, j := 0, 0;
      crashed := false;
      while if state == MODEM_INIT_STATE then i < |attempts| else j < |events|
        invariant i <= |attempts| && j <= |events| && Clean(modem.world)
        invariant state == MODEM_INIT_STATE || state == MODEM_IF_UP_STATE
        invariant state == MODEM_INIT_STATE ==> event == MODEM_STARTUP_EVENT
        invariant Retry(from, pin, attempts) == if state == MODEM_INIT_STATE then Retry(modem.world, pin, attempts[i..])
                                                else (modem.world, Connected)
        decreases |attempts| - i + |events| - j
      {
        if state != MODEM_INIT_STATE {
          event := events[j];
          j := j + 1;
        }
        if state < MODEM_LAST_STATE && event < MODEM_LAST_EVENT {
          var handler := FindHandler(event);
          if handler.InitHandler? {
            var outcome := Connect(attempts[i].unset, attempts[i].piped);
            assert attempts[i..][1..] == attempts[i + 1..];
            i := i + 1;
            if outcome.Crashed? {
              return true;
            }
            state := if outcome.Connected? then MODEM_IF_UP_STATE else MODEM_INIT_STATE;
          } else if handler.RegistrationHandler? {
            state := MODEM_IF_UP_STATE;
          }
        }
      }
    }
  }
}
