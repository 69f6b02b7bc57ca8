// A modem with a SIM that counts PIN tries, as the HAL sees it through the command channel: what
// becomes of its commands, and what it is told.
module SimModem {
  import opened CString
  import opened Tokens
  import opened Numerals
  import opened SimStatus
  import opened AtExchange
  import AtProtocol

  // --- the SIM ---

  // pin opens the SIM; tries are left for it, out of full; presented counts the PINs it was given.
  datatype Sim = Sim(pin: string, full: nat, tries: nat, open: bool, presented: nat)

  // A SIM with a try left.
  predicate Usable(sim: Sim) {
    1 <= sim.tries <= sim.full < TWO_31
  }

  const PIN_COMMAND: string := "AT+CPIN=\""
  const PIN_COMMAND_SIZE: nat := 20

  function PinCommand(pin: string): string {
    PIN_COMMAND + pin + ['"']
  }

  // The command as it fits the buffer it is printed into, terminator included.
  function PinText(pin: string): string {
    var text := PinCommand(pin);
    if |text| < PIN_COMMAND_SIZE then text else text[..PIN_COMMAND_SIZE - 1]
  }

  // A PIN is given: a wrong one costs a try, the right one restores them all.
  function Present(sim: Sim, text: string): Sim {
    var s := sim.(presented := sim.presented + 1);
    if sim.open || sim.tries == 0 then s
    else if text == PinCommand(sim.pin) then s.(tries := sim.full, open := true)
    else s.(tries := sim.tries - 1)
  }

  function StatusText(sim: Sim): string {
    if sim.tries == 0 then "SIM PUK" else if sim.open then "READY" else "SIM PIN"
  }

  // --- the modem ---

  // What becomes of a command: it is never sent; it is obeyed but its answer is lost; it is
  // refused without effect; or it is obeyed and answered.  Asked for the tries left the modem then
  // tells rows, and asked for its registration the given text.
  datatype Fate = Unsent | Unanswered | Refused(final: string) | Answered(rows: seq<Row>, registration: string)

  datatype World = World(sim: Sim, fates: seq<Fate>)

  function CurrentFate(w: World): Fate {
    if w.fates == [] then Unsent else w.fates[0]
  }

  // Rows that tell how many tries are left, and of which the last for the SIM PIN tells the truth.
  predicate Truthful(rows: seq<Row>, tries: nat) {
    && (forall k :: 0 <= k < |rows| ==> GoodRow(rows[k]))
    && LastSc(rows) == Some(tries)
  }

  function SimAfter(sim: Sim, text: string): Sim {
    if PIN_COMMAND <= text then Present(sim, text) else sim
  }

  function Response(sim: Sim, text: string, fate: Fate): AtProtocol.Reply
    requires fate.Answered?
  {
    if text == "AT+CPIN?" then AtProtocol.Reply(true, Some("OK"), [CpinLine(Field(" ", false, StatusText(sim)))])
    else if text == "AT+QPINC?" then AtProtocol.Reply(true, Some("OK"), PrintRows(fate.rows))
    else if text == "AT+CGREG?" then AtProtocol.Reply(true, Some("OK"), ["+CGREG:" + fate.registration])
    else if PIN_COMMAND <= text && !SimAfter(sim, text).open then AtProtocol.Reply(false, Some("+CME ERROR: 16"), [])
    else AtProtocol.Reply(true, Some("OK"), [])
  }

  function WorldAfter(w: World, text: string): World {
    var rest := if w.fates == [] then [] else w.fates[1..];
    var fate := CurrentFate(w);
    World(if fate.Unanswered? || fate.Answered? then SimAfter(w.sim, text) else w.sim, rest)
  }

  function AnswerTo(w: World, text: string): Answer {
    match CurrentFate(w)
    case Unsent => Answer(AtProtocol.AT_ERROR_GENERIC, None)
    case Unanswered => Answer(AtProtocol.AT_ERROR_TIMEOUT, None)
    case Refused(final) => Answer(0, Some(AtProtocol.Reply(false, Some(final), [])))
    case Answered(_, _) => Answer(0, Some(Response(w.sim, text, CurrentFate(w))))
  }

  // --- what the answers say ---

  // The tries the HAL reads off a truthful answer are those the SIM has.
  lemma RetriesAreTrue(w: World, unset: int)
    requires CurrentFate(w).Answered? ==> Truthful(CurrentFate(w).rows, w.sim.tries)
    ensures var n := NumRetries(AnswerTo(w, "AT+QPINC?"), unset);
            n == if CurrentFate(w).Answered? then w.sim.tries else -1
  {
    hide Retries, PrintRows, PrintRow, LastSc;
    if CurrentFate(w).Answered? {
      RetriesOfPrinted(CurrentFate(w).rows, unset);
    }
  }

  // The status read off an answered query is the SIM's.
  lemma StatusIsTrue(w: World)
    requires CurrentFate(w).Answered?
    ensures PinStatus(AnswerTo(w, "AT+CPIN?")) == StatusOf(StatusText(w.sim))
  {
    hide PinStatus, CpinLine;
    var f := Field(" ", false, StatusText(w.sim));
    StatusOfPrinted(f, Some("OK"), []);
    assert [CpinLine(f)] + [] == [CpinLine(f)];
  }

  // A command that differs from the one that gives the PIN before its fifth character ends.
  predicate NoPinCommand(text: string) {
    |text| > 4 && (text[2] != '+' || text[3] != 'C' || text[4] != 'P')
  }

  lemma NotThePin(sim: Sim, text: string)
    requires NoPinCommand(text) || text == "AT+CPIN?"
    ensures SimAfter(sim, text) == sim
  {
    assert PIN_COMMAND[2] == '+' && PIN_COMMAND[3] == 'C' && PIN_COMMAND[4] == 'P' && PIN_COMMAND[7] == '=';
    assert text == "AT+CPIN?" ==> text[7] == '?';
  }

  lemma PinTextIsPin(pin: string)
    ensures PIN_COMMAND <= PinText(pin)
  {
  }

  // The command tells the whole PIN if and only if the PIN has at most nine characters; of a longer
  // one it tells ten, without the closing quote.
  lemma PinFits(pin: string)
    ensures PinText(pin) == "AT+CPIN=\"" + pin + "\"" <==> |pin| <= 9
    ensures PinText(pin) == PinCommand(pin) <==> |pin| <= 9
    ensures |pin| > 9 ==> PinText(pin) == "AT+CPIN=\"" + pin[..10]
  {
  }

  // --- the answers as the command channel carries them ---

  // The command as the HAL gives it to the channel.
  function CommandFor(text: string): AtProtocol.Command {
    if text == "AT+CPIN?" then AtProtocol.Command(AtProtocol.SingleLine, "+CPIN:", None, false, true)
    else if text == "AT+QPINC?" then AtProtocol.Command(AtProtocol.MultiLine, "+QPINC", None, false, true)
    else if text == "AT+CGREG?" then AtProtocol.Command(AtProtocol.SingleLine, "+CGREG:", None, false, true)
    else AtProtocol.Command(AtProtocol.NoResult, "", None, false, true)
  }

  lemma Plain(line: string)
    requires |line| > 2 && line[0] == '+' && line[2] != 'M'
    ensures !AtProtocol.IsFinal(line)
  {
    forall k | 0 <= k < |AtProtocol.FINAL_SUCCESS|
      ensures !(AtProtocol.FINAL_SUCCESS[k] <= line)
    {
      assert AtProtocol.FINAL_SUCCESS[k][0] != '+';
    }
    forall k | 0 <= k < |AtProtocol.FINAL_ERROR|
      ensures !(AtProtocol.FINAL_ERROR[k] <= line)
    {
      assert AtProtocol.FINAL_ERROR[k][0] == '+' ==> AtProtocol.FINAL_ERROR[k][2] == 'M';
    }
  }

  lemma {:induction false} RowsCollected(rows: seq<Row>)
    ensures forall k :: 0 <= k < |rows| ==> "+QPINC" <= PrintRows(rows)[k] && !AtProtocol.IsFinal(PrintRows(rows)[k])
  {
    hide PrintFields, FieldsOf, AtProtocol.IsFinal;
    if rows != [] {
      RowsCollected(rows[1..]);
      var line := PrintRow(rows[0]);
      assert line[..6] == "+QPINC" && line[2] == 'P';
      Plain(line);
    }
  }

  // Lines without the prefix that a query waits for; what it waits for decides alone.
  predicate Noise(text: string, line: string) {
    && !AtProtocol.IsFinal(line)
    && (text == "AT+CPIN?" ==> !("+CPIN:" <= line))
    && (text == "AT+QPINC?" ==> !("+QPINC" <= line))
    && (text == "AT+CGREG?" ==> !("+CGREG:" <= line))
  }

  // When the lines of a response arrive while its command is pending, the HAL is handed that
  // response and nothing else, also when unsolicited lines come before it.
  lemma ResponseTravels(s: AtProtocol.Channel, sim: Sim, text: string, fate: Fate, noise: seq<string>)
    requires fate.Answered? && AtProtocol.Inv(s) && s.waiting.None? && !s.closed
    requires forall k :: 0 <= k < |noise| ==> Noise(text, noise[k])
    ensures var r := Response(sim, text, fate);
            AtProtocol.After(s, Exchange(CommandFor(text), noise + r.lines, r.final.value)).results ==
              s.results + [AtProtocol.Return(0, r.final, Some(r))]
  {
    var r := Response(sim, text, fate);
    ResponseCollected(sim, text, fate);
    NoiseIgnored(text, noise);
    hide Response, AtProtocol.After, AtProtocol.Inv, Collects, Ignores, CommandFor;
    ExchangeReturns(s, CommandFor(text), noise, r.lines, r.final.value);
  }

  lemma NoiseIgnored(text: string, noise: seq<string>)
    requires forall k :: 0 <= k < |noise| ==> Noise(text, noise[k])
    ensures Ignores(CommandFor(text), noise)
  {
    hide AtProtocol.IsFinal;
  }

  lemma ResponseCollected(sim: Sim, text: string, fate: Fate)
    requires fate.Answered?
    ensures var r := Response(sim, text, fate);
            && r.final.Some? && AtProtocol.IsFinal(r.final.value) && r.success == AtProtocol.IsSuccess(r.final.value)
            && Collects(CommandFor(text), r.lines)
  {
    hide SimAfter, PrintRows, PrintFields;
    FinalsKnown();
    hide AtProtocol.StartsWithAny;
    if text == "AT+CPIN?" {
      var line := CpinLine(Field(" ", false, StatusText(sim)));
      assert line[..6] == "+CPIN:" && line[2] == 'P';
      Plain(line);
    } else if text == "AT+QPINC?" {
      RowsCollected(fate.rows);
    } else if text == "AT+CGREG?" {
      var line := "+CGREG:" + fate.registration;
      assert line[..7] == "+CGREG:" && line[2] == 'G';
      Plain(line);
    }
  }

  lemma FinalsKnown()
    ensures AtProtocol.IsFinal("OK") && AtProtocol.IsSuccess("OK")
    ensures AtProtocol.IsFinal("+CME ERROR: 16") && !AtProtocol.IsSuccess("+CME ERROR: 16")
  {
    var error := "+CME ERROR: 16";
    assert AtProtocol.FINAL_SUCCESS[0] <= "OK";
    assert AtProtocol.FINAL_ERROR[2] <= error;
    assert error[0] == '+' && AtProtocol.FINAL_SUCCESS[0][0] == 'O' && AtProtocol.FINAL_SUCCESS[1][0] == 'C';
  }
}
