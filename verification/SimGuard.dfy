// The connect run against a SIM that counts PIN tries: whatever becomes of the commands and
// answers on the way, the last try is never spent.
module SimGuard {
  import opened CString
  import opened Tokens
  import opened Numerals
  import opened SimStatus
  import opened SimModem
  import AtProtocol

  // --- the HAL ---

  // enter_sim_pin, on the answers to its two commands.  A success always has a line.
  function PinResult(entered: Answer, query: Answer): int {
    if entered.err < 0 || entered.reply.None? || !entered.reply.value.success then -1
    else if query.err < 0 || query.reply.None? || !query.reply.value.success then -1
    else if query.reply.value.lines == [] then -1
    else match Start(query.reply.value.lines[0])
      case None => -1
      case Some(s) =>
        var text := NextTok(s).text;
        if text == "READY" then 0 else if text == "SIM PIN2" then -2 else if text == "SIM PUK2" then -3 else -4
  }

  function Enter(w: World, pin: string): (World, int) {
    var w1, entered := WorldAfter(w, PinText(pin)), AnswerTo(w, PinText(pin));
    if entered.err < 0 || entered.reply.None? || !entered.reply.value.success then (w1, -1)
    else (WorldAfter(w1, "AT+CPIN?"), PinResult(entered, AnswerTo(w1, "AT+CPIN?")))
  }

  datatype Outcome = Failed | Crashed | Connected

  // --- bringing the connection up ---

  const BEFORE_CREG: seq<string> := ["ATS0=0", "AT+CMEE=1"]
  const AFTER_CREG: seq<string> :=
    ["AT+CGREG=1", "AT+CCWA=1", "AT+CMOD=0", "AT+CMUT=1", "AT+CSSN=0,1", "AT+COLP=0", "AT+CSCS=\"HEX\"", "AT+CUSD=1",
     "AT+CGEREP=1,0", "AT+CMGF=0", "AT+CFUN=1"]

  function SendAll(w: World, texts: seq<string>): World
    decreases |texts|
  {
    if texts == [] then w else SendAll(WorldAfter(w, texts[0]), texts[1..])
  }

  predicate Refuses(a: Answer) {
    a.err < 0 || a.reply.None? || !a.reply.value.success
  }

  // Registration events: a modem that does not know the first form is sent the other.
  function AskCreg(w: World): World {
    var w1 := WorldAfter(w, "AT+CREG=2");
    if Refuses(AnswerTo(w, "AT+CREG=2")) then WorldAfter(w1, "AT+CREG=1") else w1
  }

  function SetUp(w: World): World {
    SendAll(AskCreg(SendAll(w, BEFORE_CREG)), AFTER_CREG)
  }

  lemma {:induction false} SendAllThen(w: World, a: seq<string>, b: seq<string>)
    ensures SendAll(w, a + b) == SendAll(SendAll(w, a), b)
    decreases |a|
  {
    if a == [] {
      assert a + b == b;
    } else {
      assert (a + b)[1..] == a[1..] + b && (a + b)[0] == a[0];
      SendAllThen(WorldAfter(w, a[0]), a[1..], b);
    }
  }

  // The commands of the set-up, in order.
  lemma SetUpSends(w: World)
    ensures var first := ["ATS0=0", "AT+CMEE=1"];
            var w1 := SendAll(w, first);
            var creg := AnswerTo(w1, "AT+CREG=2");
            SetUp(w) == SendAll(w, first + ["AT+CREG=2"]
              + (if creg.err < 0 || creg.reply.None? || !creg.reply.value.success then ["AT+CREG=1"] else [])
              + ["AT+CGREG=1", "AT+CCWA=1", "AT+CMOD=0", "AT+CMUT=1", "AT+CSSN=0,1", "AT+COLP=0", "AT+CSCS=\"HEX\"",
                 "AT+CUSD=1", "AT+CGEREP=1,0", "AT+CMGF=0", "AT+CFUN=1"])
  {
    hide WorldAfter, AnswerTo;
    var first := ["ATS0=0", "AT+CMEE=1"];
    var w1 := SendAll(w, first);
    var again := if Refuses(AnswerTo(w1, "AT+CREG=2")) then ["AT+CREG=1"] else [];
    SendAllThen(w, first, ["AT+CREG=2"]);
    SendAllThen(w, first + ["AT+CREG=2"], again);
    SendAllThen(w, first + ["AT+CREG=2"] + again, AFTER_CREG);
    SendOne(w1, "AT+CREG=2");
    SendOne(WorldAfter(w1, "AT+CREG=2"), "AT+CREG=1");
    hide SendAll;
    assert AskCreg(w1) == SendAll(SendAll(w1, ["AT+CREG=2"]), again) by {
      SendNone(SendAll(w1, ["AT+CREG=2"]));
    }
  }

  lemma SendNone(w: World)
    ensures SendAll(w, []) == w
  {
  }

  lemma SendOne(w: World, text: string)
    ensures SendAll(w, [text]) == WorldAfter(w, text)
  {
    SendNone(WorldAfter(w, text));
    assert [text][1..] == [];
  }

  // The status told by a line of the answer to AT+CGREG?.
  function Registration(line: string): Option<int> {
    match Start(line)
    case None => None
    case Some(s) => if IntAt(Some(s)).None? then None else IntAt(AfterTok(Some(s)))
  }

  const MAX_POLLS: nat := 10

  // modem_hal_get_registration_status: while the modem searches, the HAL asks again, polls times so far.
  function Poll(w: World, polls: nat): (World, Outcome)
    requires polls <= MAX_POLLS
    decreases MAX_POLLS - polls
  {
    var w1, a := WorldAfter(w, "AT+CGREG?"), AnswerTo(w, "AT+CGREG?");
    if a.err != 0 || a.reply.None? then (w1, Failed)
    else if a.reply.value.lines == [] then (w1, Crashed)
    else match Registration(a.reply.value.lines[0])
      case None => (w1, Failed)
      case Some(status) =>
        if polls == MAX_POLLS then (w1, Failed)
        else if Searching(status) then Poll(w1, polls + 1)
        else (w1, if status < 0 then Failed else Connected)
  }

  predicate Searching(status: int) {
    status == 0 || status == 2 || status == 4
  }

  // The end of modem_hal_connect; piped says whether the data call's command can be run.
  function BringUp(w: World, piped: bool): (World, Outcome) {
    var (w1, outcome) := Poll(SetUp(w), 0);
    (w1, if outcome.Connected? && !piped then Failed else outcome)
  }

  // modem_hal_connect; unset is what the tries counter holds before it is read.
  function Connect(w: World, pin: string, unset: int, piped: bool): (World, Outcome) {
    var w1, a := WorldAfter(w, "AT+CPIN?"), AnswerTo(w, "AT+CPIN?");
    match PinStatus(a)
    case Absent => (w1, Failed)
    case NotReady => (w1, Failed)
    case Puk => (w1, Failed)
    case Faulted => (w1, Crashed)
    case Ready => BringUp(w1, piped)
    case Pin =>
      var w2, retries := WorldAfter(w1, "AT+QPINC?"), NumRetries(AnswerTo(w1, "AT+QPINC?"), unset);
      if retries > 1 then
        var (w3, result) := Enter(w2, pin);
        if result == 0 then BringUp(w3, piped) else (w3, Failed)
      else
        (w2, Failed)
  }

  // None of the commands that bring the connection up gives a PIN.
  lemma BeforeCregPlain(k: nat)
    requires k < |BEFORE_CREG|
    ensures NoPinCommand(BEFORE_CREG[k])
  {
  }

  lemma AfterCregPlain(k: nat)
    requires k < |AFTER_CREG|
    ensures NoPinCommand(AFTER_CREG[k])
  {
    assert k == 0 || k == 1 || k == 2 || k == 3 || k == 4 || k == 5 || k == 6 || k == 7 || k == 8 || k == 9 || k == 10;
  }

  lemma {:induction false} SendAllSpares(w: World, texts: seq<string>)
    requires forall k :: 0 <= k < |texts| ==> NoPinCommand(texts[k])
    ensures SendAll(w, texts).sim == w.sim
    decreases |texts|
  {
    hide SimAfter, NoPinCommand;
    if texts != [] {
      assert forall k :: 0 <= k < |texts| - 1 ==> texts[1..][k] == texts[k + 1];
      NotThePin(w.sim, texts[0]);
      SendAllSpares(WorldAfter(w, texts[0]), texts[1..]);
    }
  }

  lemma SetUpSpares(w: World)
    ensures SetUp(w).sim == w.sim
  {
    hide SimAfter, SendAll;
    forall k | 0 <= k < |BEFORE_CREG|
      ensures NoPinCommand(BEFORE_CREG[k])
    {
      BeforeCregPlain(k);
    }
    forall k | 0 <= k < |AFTER_CREG|
      ensures NoPinCommand(AFTER_CREG[k])
    {
      AfterCregPlain(k);
    }
    var w1 := SendAll(w, BEFORE_CREG);
    SendAllSpares(w, BEFORE_CREG);
    NotThePin(w.sim, "AT+CREG=2");
    NotThePin(w.sim, "AT+CREG=1");
    SendAllSpares(AskCreg(w1), AFTER_CREG);
  }

  // The poll leaves the SIM alone and asks at most eleven times.
  lemma {:induction false} PollSpares(w: World, polls: nat)
    requires polls <= MAX_POLLS
    ensures Poll(w, polls).0.sim == w.sim
    ensures |Poll(w, polls).0.fates| + (MAX_POLLS - polls) + 1 >= |w.fates|
    decreases MAX_POLLS - polls
  {
    hide SimAfter, Registration, Response;
    NotThePin(w.sim, "AT+CGREG?");
    if polls < MAX_POLLS {
      PollSpares(WorldAfter(w, "AT+CGREG?"), polls + 1);
    }
  }

  lemma BringUpSpares(w: World, piped: bool)
    ensures BringUp(w, piped).0.sim == w.sim
  {
    hide SetUp, Poll;
    SetUpSpares(w);
    PollSpares(SetUp(w), 0);
  }

  // --- one connect ---

  // If a connect from here asks for the tries left and is answered, it is told the truth.
  predicate Honest(w: World) {
    var w1 := WorldAfter(w, "AT+CPIN?");
    PinStatus(AnswerTo(w, "AT+CPIN?")) == Pin && CurrentFate(w1).Answered? ==> Truthful(CurrentFate(w1).rows, w1.sim.tries)
  }

  // A connect spends at most one try, on a SIM that asks for its PIN and only with another one
  // left, whatever becomes of its commands.
  lemma ConnectSparesLastTry(w: World, pin: string, unset: int, piped: bool)
    requires Usable(w.sim) && Honest(w)
    ensures var sim := Connect(w, pin, unset, piped).0.sim;
            && Usable(sim) && sim.pin == w.sim.pin && sim.full == w.sim.full
            && sim.tries >= w.sim.tries - 1
            && sim.presented <= w.sim.presented + 1
            && (sim.presented > w.sim.presented ==> w.sim.tries > 1)
            && (w.sim.open ==> sim.open && sim.tries == w.sim.tries)
            && (w.sim.tries == 1 ==> sim == w.sim)
  {
    hide PinStatus, NumRetries, PinResult, Response, PinText, BringUp, Truthful;
    var w1 := WorldAfter(w, "AT+CPIN?");
    var w2 := WorldAfter(w1, "AT+QPINC?");
    NotThePin(w.sim, "AT+CPIN?");
    NotThePin(w.sim, "AT+QPINC?");
    BringUpSpares(w1, piped);
    if PinStatus(AnswerTo(w, "AT+CPIN?")) == Pin {
      RetriesAreTrue(w1, unset);
      PinTextIsPin(pin);
      NotThePin(WorldAfter(w2, PinText(pin)).sim, "AT+CPIN?");
      BringUpSpares(Enter(w2, pin).0, piped);
    }
  }

  // --- any number of retries ---

  // What each connect meets besides the modem.
  datatype Attempt = Attempt(unset: int, piped: bool)

  // modem_events in its initial state: connect after connect until one succeeds or crashes.
  function Retry(w: World, pin: string, attempts: seq<Attempt>): (World, Outcome)
    decreases |attempts|
  {
    if attempts == [] then (w, Failed)
    else
      var (w1, outcome) := Connect(w, pin, attempts[0].unset, attempts[0].piped);
      if outcome.Failed? then Retry(w1, pin, attempts[1..]) else (w1, outcome)
  }

  // The world after n connects.
  function AfterConnects(w: World, pin: string, attempts: seq<Attempt>, n: nat): World
    requires n <= |attempts|
  {
    if n == 0 then w
    else Connect(AfterConnects(w, pin, attempts, n - 1), pin, attempts[n - 1].unset, attempts[n - 1].piped).0
  }

  predicate AllFail(w: World, pin: string, attempts: seq<Attempt>, n: nat)
    requires n <= |attempts|
  {
    forall k: nat :: k < n ==>
      Connect(AfterConnects(w, pin, attempts, k), pin, attempts[k].unset, attempts[k].piped).1 == Failed
  }

  // The HAL connects until a connect succeeds or crashes, and then never again.
  lemma {:induction false} RetriesEnd(w: World, pin: string, attempts: seq<Attempt>, n: nat)
    requires n <= |attempts| && AllFail(w, pin, attempts, n)
    ensures var t := AfterConnects(w, pin, attempts, n);
            if n == |attempts| then Retry(w, pin, attempts) == (t, Failed)
            else
              var (t', outcome) := Connect(t, pin, attempts[n].unset, attempts[n].piped);
              outcome != Failed ==> Retry(w, pin, attempts) == (t', outcome)
    decreases n
  {
    hide Connect;
    if n > 0 {
      var w1 := Connect(w, pin, attempts[0].unset, attempts[0].piped).0;
      assert AfterConnects(w, pin, attempts, 0) == w;
      forall k: nat | k < n
        ensures AfterConnects(w, pin, attempts, k + 1) == AfterConnects(w1, pin, attempts[1..], k)
      {
        ConnectsShift(w, pin, attempts, k);
      }
      RetriesEnd(w1, pin, attempts[1..], n - 1);
    }
  }

  lemma {:induction false} ConnectsShift(w: World, pin: string, attempts: seq<Attempt>, k: nat)
    requires k < |attempts|
    ensures AfterConnects(w, pin, attempts, k + 1)
            == AfterConnects(Connect(w, pin, attempts[0].unset, attempts[0].piped).0, pin, attempts[1..], k)
  {
    hide Connect;
    if k > 0 {
      ConnectsShift(w, pin, attempts, k - 1);
    } else {
      assert AfterConnects(w, pin, attempts, 0) == w;
    }
  }

  // In the whole run the HAL is told the truth about the tries left.
  predicate HonestRun(w: World, pin: string, attempts: seq<Attempt>)
    decreases |attempts|
  {
    attempts == []
    || (Honest(w)
        && var (w1, outcome) := Connect(w, pin, attempts[0].unset, attempts[0].piped);
           (outcome.Failed? ==> HonestRun(w1, pin, attempts[1..])))
  }

  // Whole-run safety: however often the HAL retries, the SIM keeps a try and never asks for its PUK.
  lemma {:induction false} RetriesSpareLastTry(w: World, pin: string, attempts: seq<Attempt>)
    requires Usable(w.sim) && HonestRun(w, pin, attempts)
    ensures var sim := Retry(w, pin, attempts).0.sim;
            && Usable(sim) && StatusText(sim) != "SIM PUK"
            && sim.tries >= w.sim.tries - |attempts|
            && (w.sim.open ==> sim.open && sim.tries == w.sim.tries)
    decreases |attempts|
  {
    hide Connect, Honest;
    if attempts != [] {
      ConnectSparesLastTry(w, pin, attempts[0].unset, attempts[0].piped);
      var (w1, outcome) := Connect(w, pin, attempts[0].unset, attempts[0].piped);
      if outcome.Failed? {
        RetriesSpareLastTry(w1, pin, attempts[1..]);
      }
    }
  }

  // --- all commands answered ---

  predicate AllAnswered(fates: seq<Fate>, n: nat) {
    |fates| >= n && forall k :: 0 <= k < n ==> fates[k].Answered?
  }

  // The worlds of the first commands of a connect.
  lemma FirstWorlds(w: World, pin: string)
    requires AllAnswered(w.fates, 3)
    ensures var w1 := WorldAfter(w, "AT+CPIN?");
            var w2 := WorldAfter(w1, "AT+QPINC?");
            && w1 == World(w.sim, w.fates[1..]) && CurrentFate(w1) == w.fates[1]
            && w2 == World(w.sim, w.fates[2..]) && CurrentFate(w2) == w.fates[2]
            && WorldAfter(w2, PinText(pin)) == World(Present(w.sim, PinText(pin)), w.fates[3..])
  {
    hide SimAfter, PinText, Present;
    NotThePin(w.sim, "AT+CPIN?");
    NotThePin(w.sim, "AT+QPINC?");
    assert w.fates[1..][1..] == w.fates[2..] && w.fates[2..][1..] == w.fates[3..];
    PinGiven(w.sim, pin);
  }

  lemma PinGiven(sim: Sim, pin: string)
    ensures SimAfter(sim, PinText(pin)) == Present(sim, PinText(pin))
    ensures PinText(pin) != "AT+CPIN?" && PinText(pin) != "AT+QPINC?" && PinText(pin) != "AT+CGREG?"
  {
    PinTextIsPin(pin);
    assert PinText(pin)[7] == PIN_COMMAND[7] == '=';
    assert PinText(pin)[3] == PIN_COMMAND[3] && PinText(pin)[4] == PIN_COMMAND[4];
  }

  // A wrong PIN is refused.
  lemma PinRefused(w: World, pin: string)
    requires !w.sim.open && w.sim.tries > 0 && PinText(pin) != PinCommand(w.sim.pin) && CurrentFate(w).Answered?
    ensures Enter(w, pin).1 == -1 && Enter(w, pin).0 == WorldAfter(w, PinText(pin))
    ensures Enter(w, pin).0.sim == w.sim.(tries := w.sim.tries - 1, presented := w.sim.presented + 1)
  {
    hide PinText;
    PinGiven(w.sim, pin);
    PinTextIsPin(pin);
  }

  // With a wrong PIN and every command answered, a connect spends a try exactly when it reads more
  // than one.
  lemma WrongPinConnect(w: World, pin: string, unset: int, piped: bool)
    requires Usable(w.sim) && !w.sim.open && PinText(pin) != PinCommand(w.sim.pin) && AllAnswered(w.fates, 3)
    ensures var w1 := WorldAfter(w, "AT+CPIN?");
            var spent := NumRetries(AnswerTo(w1, "AT+QPINC?"), unset) > 1;
            Connect(w, pin, unset, piped) ==
              (if spent then World(w.sim.(tries := w.sim.tries - 1, presented := w.sim.presented + 1), w.fates[3..])
               else World(w.sim, w.fates[2..]), Failed)
  {
    hide PinStatus, NumRetries, PinResult, PinText, Response, WorldAfter, Enter, BringUp;
    FirstWorlds(w, pin);
    StatusIsTrue(w);
    PinRefused(World(w.sim, w.fates[2..]), pin);
  }

  // With a wrong PIN and every command answered truthfully, a connect spends exactly one try or,
  // at the last one, none.
  lemma WrongPinOnce(w: World, pin: string, unset: int, piped: bool)
    requires Usable(w.sim) && !w.sim.open && PinText(pin) != PinCommand(w.sim.pin) && AllAnswered(w.fates, 3)
    requires Honest(w)
    ensures var (w1, outcome) := Connect(w, pin, unset, piped);
            && outcome.Failed? && !w1.sim.open && w1.sim.pin == w.sim.pin && Usable(w1.sim)
            && w1.sim.tries == (if w.sim.tries > 1 then w.sim.tries - 1 else 1)
            && w1.fates == w.fates[if w.sim.tries > 1 then 3 else 2..]
  {
    hide PinStatus, NumRetries, PinText, Response, WorldAfter, Connect, Truthful;
    FirstWorlds(w, pin);
    StatusIsTrue(w);
    RetriesAreTrue(WorldAfter(w, "AT+CPIN?"), unset);
    WrongPinConnect(w, pin, unset, piped);
  }

  // A wrong PIN is tried until one try is left, and then never again.
  lemma {:induction false} WrongPinStops(w: World, pin: string, attempts: seq<Attempt>)
    requires Usable(w.sim) && !w.sim.open && PinText(pin) != PinCommand(w.sim.pin)
    requires AllAnswered(w.fates, 3 * |attempts|) && HonestRun(w, pin, attempts)
    ensures var (w1, outcome) := Retry(w, pin, attempts);
            && outcome.Failed?
            && w1.sim.tries == if w.sim.tries > |attempts| then w.sim.tries - |attempts| else 1
    decreases |attempts|
  {
    hide Connect, Honest, PinText;
    if attempts != [] {
      WrongPinOnce(w, pin, attempts[0].unset, attempts[0].piped);
      var w1 := Connect(w, pin, attempts[0].unset, attempts[0].piped).0;
      assert AllAnswered(w1.fates, 3 * |attempts[1..]|);
      WrongPinStops(w1, pin, attempts[1..]);
    }
  }

  // Why the truth is needed: rows that can be read but tell another count, or none for the SIM PIN,
  // make a wrong PIN spend the last try if and only if that count, or what the variable happened to
  // hold, is more than one.
  lemma LastTrySpent(w: World, pin: string, unset: int, piped: bool)
    requires Usable(w.sim) && w.sim.tries == 1 && !w.sim.open && PinText(pin) != PinCommand(w.sim.pin)
    requires AllAnswered(w.fates, 3) && forall k :: 0 <= k < |w.fates[1].rows| ==> GoodRow(w.fates[1].rows[k])
    ensures var told := LastSc(w.fates[1].rows);
            Connect(w, pin, unset, piped).0.sim.tries == 0 <==> (if told.Some? then told.value else unset) > 1
  {
    hide PinStatus, PinText, WorldAfter, Connect, Retries, LastSc, PrintRows, GoodRow;
    FirstWorlds(w, pin);
    RetriesOfPrinted(w.fates[1].rows, unset);
    WrongPinConnect(w, pin, unset, piped);
  }

  // The right PIN is accepted while there is a try.
  lemma PinAccepted(w: World)
    requires Usable(w.sim) && !w.sim.open && |w.sim.pin| <= 9 && CurrentFate(w).Answered?
    ensures var text := PinText(w.sim.pin);
            && AnswerTo(w, text) == Answer(0, Some(AtProtocol.Reply(true, Some("OK"), [])))
            && WorldAfter(w, text).sim == w.sim.(tries := w.sim.full, open := true, presented := w.sim.presented + 1)
  {
    PinFits(w.sim.pin);
    PinGiven(w.sim, w.sim.pin);
    PinTextIsPin(w.sim.pin);
  }

  lemma RightPinEntered(w: World)
    requires Usable(w.sim) && !w.sim.open && |w.sim.pin| <= 9 && AllAnswered(w.fates, 2)
    ensures Enter(w, w.sim.pin) ==
              (World(w.sim.(tries := w.sim.full, open := true, presented := w.sim.presented + 1), w.fates[2..]), 0)
  {
    hide PinText, PinResult, CpinLine, SimAfter;
    var w1 := WorldAfter(w, PinText(w.sim.pin));
    PinAccepted(w);
    NotThePin(w1.sim, "AT+CPIN?");
    ResultOfPrinted(AnswerTo(w, PinText(w.sim.pin)).reply.value, Field(" ", false, "READY"), Some("OK"));
  }

  // The right PIN of a SIM that asks for it is given exactly when more than one try is left; it then
  // opens the SIM, and the outcome is that of bringing the connection up.
  lemma RightPinOpens(w: World, unset: int, piped: bool)
    requires Usable(w.sim) && !w.sim.open && |w.sim.pin| <= 9 && AllAnswered(w.fates, 4) && Honest(w)
    ensures var (w1, outcome) := Connect(w, w.sim.pin, unset, piped);
            var after := World(w.sim.(tries := w.sim.full, open := true, presented := w.sim.presented + 1), w.fates[4..]);
            if w.sim.tries > 1 then (w1, outcome) == BringUp(after, piped) && w1.sim == after.sim
            else w1.sim == w.sim && outcome == Failed
  {
    hide PinStatus, NumRetries, PinText, Enter, BringUp, WorldAfter, Response, Truthful;
    FirstWorlds(w, w.sim.pin);
    StatusIsTrue(w);
    RetriesAreTrue(WorldAfter(w, "AT+CPIN?"), unset);
    var w2 := World(w.sim, w.fates[2..]);
    assert w.fates[2..][2..] == w.fates[4..];
    RightPinEntered(w2);
    BringUpSpares(Enter(w2, w.sim.pin).0, piped);
  }

  // The result of entering the PIN, from the status printed afterwards.
  lemma ResultOfPrinted(entered: AtProtocol.Reply, f: Field, final: Option<string>)
    requires entered.success && Printable(f)
    ensures var r := PinResult(Answer(0, Some(entered)), Answer(0, Some(AtProtocol.Reply(true, final, [CpinLine(f)]))));
            && (r == 0 <==> f.text == "READY") && (r == -2 <==> f.text == "SIM PIN2")
            && (r == -3 <==> f.text == "SIM PUK2") && -4 <= r <= 0 && r != -1
  {
    hide NextTok, PrintField, Printable;
    LineRoundTrip("+CPIN", [f]);
    var s := Start(CpinLine(f)).value;
    assert Take(Some(s), 1).0[0] == NextTok(s).text;
    assert TextsOf([f])[0] == f.text;
  }

  // A PIN that is refused, or whose status cannot be read afterwards, is not entered.
  lemma PinNotRead(entered: Answer, query: Answer)
    ensures entered.err < 0 || entered.reply.None? || !entered.reply.value.success ==> PinResult(entered, query) == -1
    ensures query.err < 0 || query.reply.None? || !query.reply.value.success ==> PinResult(entered, query) == -1
    ensures query.reply.Some? && (query.reply.value.lines == [] || ':' !in query.reply.value.lines[0]) ==>
              PinResult(entered, query) == -1
  {
    if query.reply.Some? && query.reply.value.lines != [] {
      StartMeans(query.reply.value.lines[0]);
    }
  }
}
