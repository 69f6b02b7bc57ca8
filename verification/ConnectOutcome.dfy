// How a connect ends, told from what becomes of its commands alone: when it succeeds, and when a
// response without lines is looked at.
module ConnectOutcome {
  import opened CString
  import opened Tokens
  import opened Numerals
  import opened SimStatus
  import opened SimModem
  import opened SimGuard

  // The registration status that an answer to the poll tells.
  function Told(f: Fate): Option<int> {
    if f.Answered? then Registration("+CGREG:" + f.registration) else None
  }

  predicate TellsSearching(f: Fate) {
    Told(f).Some? && Searching(Told(f).value)
  }

  // What ends the poll in a crash: a refusal, whose response has no lines; and what ends it well: a
  // status that is neither searching nor negative.
  predicate EndsPoll(f: Fate, crash: bool) {
    if crash then f.Refused? else Told(f).Some? && Told(f).value >= 0 && !Searching(Told(f).value)
  }

  predicate SearchingUntil(fates: seq<Fate>, k: nat) {
    k <= |fates| && forall j :: 0 <= j < k ==> TellsSearching(fates[j])
  }

  // One of the first n answers ends the poll so, and all before it tell that the modem searches.
  predicate PollEnds(fates: seq<Fate>, n: nat, crash: bool) {
    exists k: nat :: k < n && k < |fates| && EndsPoll(fates[k], crash) && SearchingUntil(fates, k)
  }

  lemma PollEndsStep(fates: seq<Fate>, n: nat, crash: bool)
    ensures PollEnds(fates, n, crash) <==>
              && n > 0 && fates != []
              && (EndsPoll(fates[0], crash) || (TellsSearching(fates[0]) && PollEnds(fates[1..], n - 1, crash)))
  {
    hide EndsPoll, TellsSearching;
    if PollEnds(fates, n, crash) {
      var k: nat :| k < n && k < |fates| && EndsPoll(fates[k], crash) && SearchingUntil(fates, k);
      if k > 0 {
        assert fates[1..][k - 1] == fates[k];
        assert forall j :: 0 <= j < k - 1 ==> fates[1..][j] == fates[j + 1];
        assert SearchingUntil(fates[1..], k - 1);
      }
    }
    if n > 0 && fates != [] {
      if EndsPoll(fates[0], crash) {
        assert SearchingUntil(fates, 0);
      } else if TellsSearching(fates[0]) && PollEnds(fates[1..], n - 1, crash) {
        var k: nat :| k < n - 1 && k < |fates[1..]| && EndsPoll(fates[1..][k], crash) && SearchingUntil(fates[1..], k);
        assert forall j :: 1 <= j < k + 1 ==> fates[j] == fates[1..][j - 1];
        assert SearchingUntil(fates, k + 1);
      }
    }
  }

  // The poll looks at a response without lines if and only if one of its queries is refused while
  // all before it are answered that the modem searches; it succeeds if and only if one but the last
  // is answered with a status that is neither searching nor negative.
  lemma {:induction false} PollOutcome(w: World, polls: nat)
    requires polls <= MAX_POLLS
    ensures Poll(w, polls).1.Crashed? <==> PollEnds(w.fates, MAX_POLLS - polls + 1, true)
    ensures Poll(w, polls).1.Connected? <==> PollEnds(w.fates, MAX_POLLS - polls, false)
    decreases MAX_POLLS - polls
  {
    hide SimAfter, Registration, Searching, PollEnds;
    PollEndsStep(w.fates, MAX_POLLS - polls + 1, true);
    PollEndsStep(w.fates, MAX_POLLS - polls, false);
    if polls < MAX_POLLS {
      PollOutcome(WorldAfter(w, "AT+CGREG?"), polls + 1);
    } else {
      NoPollsLeft(if w.fates == [] then [] else w.fates[1..]);
    }
  }

  lemma NoPollsLeft(fates: seq<Fate>)
    ensures !PollEnds(fates, 0, true)
  {
  }

  // --- the set-up before it ---

  function Drop(fates: seq<Fate>, n: nat): seq<Fate> {
    if n <= |fates| then fates[n..] else []
  }

  lemma DropTwice(fates: seq<Fate>, m: nat, n: nat)
    ensures Drop(Drop(fates, m), n) == Drop(fates, m + n)
  {
  }

  lemma FatesAfter(w: World, text: string)
    ensures WorldAfter(w, text).fates == Drop(w.fates, 1)
  {
  }

  lemma {:induction false} SendAllFates(w: World, texts: seq<string>)
    ensures SendAll(w, texts).fates == Drop(w.fates, |texts|)
    decreases |texts|
  {
    hide WorldAfter;
    if texts != [] {
      FatesAfter(w, texts[0]);
      SendAllFates(WorldAfter(w, texts[0]), texts[1..]);
      DropTwice(w.fates, 1, |texts| - 1);
    }
  }

  // What the poll meets: fourteen commands come before it, and one more unless the third is answered.
  function PollFates(fates: seq<Fate>): seq<Fate> {
    Drop(fates, if |fates| > 2 && fates[2].Answered? then 14 else 15)
  }

  lemma CregRefused(w: World)
    ensures Refuses(AnswerTo(w, "AT+CREG=2")) <==> !(w.fates != [] && w.fates[0].Answered?)
  {
    assert "AT+CREG=2"[4] == 'R' && PIN_COMMAND[4] == 'P';
    assert "AT+CREG=2"[7] == '=' && "AT+CPIN?"[4] == 'P' && "AT+QPINC?"[3] == 'Q' && "AT+CGREG?"[4] == 'G';
  }

  lemma SetUpFates(w: World)
    ensures SetUp(w).fates == PollFates(w.fates)
  {
    hide WorldAfter, SendAll, AnswerTo, Refuses;
    var w1 := SendAll(w, BEFORE_CREG);
    SendAllFates(w, BEFORE_CREG);
    CregRefused(w1);
    assert w1.fates != [] && w1.fates[0].Answered? <==> |w.fates| > 2 && w.fates[2].Answered?;
    FatesAfter(w1, "AT+CREG=2");
    FatesAfter(WorldAfter(w1, "AT+CREG=2"), "AT+CREG=1");
    SendAllFates(AskCreg(w1), AFTER_CREG);
  }

  lemma BringUpOutcome(w: World, piped: bool)
    ensures BringUp(w, piped).1.Crashed? <==> PollEnds(PollFates(w.fates), MAX_POLLS + 1, true)
    ensures BringUp(w, piped).1.Connected? <==> piped && PollEnds(PollFates(w.fates), MAX_POLLS, false)
  {
    hide SetUp, Poll, PollEnds, PollFates;
    SetUpFates(w);
    PollOutcome(SetUp(w), 0);
  }

  // --- the whole connect ---

  // The world in which a connect comes to bring the connection up: the SIM is ready, or it has
  // taken the PIN; None when the connect ends before.
  function Reached(w: World, pin: string, unset: int): Option<World> {
    var w1 := WorldAfter(w, "AT+CPIN?");
    match PinStatus(AnswerTo(w, "AT+CPIN?"))
    case Ready => Some(w1)
    case Pin =>
      var (w3, result) := Enter(WorldAfter(w1, "AT+QPINC?"), pin);
      if NumRetries(AnswerTo(w1, "AT+QPINC?"), unset) > 1 && result == 0 then Some(w3) else None
    case _ => None
  }

  // A connect crashes if and only if the SIM query is a fault, or it comes to bring the connection
  // up and the poll crashes; it succeeds if and only if it comes there, the poll ends well and the
  // data call's command can be run.
  lemma ConnectEnds(w: World, pin: string, unset: int, piped: bool)
    ensures var reached := Reached(w, pin, unset);
            var outcome := Connect(w, pin, unset, piped).1;
            && (outcome.Crashed? <==>
                  || PinStatus(AnswerTo(w, "AT+CPIN?")).Faulted?
                  || (reached.Some? && PollEnds(PollFates(reached.value.fates), MAX_POLLS + 1, true)))
            && (outcome.Connected? <==>
                  reached.Some? && piped && PollEnds(PollFates(reached.value.fates), MAX_POLLS, false))
  {
    hide PinStatus, NumRetries, Enter, WorldAfter, AnswerTo, BringUp, PollEnds, PollFates;
    var reached := Reached(w, pin, unset);
    if reached.Some? {
      BringUpOutcome(reached.value, piped);
    }
  }

  // With a SIM that is ready the outcome is told by the fates alone.
  lemma ReadyConnectEnds(w: World, pin: string, unset: int, piped: bool)
    requires w.sim.open && w.sim.tries > 0 && w.fates != [] && w.fates[0].Answered?
    ensures var outcome := Connect(w, pin, unset, piped).1;
            && (outcome.Crashed? <==> PollEnds(PollFates(w.fates[1..]), MAX_POLLS + 1, true))
            && (outcome.Connected? <==> piped && PollEnds(PollFates(w.fates[1..]), MAX_POLLS, false))
  {
    hide PinStatus, NumRetries, Enter, AnswerTo, BringUp, PollEnds, PollFates, Connect, SimAfter;
    StatusIsTrue(w);
    ConnectEnds(w, pin, unset, piped);
  }

  // Such a run: the SIM is ready, the set-up is answered, and the first poll is refused.
  lemma RefusedPollCrashes(w: World, pin: string, unset: int, piped: bool)
    requires w.sim.open && w.sim.tries > 0
    requires AllAnswered(w.fates, 15) && |w.fates| > 15 && w.fates[15].Refused?
    ensures Connect(w, pin, unset, piped).1 == Crashed
  {
    hide Connect;
    ReadyConnectEnds(w, pin, unset, piped);
    var fates := PollFates(w.fates[1..]);
    assert fates[0] == w.fates[15];
    PollEndsStep(fates, MAX_POLLS + 1, true);
  }

  // And one: a modem that answers all but its registration.
  lemma RefusedPollExample(final: string, pin: string, unset: int, piped: bool)
    ensures var answered := seq(15, _ => Answered([], ""));
            var w := World(Sim("1234", 3, 3, true, 0), answered + [Refused(final)]);
            Connect(w, pin, unset, piped).1 == Crashed
  {
    hide Connect;
    var answered := seq(15, _ => Answered([], ""));
    RefusedPollCrashes(World(Sim("1234", 3, 3, true, 0), answered + [Refused(final)]), pin, unset, piped);
  }

  // --- the registration as it is printed ---

  // A line's first two fields make its registration: the second one's number, if both are numbers.
  lemma RegistrationReads(first: Field, second: Field, more: seq<Field>)
    requires Printable(first) && Printable(second)
    ensures Registration("+CGREG:" + PrintFields([first, second] + more)) ==
              if IntOf(first.text, Dec, false).None? then None else IntOf(second.text, Dec, false)
  {
    hide NextTok, PrintField, Printable, IntOf, Start;
    var fs := [first, second] + more;
    assert fs[1..] == [second] + more && fs[2..] == more && fs[1..][1..] == more;
    assert "+CGREG:" + PrintFields(fs) == "+CGREG" + [':'] + PrintFields(fs);
    StartPrinted("+CGREG", fs);
    TokOfField(first, PrintFields(fs[1..]));
    if more == [] {
      TokOfLast(second);
    } else {
      TokOfField(second, PrintFields(more));
    }
  }

  // A line with a single field tells no registration.
  lemma RegistrationMissing(only: Field)
    requires Printable(only)
    ensures Registration("+CGREG:" + PrintFields([only])).None?
  {
    hide NextTok, PrintField, Printable, IntOf, Start;
    assert "+CGREG:" + PrintFields([only]) == "+CGREG" + [':'] + PrintFields([only]);
    StartPrinted("+CGREG", [only]);
    TokOfLast(only);
    EmptyIsNoNumber();
  }

  // The registration as a modem prints it: the mode of its reports, the status, and what follows.
  datatype Registered = Registered(mode: int, status: int, before: string, between: string, more: seq<Field>)

  function PrintRegistered(r: Registered): string {
    PrintFields([Field(r.before, false, Decimal(r.mode)), Field(r.between, false, Decimal(r.status))] + r.more)
  }

  predicate GoodRegistered(r: Registered) {
    && (forall k :: 0 <= k < |r.before| ==> IsSpace(r.before[k]))
    && (forall k :: 0 <= k < |r.between| ==> IsSpace(r.between[k]))
    && -0x8000_0000 <= r.mode < 0x8000_0000 && -0x8000_0000 <= r.status < 0x8000_0000
  }

  // The status is read back, and not the mode before it.
  lemma RegistrationOfPrinted(r: Registered)
    requires GoodRegistered(r)
    ensures Registration("+CGREG:" + PrintRegistered(r)) == Some(r.status)
  {
    hide PrintFields, Printable, Decimal, IntOf, Registration;
    NumeralPrintable(r.before, false, r.mode);
    NumeralPrintable(r.between, false, r.status);
    DecimalRoundTrip(r.mode);
    DecimalRoundTrip(r.status);
    RegistrationReads(Field(r.before, false, Decimal(r.mode)), Field(r.between, false, Decimal(r.status)), r.more);
  }

  predicate Prints(f: Fate, r: Registered) {
    f.Answered? && f.registration == PrintRegistered(r) && GoodRegistered(r)
  }

  // The first answers tell, as printed, that the modem is not registered and may come to be: the
  // statuses 0, 2 and 4.
  predicate StillSearches(fates: seq<Fate>, told: seq<Registered>) {
    |told| <= |fates|
    && forall k :: 0 <= k < |told| ==> Prints(fates[k], told[k]) && told[k].status in {0, 2, 4}
  }

  lemma PollAgain(w: World, r: Registered, polls: nat)
    requires polls <= 10 && w.fates != [] && Prints(w.fates[0], r) && r.status in {0, 2, 4}
    ensures if polls < 10 then Poll(w, polls) == Poll(World(w.sim, w.fates[1..]), polls + 1)
            else Poll(w, polls).1 == Failed
  {
    hide SimAfter, Registration, Prints;
    TellsPrinted(w.fates[0], r);
    NotThePin(w.sim, "AT+CGREG?");
  }

  // Such answers up to the tenth make the HAL ask again, and the eleventh ends the poll.
  lemma {:induction false} PollGoesOn(w: World, told: seq<Registered>, polls: nat)
    requires StillSearches(w.fates, told) && polls <= 10
    ensures if polls + |told| <= 10 then Poll(w, polls) == Poll(World(w.sim, w.fates[|told|..]), polls + |told|)
            else Poll(w, polls).1 == Failed
    decreases |told|
  {
    hide Poll, Prints;
    if told != [] {
      PollAgain(w, told[0], polls);
      if polls < 10 {
        assert StillSearches(w.fates[1..], told[1..]) by {
          assert forall k :: 0 <= k < |told| - 1 ==> told[1..][k] == told[k + 1] && w.fates[1..][k] == w.fates[k + 1];
        }
        PollGoesOn(World(w.sim, w.fates[1..]), told[1..], polls + 1);
        assert w.fates[1..][|told| - 1..] == w.fates[|told|..];
      }
    } else {
      assert w.fates[0..] == w.fates;
    }
  }

  lemma TellsPrinted(f: Fate, r: Registered)
    requires Prints(f, r)
    ensures f.Answered? && Registration("+CGREG:" + f.registration) == Some(r.status)
  {
    RegistrationOfPrinted(r);
  }

  // The poll, answer by answer as printed.  After the answers told that the modem still searches:
  // more than ten of them fail the poll; a refusal crashes it, and a query without an answer fails
  // it, as does a line with a single field; another status ends it, with success if it is not negative and came in the first ten tries.
  lemma PrintedPoll(w: World, told: seq<Registered>, last: Registered, only: Field)
    requires StillSearches(w.fates, told) && Printable(only)
    ensures var outcome := Poll(w, 0).1;
            var next := if |told| < |w.fates| then w.fates[|told|] else Unsent;
            && (|told| > 10 ==> outcome == Failed)
            && (|told| <= 10 && next.Refused? ==> outcome == Crashed)
            && (|told| <= 10 && (next.Unsent? || next.Unanswered?) ==> outcome == Failed)
            && (|told| <= 10 && next.Answered? && next.registration == PrintFields([only]) ==> outcome == Failed)
            && (|told| <= 10 && Prints(next, last) && last.status !in {0, 2, 4} ==>
                  outcome == if |told| < 10 && last.status >= 0 then Connected else Failed)
  {
    hide SimAfter, Registration, Prints, PrintFields, Printable;
    PollGoesOn(w, told, 0);
    RegistrationMissing(only);
    var next := if |told| < |w.fates| then w.fates[|told|] else Unsent;
    if |told| <= 10 && Prints(next, last) {
      TellsPrinted(next, last);
    }
  }

  // The whole connect of a SIM that is ready, on answers as printed: it succeeds if and only if one
  // of the first ten tells a status that is neither 0, 2 or 4 nor negative, the others before it
  // telling 0, 2 or 4, and the data call's command can be run.
  lemma PrintedConnect(w: World, pin: string, unset: int, piped: bool, told: seq<Registered>, last: Registered)
    requires w.sim.open && w.sim.tries > 0 && AllAnswered(w.fates, 15)
    requires StillSearches(w.fates[15..], told)
    requires |told| > 10 || (15 + |told| < |w.fates| && Prints(w.fates[15 + |told|], last) && last.status !in {0, 2, 4})
    ensures Connect(w, pin, unset, piped).1 ==
              if |told| < 10 && last.status >= 0 && piped then Connected else Failed
  {
    hide StatusOf, PinStatus, NumRetries, Enter, AnswerTo, SetUp, Poll, Prints, StillSearches, SimAfter;
    StatusIsTrue(w);
    assert PinStatus(AnswerTo(w, "AT+CPIN?")) == Ready by { StatusOfReady(); }
    SetUpFates(WorldAfter(w, "AT+CPIN?"));
    assert w.fates[1..][14..] == w.fates[15..];
    PrintedPoll(SetUp(WorldAfter(w, "AT+CPIN?")), told, last, Field("", false, ""));
  }

  lemma StatusOfReady()
    ensures StatusOf("READY") == Ready
  {
  }
}
