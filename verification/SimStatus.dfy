// What the HAL reads out of the modem's answers about the SIM: its PIN status and the number of
// PIN tries left.
module SimStatus {
  import opened CString
  import opened Tokens
  import opened Numerals
  import AtProtocol

  // What a command gives its caller: an error code, and the response if there is none.
  datatype Answer = Answer(err: int, reply: Option<AtProtocol.Reply>)

  // The channel reports errors as negative codes and hands over a response otherwise; when it is
  // closed it may do both.
  predicate Settled(a: Answer) {
    && a.err <= 0
    && (a.err == 0 ==> a.reply.Some?)
    && (a.reply.Some? ==>
          && (a.reply.value.final.Some? ==> NulFree(a.reply.value.final.value))
          && forall k :: 0 <= k < |a.reply.value.lines| ==> NulFree(a.reply.value.lines[k]))
  }

  // Faulted: the first line of a response without lines is looked at.
  datatype Status = Absent | NotReady | Ready | Pin | Puk | Faulted

  function StatusOf(text: string): Status {
    if text == "SIM PIN" then Pin
    else if text == "SIM PUK" then Puk
    else if text != "READY" then Absent
    else Ready
  }

  // modem_hal_check_pin_status, on the answer to AT+CPIN?.
  function PinStatus(a: Answer): Status {
    if a.err != 0 || a.reply.None? then NotReady
    else
      var r := a.reply.value;
      var cme := CmeError(r.success, r.final);
      if cme == CME_SIM_NOT_INSERTED then Absent
      else if cme != CME_SUCCESS then NotReady
      else if r.lines == [] then Faulted
      else match Start(r.lines[0])
        case None => NotReady
        case Some(s) => StatusOf(NextTok(s).text)
  }

  function CpinLine(f: Field): string {
    "+CPIN" + [':'] + PrintFields([f])
  }

  // A printed status is read back as that status, and one that is not known as no SIM at all.
  lemma StatusOfPrinted(f: Field, final: Option<string>, more: seq<string>)
    requires Printable(f)
    ensures var s := PinStatus(Answer(0, Some(AtProtocol.Reply(true, final, [CpinLine(f)] + more))));
            && s == StatusOf(f.text)
            && (s == Pin <==> f.text == "SIM PIN") && (s == Puk <==> f.text == "SIM PUK")
            && (s == Ready <==> f.text == "READY")
            && (s == Absent <==> f.text !in {"SIM PIN", "SIM PUK", "READY"})
  {
    hide NextTok, PrintField, Printable;
    LineRoundTrip("+CPIN", [f]);
    assert [CpinLine(f)][0] == CpinLine(f);
    var s := Start(CpinLine(f)).value;
    assert Take(Some(s), 1).0[0] == NextTok(s).text;
    assert TextsOf([f])[0] == f.text;
  }

  // A failed query tells of a missing SIM with error number 10, and otherwise, but for error
  // number 0, of one that is not ready.
  lemma StatusOfFailure(blanks: string, n: int, lines: seq<string>)
    requires (forall k :: 0 <= k < |blanks| ==> IsSpace(blanks[k])) && -TWO_31 <= n < TWO_31
    ensures var s := PinStatus(Answer(0, Some(AtProtocol.Reply(false, Some("+CME ERROR:" + blanks + Decimal(n)), lines))));
            && (s == Absent <== n == 10)
            && (s == NotReady <== n != 10 && n != 0)
            && (s == Faulted <==> n == 0 && lines == [])
  {
    hide NextTok, Start, Decimal, CmeError;
    CmeErrorRoundTrip(blanks, n);
  }

  // A response without lines is looked at exactly when the query has failed with a final line that
  // gives the number zero behind its prefix.
  lemma FaultIsErrorZero(r: AtProtocol.Reply)
    requires r.success ==> r.lines != []
    ensures PinStatus(Answer(0, Some(r))) == Faulted <==>
              && !r.success && r.lines == [] && r.final.Some? && "+CME ERROR:" <= r.final.value
              && IntOf(NextTok(r.final.value[11..]).text, Dec, false) == Some(0)
  {
    hide NextTok, IntOf;
    if r.final.Some? && CME_PREFIX <= r.final.value {
      StartOfCme(r.final.value);
    }
  }

  // A query that brought an error code, a failure that tells no error number, or a line without a
  // colon: the SIM is not ready.
  lemma StatusUnread(a: Answer)
    ensures a.err != 0 || a.reply.None? ==> PinStatus(a) == NotReady
    ensures a.reply.Some? && !a.reply.value.success ==>
              (a.reply.value.final.Some? ==> !("+CME ERROR:" <= a.reply.value.final.value)) ==> PinStatus(a) == NotReady
    ensures a.reply.Some? && a.reply.value.success && a.reply.value.lines != [] ==>
              ':' !in a.reply.value.lines[0] ==> PinStatus(a) == NotReady
  {
    if a.reply.Some? {
      var r := a.reply.value;
      CmeErrorElse(r.final);
      if r.lines != [] {
        StartMeans(r.lines[0]);
      }
    }
  }

  // --- the tries left ---

  // A row of the answer to AT+QPINC?.
  datatype Reading = Sc(pin: int) | P2 | Bad

  function IntAt(cursor: Option<string>): Option<int> {
    match cursor
    case None => None
    case Some(s) => IntOf(NextTok(s).text, Dec, false)
  }

  function AfterTok(cursor: Option<string>): Option<string> {
    match cursor
    case None => None
    case Some(s) => NextTok(s).rest
  }

  function ReadRow(line: string): Reading {
    match Start(line)
    case None => Bad
    case Some(s) =>
      var t := NextTok(s);
      var pin, puk := IntAt(t.rest), IntAt(AfterTok(t.rest));
      if !("SC" <= t.text) && !("P2" <= t.text) then Bad
      else if pin.None? || puk.None? then Bad
      else if "SC" <= t.text then Sc(pin.value)
      else P2
  }

  // What the loop over the rows leaves in pin1_remaining_times, which starts as pin1; None on error.
  function Retries(lines: seq<string>, pin1: int): Option<int> {
    if lines == [] then Some(pin1)
    else match ReadRow(lines[0])
      case Bad => None
      case P2 => Retries(lines[1..], pin1)
      case Sc(n) => Retries(lines[1..], n)
  }

  // modem_hal_get_numretries for the SIM PIN; unset is what its variable happens to hold at first.
  function NumRetries(a: Answer, unset: int): int {
    if a.err < 0 || a.reply.None? || !a.reply.value.success then -1
    else match Retries(a.reply.value.lines, unset)
      case None => -1
      case Some(n) => n
  }

  // The query fails if and only if some row cannot be read.
  lemma {:induction false} RetriesFail(lines: seq<string>, pin1: int)
    ensures Retries(lines, pin1).None? <==> exists k :: 0 <= k < |lines| && ReadRow(lines[k]).Bad?
  {
    hide ReadRow;
    if lines != [] {
      assert forall k :: 1 <= k < |lines| ==> lines[k] == lines[1..][k - 1];
      match ReadRow(lines[0])
      case Bad => assert ReadRow(lines[0]).Bad?;
      case P2 => RetriesFail(lines[1..], pin1);
      case Sc(n) => RetriesFail(lines[1..], n);
    }
  }

  predicate HasSc(lines: seq<string>) {
    exists k :: 0 <= k < |lines| && ReadRow(lines[k]).Sc?
  }

  lemma {:induction false} UnsetMatters(lines: seq<string>, u: int, v: int)
    requires u != v
    ensures Retries(lines, u) == Retries(lines, v) <==> Retries(lines, u).None? || HasSc(lines)
    ensures Retries(lines, u).None? <==> Retries(lines, v).None?
  {
    hide ReadRow;
    if lines != [] {
      assert HasSc(lines) <==> ReadRow(lines[0]).Sc? || HasSc(lines[1..]) by {
        assert forall k :: 1 <= k < |lines| ==> lines[k] == lines[1..][k - 1];
      }
      match ReadRow(lines[0])
      case Bad =>
      case P2 => UnsetMatters(lines[1..], u, v);
      case Sc(n) =>
    }
  }

  // The count read is the modem's, rather than what the variable held, if and only if the rows
  // are in error or one of them is for the SIM PIN.
  lemma RetriesDefined(lines: seq<string>)
    ensures (forall u, v :: Retries(lines, u) == Retries(lines, v)) <==>
              Retries(lines, 0).None? || HasSc(lines)
  {
    hide Retries, HasSc;
    UnsetMatters(lines, 0, 1);
    forall u: int, v: int | Retries(lines, 0).None? || HasSc(lines)
      ensures Retries(lines, u) == Retries(lines, v)
    {
      if u != v {
        UnsetMatters(lines, u, v);
        if u != 0 {
          UnsetMatters(lines, 0, u);
        }
      }
    }
  }

  // A row as a modem prints it.
  datatype Row = Row(blanks: string, quoted: bool, facility: string, pin: int, puk: int)

  function FieldsOf(r: Row): seq<Field> {
    [Field(r.blanks, r.quoted, r.facility), Field("", false, Decimal(r.pin)), Field("", false, Decimal(r.puk))]
  }

  function PrintRow(r: Row): string {
    "+QPINC" + [':'] + PrintFields(FieldsOf(r))
  }

  function PrintRows(rows: seq<Row>): (lines: seq<string>)
    ensures |lines| == |rows|
  {
    if rows == [] then [] else [PrintRow(rows[0])] + PrintRows(rows[1..])
  }

  predicate GoodRow(r: Row) {
    && Printable(Field(r.blanks, r.quoted, r.facility))
    && ("SC" <= r.facility || "P2" <= r.facility)
    && -TWO_31 <= r.pin < TWO_31 && -TWO_31 <= r.puk < TWO_31
  }

  function LastSc(rows: seq<Row>): Option<int> {
    if rows == [] then None
    else
      var later := LastSc(rows[1..]);
      if later.Some? then later
      else if "SC" <= rows[0].facility then Some(rows[0].pin)
      else None
  }

  lemma ReadPrintedRow(r: Row)
    requires GoodRow(r)
    ensures ReadRow(PrintRow(r)) == if "SC" <= r.facility then Sc(r.pin) else P2
  {
    hide NextTok, PrintField, Printable, Decimal, IntOf;
    var fs := FieldsOf(r);
    NumeralPrintable("", false, r.pin);
    NumeralPrintable("", false, r.puk);
    StartPrinted("+QPINC", fs);
    TokOfField(fs[0], PrintFields(fs[1..]));
    TokOfField(fs[1], PrintFields(fs[2..]));
    TokOfLast(fs[2]);
    assert fs[1..][1..] == fs[2..] && fs[2..] == [fs[2]];
    DecimalRoundTrip(r.pin);
    DecimalRoundTrip(r.puk);
  }

  // Printed rows are read back as the last count given for the SIM PIN.
  lemma {:induction false} RetriesOfPrinted(rows: seq<Row>, unset: int)
    requires forall k :: 0 <= k < |rows| ==> GoodRow(rows[k])
    ensures Retries(PrintRows(rows), unset) == Some(if LastSc(rows).Some? then LastSc(rows).value else unset)
  {
    hide ReadRow, PrintRow, GoodRow;
    if rows != [] {
      ReadPrintedRow(rows[0]);
      assert PrintRows(rows)[1..] == PrintRows(rows[1..]);
      RetriesOfPrinted(rows[1..], if "SC" <= rows[0].facility then rows[0].pin else unset);
    }
  }

  // What a row of three fields or more gives: an error unless its facility is SC or P2 and the two
  // fields behind it are numbers.
  lemma RowReads(first: Field, second: Field, third: Field, more: seq<Field>)
    requires Printable(first) && Printable(second) && Printable(third)
    ensures var row := ReadRow("+QPINC:" + PrintFields([first, second, third] + more));
            var pin, puk := IntOf(second.text, Dec, false), IntOf(third.text, Dec, false);
            && (row.Bad? <==> !("SC" <= first.text || "P2" <= first.text) || pin.None? || puk.None?)
            && (!row.Bad? ==> row == if "SC" <= first.text then Sc(pin.value) else P2)
  {
    hide NextTok, PrintField, Printable, IntOf;
    var fs := [first, second, third] + more;
    assert fs[1..][1..] == fs[2..] && fs[2..][1..] == more;
    assert "+QPINC:" + PrintFields(fs) == "+QPINC" + [':'] + PrintFields(fs);
    StartPrinted("+QPINC", fs);
    TokOfField(first, PrintFields(fs[1..]));
    TokOfField(second, PrintFields(fs[2..]));
    if more == [] {
      TokOfLast(third);
    } else {
      TokOfField(third, PrintFields(more));
    }
  }

  // A row with fewer fields, or without a colon, is in error.
  lemma RowMissing(line: string, first: Field, second: Field)
    requires Printable(first) && Printable(second)
    ensures ':' !in line ==> ReadRow(line).Bad?
    ensures ReadRow("+QPINC:" + PrintFields([first])).Bad?
    ensures ReadRow("+QPINC:" + PrintFields([first, second])).Bad?
  {
    hide NextTok, PrintField, Printable, IntOf;
    StartMeans(line);
    hide Start;
    assert "+QPINC:" + PrintFields([first]) == "+QPINC" + [':'] + PrintFields([first]);
    StartPrinted("+QPINC", [first]);
    TokOfLast(first);
    assert "+QPINC:" + PrintFields([first, second]) == "+QPINC" + [':'] + PrintFields([first, second]);
    StartPrinted("+QPINC", [first, second]);
    TokOfField(first, PrintFields([second]));
    TokOfLast(second);
    EmptyIsNoNumber();
  }

  lemma EmptyIsNoNumber()
    ensures IntAt(Some("")).None?
  {
  }
}
