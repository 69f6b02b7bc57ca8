// The reader thread: it frames the byte stream into lines, pairs an SMS header with the line
// that follows it, and hands everything else to processLine.
module ReaderThread {
  import opened CString
  import opened LineFraming
  import opened LineInput
  import opened LineReader
  import opened SmsPrompt
  import opened AtProtocol
  import opened AtExchange
  import opened AtChannel
  import opened CommandChannel

  // What the reader does with a sequence of lines.  An SMS header that no line follows is dropped.
  function StepsOf(lines: seq<string>): seq<Step> {
    if lines == [] then []
    else if !IsSmsHeader(lines[0]) then [Line(lines[0])] + StepsOf(lines[1..])
    else if |lines| == 1 then []
    else [SmsPair(lines[0], lines[1])] + StepsOf(lines[2..])
  }

  lemma FedAppend(a: seq<Step>, b: seq<Step>)
    ensures Fed(a + b) == Fed(a) + Fed(b)
  {
    if b == [] {
      assert a + b == a;
    } else {
      assert (a + b)[..|a + b| - 1] == a + b[..|b| - 1];
      FedAppend(a, b[..|b| - 1]);
    }
  }

  lemma FedPrepend(step: Step, more: seq<Step>)
    ensures Fed([step] + more) == LinesFed(step) + Fed(more)
  {
    assert [step][..0] == [];
    FedAppend([step], more);
  }

  // All lines were fed to the channel, or all but an SMS header at the very end.
  predicate FedBack(fed: seq<string>, lines: seq<string>) {
    || fed == lines
    || (lines != [] && IsSmsHeader(lines[|lines| - 1]) && fed == lines[..|lines| - 1])
  }

  lemma FedBackPrepend(front: seq<string>, fed: seq<string>, lines: seq<string>)
    requires FedBack(fed, lines)
    ensures FedBack(front + fed, front + lines)
  {
    hide IsSmsHeader;
    if fed != lines {
      assert (front + lines)[..|front + lines| - 1] == front + lines[..|lines| - 1];
    }
  }

  // No line is lost or repeated on the way from the framing to the channel, but for an SMS header
  // at the very end of the stream.
  lemma {:induction false} StepsFeedLines(lines: seq<string>)
    ensures FedBack(Fed(StepsOf(lines)), lines)
  {
    hide IsSmsHeader, Fed;
    if lines != [] {
      if !IsSmsHeader(lines[0]) {
        StepsFeedLines(lines[1..]);
        FedPrepend(Line(lines[0]), StepsOf(lines[1..]));
        FedBackPrepend([lines[0]], Fed(StepsOf(lines[1..])), lines[1..]);
        assert lines == [lines[0]] + lines[1..];
      } else if |lines| == 1 {
        NothingFed();
      } else {
        StepsFeedLines(lines[2..]);
        FedPrepend(SmsPair(lines[0], lines[1]), StepsOf(lines[2..]));
        FedBackPrepend(lines[..2], Fed(StepsOf(lines[2..])), lines[2..]);
        assert lines == lines[..2] + lines[2..];
      }
    } else {
      NothingFed();
    }
  }

  // The headers of two-line SMS results, by their text.
  predicate SaysSms(line: string) {
    "+CMT:" <= line || "+CDS:" <= line || "+CBM:" <= line
  }

  lemma SmsHeaders(line: string)
    ensures StartsWithAny(line, SMS_UNSOLICITED) == IsSmsHeader(line) == SaysSms(line)
  {
    var table := SMS_UNSOLICITED;
    assert |table| == 3;
    if SaysSms(line) {
      assert table[0] <= line || table[1] <= line || table[2] <= line;
    }
  }

  // Lines that are no headers are handed over one by one; a header goes with the line behind it,
  // whatever that says, and is dropped when there is none.
  lemma {:induction false} StepsPair(lines: seq<string>, header: string, body: string, rest: seq<string>)
    requires forall k :: 0 <= k < |lines| ==> !SaysSms(lines[k])
    requires SaysSms(header)
    ensures StepsOf(lines) == LineSteps(lines) == StepsOf(lines + [header])
    ensures StepsOf(lines + [header, body] + rest) == LineSteps(lines) + [SmsPair(header, body)] + StepsOf(rest)
  {
    hide IsSmsHeader, SaysSms, LineSteps;
    SmsHeaders(header);
    var all := lines + [header, body] + rest;
    if lines == [] {
      assert LineSteps([]) == [];
      assert all[2..] == rest;
      assert lines + [header] == [header];
    } else {
      SmsHeaders(lines[0]);
      StepsPair(lines[1..], header, body, rest);
      LineStepsFront(lines);
      assert all[1..] == lines[1..] + [header, body] + rest;
      assert (lines + [header])[1..] == lines[1..] + [header];
    }
  }

  lemma {:induction false} LineStepsFront(lines: seq<string>)
    requires lines != []
    ensures LineSteps(lines) == [Line(lines[0])] + LineSteps(lines[1..])
  {
    if |lines| > 1 {
      LineStepsFront(lines[..|lines| - 1]);
      assert lines[1..][..|lines| - 2] == lines[..|lines| - 1][1..];
    } else {
      assert lines[..0] == [] == lines[1..];
    }
  }

  lemma NothingFed()
    ensures Fed([]) == []
  {
  }

  // Every readline still to come leaves the cursor in the buffer; the one that does not is a prompt
  // that ends on the last byte of the buffer (OnlyPromptLeaves).
  ghost predicate Inside(mem: seq<char>, cur: nat, input: seq<ReadEvent>)
    requires Memory(MAX_AT_RESPONSE, mem)
    decreases Size(input), MAX_AT_RESPONSE + 1 - cur
  {
    cur <= MAX_AT_RESPONSE
    && var o := ReadLine(MAX_AT_RESPONSE, mem, cur, input);
       (o.found ==> Inside(o.mem, o.cur, o.rest))
  }

  // A stream without prompts keeps the cursor in the buffer.
  lemma {:induction false} PromptFreeInside(mem: seq<char>, cur: nat, input: seq<ReadEvent>)
    requires Memory(MAX_AT_RESPONSE, mem) && cur <= MAX_AT_RESPONSE
    requires NulFree(Remaining(mem, cur, input)) && PromptFree(MAX_AT_RESPONSE, Remaining(mem, cur, input))
    ensures Inside(mem, cur, input)
    decreases Size(input), MAX_AT_RESPONSE + 1 - cur
  {
    hide ReadLine, NulFree, PromptFree, Reading;
    ReadLineReads(MAX_AT_RESPONSE, mem, cur, input);
    var o := ReadLine(MAX_AT_RESPONSE, mem, cur, input);
    if o.found {
      PromptFreeInside(o.mem, o.cur, o.rest);
    }
  }

  // Newlines and a prompt that just fill an empty buffer take the cursor out of it.
  lemma FullPromptOutside(newlines: seq<char>, front: seq<ReadEvent>, rest: seq<ReadEvent>)
    requires NewlinesIn(newlines, 0, |newlines|) && |newlines| + 2 == MAX_AT_RESPONSE
    requires Alive(front) && Bytes(front) == newlines + PROMPT
    ensures !Inside(Zeros(MAX_AT_RESPONSE), 0, front + rest)
  {
    hide ReadLine;
    FullPromptLeaves(MAX_AT_RESPONSE, newlines, front, rest);
  }

  // The lines still to be read; none once the cursor has left the buffer.
  ghost function Future(mem: seq<char>, cur: nat, input: seq<ReadEvent>): seq<seq<char>>
    requires Memory(MAX_AT_RESPONSE, mem)
  {
    if cur > MAX_AT_RESPONSE then [] else Session(MAX_AT_RESPONSE, mem, cur, input)
  }

  lemma FutureStep(mem: seq<char>, cur: nat, input: seq<ReadEvent>)
    requires Memory(MAX_AT_RESPONSE, mem) && cur <= MAX_AT_RESPONSE
    ensures var o := ReadLine(MAX_AT_RESPONSE, mem, cur, input);
            && (Inside(mem, cur, input) <==> o.found ==> Inside(o.mem, o.cur, o.rest))
            && (if o.found then
                  && o.cur <= MAX_AT_RESPONSE + 1 && (o.cur > MAX_AT_RESPONSE ==> LineOf(o) == PROMPT)
                  && Future(mem, cur, input) == [LineOf(o)] + Future(o.mem, o.cur, o.rest)
                  && NulFree(LineOf(o)) && StrEnd(o.mem, o.start) == o.eol
                else Future(mem, cur, input) == [])
  {
    hide ReadLine, NulFree;
    ReadLineText(MAX_AT_RESPONSE, mem, cur, input);
    OnlyPromptLeaves(MAX_AT_RESPONSE, mem, cur, input);
  }

  // One readline, and a copy of its text.
  method NextLine(reader: LineReader) returns (found: bool, line: string)
    requires reader.Valid() && reader.cur <= MAX_AT_RESPONSE
    modifies reader, reader.buf
    ensures reader.Valid()
    ensures found ==> NulFree(line) && reader.cur <= MAX_AT_RESPONSE + 1 && (reader.cur > MAX_AT_RESPONSE ==> line == PROMPT)
    ensures old(Inside(reader.buf[..], reader.cur, reader.input))
            <==> found ==> Inside(reader.buf[..], reader.cur, reader.input)
    ensures old(Future(reader.buf[..], reader.cur, reader.input))
            == if found then [line] + Future(reader.buf[..], reader.cur, reader.input) else []
    ensures found ==> Size(reader.input) < Size(old(reader.input))
                      || (reader.input == old(reader.input) && reader.cur > old(reader.cur))
  {
    hide Inside, Future, Size;
    FutureStep(reader.buf[..], reader.cur, reader.input);
    line := [];
    var start;
    found, start := reader.ReadNext();
    if found {
      line := reader.TextAt(start);
    }
  }

  // One turn of the reader's loop; open is false when the stream has ended.
  method HandleNext(reader: LineReader, channel: CommandChannel) returns (open: bool)
    requires reader.Valid() && reader.cur <= MAX_AT_RESPONSE && channel.Valid()
    modifies reader, reader.buf, channel`log, channel`pdu, channel`closed, channel.Objects(), channel.port
    ensures reader.Valid() && channel.Valid() && channel.Objects() == old(channel.Objects())
    ensures old(Inside(reader.buf[..], reader.cur, reader.input))
            <==> open ==> Inside(reader.buf[..], reader.cur, reader.input)
    ensures open ==>
              && reader.cur <= MAX_AT_RESPONSE + 1
              && (Size(reader.input) < Size(old(reader.input))
                  || (reader.input == old(reader.input) && reader.cur > old(reader.cur)))
    ensures var after := After(old(channel.Abs()), StepsOf(old(Future(reader.buf[..], reader.cur, reader.input))));
            if open then After(channel.Abs(), StepsOf(Future(reader.buf[..], reader.cur, reader.input))) == after
            else channel.Abs() == after
  {
    hide Next, Future, Inside, IsSmsHeader, Memory, StartsWithAny, After, Size;
    ghost var s := channel.Abs();
    NoSteps(s, []);
    var found, line := NextLine(reader);
    open := found;
    if found {
      ghost var tail := Future(reader.buf[..], reader.cur, reader.input);
      var sms := StartsWithEntry(line, SMS_UNSOLICITED);
      TakeFirst(s, line, tail);
      if sms {
        HeaderNoPrompt(line);
        open := HandleSms(reader, channel, line);
      } else {
        channel.Other(Line(line));
      }
    }
  }

  lemma HeaderNoPrompt(line: string)
    requires StartsWithAny(line, SMS_UNSOLICITED)
    ensures line != PROMPT
  {
  }

  // The line behind an SMS header; open is false when there is none.
  method HandleSms(reader: LineReader, channel: CommandChannel, header: string) returns (open: bool)
    requires reader.Valid() && reader.cur <= MAX_AT_RESPONSE && channel.Valid()
    requires StartsWithAny(header, SMS_UNSOLICITED)
    modifies reader, reader.buf, channel`log, channel`pdu, channel`closed, channel.Objects(), channel.port
    ensures reader.Valid() && channel.Valid() && channel.Objects() == old(channel.Objects())
    ensures old(Inside(reader.buf[..], reader.cur, reader.input))
            <==> open ==> Inside(reader.buf[..], reader.cur, reader.input)
    ensures open ==>
              && reader.cur <= MAX_AT_RESPONSE + 1
              && (Size(reader.input) < Size(old(reader.input))
                  || (reader.input == old(reader.input) && reader.cur > old(reader.cur)))
    ensures var all := [header] + old(Future(reader.buf[..], reader.cur, reader.input));
            if open then After(channel.Abs(), StepsOf(Future(reader.buf[..], reader.cur, reader.input)))
                         == After(old(channel.Abs()), StepsOf(all))
            else channel.Abs() == old(channel.Abs()) && old(Future(reader.buf[..], reader.cur, reader.input)) == []
  {
    hide Next, Future, Inside, StartsWithAny, Memory, After, StepsOf, Size;
    ghost var s := channel.Abs();
    var line;
    open, line := NextLine(reader);
    if open {
      TakePair(s, header, line, Future(reader.buf[..], reader.cur, reader.input));
      channel.Other(SmsPair(header, line));
    }
  }

  lemma TakeFirst(s: Channel, line: string, rest: seq<string>)
    ensures !StartsWithAny(line, SMS_UNSOLICITED) ==>
              After(s, StepsOf([line] + rest)) == After(Next(s, Line(line)), StepsOf(rest))
    ensures StartsWithAny(line, SMS_UNSOLICITED) && rest == [] ==> After(s, StepsOf([line] + rest)) == s
  {
    assert ([line] + rest)[1..] == rest;
    StartThen(s, Line(line), StepsOf(rest));
  }

  lemma TakePair(s: Channel, header: string, body: string, rest: seq<string>)
    requires StartsWithAny(header, SMS_UNSOLICITED)
    ensures After(s, StepsOf([header] + ([body] + rest))) == After(Next(s, SmsPair(header, body)), StepsOf(rest))
  {
    var all := [header] + ([body] + rest);
    assert all[2..] == rest && all[1] == body;
    StartThen(s, SmsPair(header, body), StepsOf(rest));
  }

  // readerLoop, for any stream: the channel takes the steps that the lines read stand for, and then
  // learns that the reader has ended.  lost tells that the cursor has left the buffer instead, and
  // nothing is said of what the source does then.
  method ReaderLoop(reader: LineReader, channel: CommandChannel) returns (lost: bool)
    requires reader.Valid() && reader.cur <= MAX_AT_RESPONSE && channel.Valid()
    modifies reader, reader.buf, channel`log, channel`pdu, channel`closed, channel.Objects(), channel.port
    ensures reader.Valid() && channel.Valid()
    ensures lost <==> !old(Inside(reader.buf[..], reader.cur, reader.input))
    ensures lost ==> reader.cur == MAX_AT_RESPONSE + 1
    ensures var after := After(old(channel.Abs()), StepsOf(old(Future(reader.buf[..], reader.cur, reader.input))));
            channel.Abs() == if lost then after else Next(after, ReaderEnds)
  {
    hide Next, After, Future, Inside, Size;
    ghost var after := After(channel.Abs(), StepsOf(Future(reader.buf[..], reader.cur, reader.input)));
    var open := true;
    while open && reader.cur <= MAX_AT_RESPONSE
      invariant reader.Valid() && channel.Valid() && channel.Objects() == old(channel.Objects())
      invariant old(Inside(reader.buf[..], reader.cur, reader.input))
                <==> open ==> Inside(reader.buf[..], reader.cur, reader.input)
      invariant open ==>
                  && reader.cur <= MAX_AT_RESPONSE + 1
                  && After(channel.Abs(), StepsOf(Future(reader.buf[..], reader.cur, reader.input))) == after
      invariant !open ==> channel.Abs() == after
      decreases open, Size(reader.input), MAX_AT_RESPONSE + 1 - reader.cur
    {
      open := HandleNext(reader, channel);
    }
    lost := open;
    if lost {
      NothingLeft(channel.Abs(), reader.buf[..], reader.cur, reader.input);
    } else {
      channel.Other(ReaderEnds);
    }
  }

  lemma NothingLeft(s: Channel, mem: seq<char>, cur: nat, input: seq<ReadEvent>)
    requires Memory(MAX_AT_RESPONSE, mem) && cur > MAX_AT_RESPONSE
    ensures !Inside(mem, cur, input) && After(s, StepsOf(Future(mem, cur, input))) == s
  {
  }

  // What the reader makes of a stream whose lines all fit depends on its bytes alone, not on how
  // they arrive, and every line reaches the channel, a final SMS header excepted.
  lemma ReaderSeesStream(input: seq<ReadEvent>, input': seq<ReadEvent>)
    requires Bytes(input) == Bytes(input') && NulFree(Bytes(input))
    requires PromptFree(MAX_AT_RESPONSE, Bytes(input)) && AllShort(MAX_AT_RESPONSE, Runs(Bytes(input)))
    ensures var lines := Lines(Bytes(input));
            var steps := StepsOf(Future(Zeros(MAX_AT_RESPONSE), 0, input));
            && steps == StepsOf(Future(Zeros(MAX_AT_RESPONSE), 0, input')) == StepsOf(lines)
            && FedBack(Fed(steps), lines)
  {
    ChunkingIrrelevant(MAX_AT_RESPONSE, input, input');
    StepsFeedLines(Lines(Bytes(input)));
  }

  // --- the two threads together ---

  // The reader's share of a run.
  function ReaderPart(steps: seq<Step>): seq<Step> {
    if steps == [] then []
    else
      var last := steps[|steps| - 1];
      ReaderPart(steps[..|steps| - 1]) + if last.Line? || last.SmsPair? then [last] else []
  }

  lemma FedSnoc(steps: seq<Step>, step: Step)
    ensures Fed(steps + [step]) == Fed(steps) + LinesFed(step)
  {
    assert (steps + [step])[..|steps|] == steps;
  }

  lemma {:induction false} FedByReader(steps: seq<Step>)
    ensures Fed(steps) == Fed(ReaderPart(steps))
  {
    if steps != [] {
      var front, last := steps[..|steps| - 1], steps[|steps| - 1];
      FedByReader(front);
      assert steps == front + [last];
      FedSnoc(front, last);
      if last.Line? || last.SmsPair? {
        FedSnoc(ReaderPart(front), last);
      } else {
        assert ReaderPart(front) + [] == ReaderPart(front);
      }
    }
  }

  // However the reader's work on a stream is interleaved with commands, wake-ups, timeouts and
  // closing, the lines read are consumed exactly once and in order, an SMS header at the very end
  // excepted.
  lemma StreamConserved(input: seq<ReadEvent>, steps: seq<Step>, hooked: bool)
    requires ReaderPart(steps) == StepsOf(Future(Zeros(MAX_AT_RESPONSE), 0, input))
    ensures FedBack(Consumed(After(Opened(hooked), steps).log), Future(Zeros(MAX_AT_RESPONSE), 0, input))
  {
    hide Future, StepsOf, ReaderPart, After, FedBack, Fed, Consumed;
    StepsFeedLines(Future(Zeros(MAX_AT_RESPONSE), 0, input));
    FedByReader(steps);
    LinesConserved(Opened(hooked), steps);
    NothingConsumed(hooked);
  }

  // For a stream without prompts whose lines all fit, they are the lines of its bytes, however it
  // arrives.
  lemma StreamLinesConserved(input: seq<ReadEvent>, steps: seq<Step>, hooked: bool)
    requires NulFree(Bytes(input)) && PromptFree(MAX_AT_RESPONSE, Bytes(input))
    requires AllShort(MAX_AT_RESPONSE, Runs(Bytes(input)))
    requires ReaderPart(steps) == StepsOf(Future(Zeros(MAX_AT_RESPONSE), 0, input))
    ensures FedBack(Consumed(After(Opened(hooked), steps).log), Lines(Bytes(input)))
  {
    hide PromptFree, AllShort, StepsOf, ReaderPart, After, FedBack, Consumed;
    StreamConserved(input, steps, hooked);
    ChunkingIrrelevant(MAX_AT_RESPONSE, input, input);
  }

  lemma NothingConsumed(hooked: bool)
    ensures Consumed(Opened(hooked).log) == [] && forall fed :: Consumed(Opened(hooked).log) + fed == fed
  {
  }
}
