// What a command returns with, told by the text of the lines alone: the literal prefixes, digits
// and codes, without the functions that the channel itself is built from.
module ResponseLaws {
  import opened CString
  import opened AtProtocol

  function Filter(keep: string -> bool, s: seq<string>): seq<string> {
    if s == [] then []
    else Filter(keep, s[..|s| - 1]) + if keep(s[|s| - 1]) then [s[|s| - 1]] else []
  }

  // The first element that is looked for, alone, or nothing if there is none.
  function FirstOf(keep: string -> bool, s: seq<string>): seq<string> {
    if s == [] then []
    else if FirstOf(keep, s[..|s| - 1]) != [] then FirstOf(keep, s[..|s| - 1])
    else if keep(s[|s| - 1]) then [s[|s| - 1]]
    else []
  }

  function LastOf(keep: string -> bool, s: seq<string>): Option<string> {
    if s == [] then None
    else if keep(s[|s| - 1]) then Some(s[|s| - 1])
    else LastOf(keep, s[..|s| - 1])
  }

  function WithoutFirst(x: string, s: seq<string>): seq<string> {
    if s == [] then [] else if s[0] == x then s[1..] else [s[0]] + WithoutFirst(x, s[1..])
  }

  // The final result codes of a success, and all of them.
  predicate SaysSuccess(line: string) {
    "OK" <= line || "CONNECT" <= line
  }

  predicate SaysFinal(line: string) {
    || SaysSuccess(line) || "ERROR" <= line || "+CMS ERROR:" <= line || "+CME ERROR:" <= line
    || "NO CARRIER" <= line || "NO ANSWER" <= line || "NO DIALTONE" <= line
  }

  lemma FinalLines(line: string)
    ensures IsSuccess(line) <==> SaysSuccess(line)
    ensures IsFinal(line) <==> SaysFinal(line)
  {
    EntriesOf(line, FINAL_SUCCESS);
    EntriesOf(line, FINAL_ERROR);
  }

  lemma EntriesOf(line: string, table: seq<string>)
    ensures |table| == 2 ==> (StartsWithAny(line, table) <==> table[0] <= line || table[1] <= line)
    ensures |table| == 6 ==> (StartsWithAny(line, table) <==>
              || table[0] <= line || table[1] <= line || table[2] <= line
              || table[3] <= line || table[4] <= line || table[5] <= line)
  {
  }

  lemma {:induction false} FirstOfFilter(keep: string -> bool, s: seq<string>)
    ensures FirstOf(keep, s) == if Filter(keep, s) == [] then [] else Filter(keep, s)[..1]
  {
    if s != [] {
      FirstOfFilter(keep, s[..|s| - 1]);
    }
  }

  lemma {:induction false} MatchingIsFilter(kind: Kind, prefix: string, keep: string -> bool, lines: seq<string>)
    requires forall x :: Wanted(kind, prefix, x) <==> keep(x)
    ensures Matching(kind, prefix, lines) == Filter(keep, lines)
  {
    hide Wanted;
    if lines != [] {
      MatchingIsFilter(kind, prefix, keep, lines[..|lines| - 1]);
    }
  }

  lemma {:induction false} NonFinalIsFilter(lines: seq<string>)
    ensures NonFinal(lines) == Filter(x => !SaysFinal(x), lines)
    ensures LastFinal(lines) == LastOf(SaysFinal, lines)
  {
    hide IsFinal, SaysFinal;
    if lines != [] {
      NonFinalIsFilter(lines[..|lines| - 1]);
      FinalLines(lines[|lines| - 1]);
    }
  }

  lemma {:induction false} WithoutPromptIsWithoutFirst(pdu: Option<string>, lines: seq<string>)
    ensures WithoutPrompt(pdu, lines) == if pdu.Some? then WithoutFirst("> ", lines) else lines
  {
    if lines != [] {
      WithoutPromptIsWithoutFirst(pdu, lines[1..]);
    }
  }

  // What may be collected for a command out of the lines since it was issued: no final line, nor
  // the prompt that fetched its PDU.
  function Candidates(pdu: Option<string>, lines: seq<string>): seq<string> {
    var others := Filter(x => !SaysFinal(x), lines);
    if pdu.Some? then WithoutFirst("> ", others) else others
  }

  // The lines a command collects out of others.
  function Collected(kind: Kind, prefix: string, others: seq<string>): seq<string> {
    match kind
    case NoResult => []
    case Numeric => FirstOf((x: string) => x != [] && '0' <= x[0] <= '9', others)
    case SingleLine => FirstOf((x: string) => prefix <= x, others)
    case MultiLine => Filter((x: string) => prefix <= x, others)
  }

  lemma {:induction false} NothingKept(prefix: string, lines: seq<string>)
    ensures Matching(NoResult, prefix, lines) == []
  {
    if lines != [] {
      NothingKept(prefix, lines[..|lines| - 1]);
    }
  }

  lemma MatchingCollects(kind: Kind, prefix: string, others: seq<string>)
    ensures FirstOnly(kind, Matching(kind, prefix, others)) == Collected(kind, prefix, others)
  {
    var digits := (x: string) => x != [] && '0' <= x[0] <= '9';
    var prefixed := (x: string) => prefix <= x;
    match kind
    case NoResult => NothingKept(prefix, others);
    case Numeric =>
      MatchingIsFilter(kind, prefix, digits, others);
      FirstOfFilter(digits, others);
    case SingleLine =>
      MatchingIsFilter(kind, prefix, prefixed, others);
      FirstOfFilter(prefixed, others);
    case MultiLine => MatchingIsFilter(kind, prefix, prefixed, others);
  }

  lemma AcceptedIsCollected(cmd: Command, lines: seq<string>)
    ensures Accepted(cmd, lines) == Collected(cmd.kind, cmd.prefix, Candidates(cmd.pdu, lines))
  {
    hide Collected, Matching, Filter, FirstOf, WithoutFirst, WithoutPrompt;
    NonFinalIsFilter(lines);
    WithoutPromptIsWithoutFirst(cmd.pdu, NonFinal(lines));
    MatchingCollects(cmd.kind, cmd.prefix, WithoutPrompt(cmd.pdu, NonFinal(lines)));
  }

  // Over every interleaving: once a final line has come, or the channel is closed, the command
  // returns with the last final line, the success it tells, and of the other lines since it was
  // issued, the prompt for its PDU left out, none for NO_RESULT, the first that starts with a digit
  // for NUMERIC, the first with the prefix for SINGLELINE, all with the prefix for MULTILINE.
  lemma CommandReturns(s: Channel, cmd: Command, steps: seq<Step>)
    requires Inv(s) && s.waiting.None? && !s.closed
    requires Owned(After(Next(s, Issue(cmd, true)), steps), s.issued)
    ensures var t := After(Next(s, Issue(cmd, true)), steps);
            var t' := Next(t, Wake);
            var lines := LinesOf(steps);
            var final := LastOf(SaysFinal, lines);
            var others := Candidates(cmd.pdu, lines);
            var kept := match cmd.kind
              case NoResult => []
              case Numeric => FirstOf((x: string) => x != [] && '0' <= x[0] <= '9', others)
              case SingleLine => FirstOf((x: string) => cmd.prefix <= x, others)
              case MultiLine => Filter((x: string) => cmd.prefix <= x, others);
            if t.closed || final.Some? then
              && |t'.results| == |t.results| + 1
              && var r := t'.results[|t.results|];
              && r.err == (if t.closed then -3 else 0)
              && r.final == final
              && (if cmd.wanted then
                    r.reply == Some(Reply(final.Some? && SaysSuccess(final.value), final, kept))
                  else r.reply.None?)
            else t' == t
  {
    hide After, Inv, Accepted, IsSuccess, SaysSuccess, Next, LastOf, LastFinal, LinesOf, Candidates, FirstOf, Filter;
    var lines := LinesOf(steps);
    DeliveredResponse(s, cmd, steps);
    AcceptedIsCollected(cmd, lines);
    NonFinalIsFilter(lines);
    if LastFinal(lines).Some? {
      FinalLines(LastFinal(lines).value);
    }
  }

  predicate NoneOf(keep: string -> bool, s: seq<string>, n: nat)
    requires n <= |s|
  {
    forall j :: 0 <= j < n ==> !keep(s[j])
  }

  // What FirstOf finds: nothing only when there is nothing to find, and the first otherwise.
  lemma {:induction false} FirstOfFinds(keep: string -> bool, s: seq<string>)
    returns (k: nat)
    ensures k <= |s| && NoneOf(keep, s, k) && if k == |s| then FirstOf(keep, s) == [] else keep(s[k]) && FirstOf(keep, s) == [s[k]]
  {
    k := 0;
    if s != [] {
      var front := s[..|s| - 1];
      k := FirstOfFinds(keep, front);
      assert forall j :: 0 <= j < |front| ==> front[j] == s[j];
      if k == |front| && !keep(s[k]) {
        k := k + 1;
      }
    }
  }

  // The errors of a command that is not written or not answered in time: its response, if any, is
  // freed, and nothing is handed over.
  lemma CommandFails(s: Channel, cmd: Command, steps: seq<Step>)
    requires Inv(s) && s.waiting.None?
    ensures s.closed ==> Next(s, Issue(cmd, false)) == s.(results := s.results + [Return(-3, None, None)])
    ensures !s.closed ==> Next(s, Issue(cmd, false)) == s.(results := s.results + [Return(-1, None, None)])
    ensures var t := After(Next(s, Issue(cmd, true)), steps);
            var t' := Next(t, Expire);
            !s.closed && Owned(t, s.issued) ==>
              if cmd.timed then
                && t'.results == t.results + [Return(-4, None, None)] && t'.handed == t.handed
                && t'.pending.None? && t'.waiting.None? && t'.freed[s.issued] == t.freed[s.issued] + 1
              else t' == t
  {
    hide After;
    if !s.closed && Owned(After(Next(s, Issue(cmd, true)), steps), s.issued) {
      ResponseIsFilter(s, cmd, steps);
    }
  }
}
