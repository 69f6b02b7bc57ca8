// A whole exchange in the command channel: a command is issued, the modem answers with lines the
// command collects and a final line, and the command thread wakes.
module AtExchange {
  import opened CString
  import opened AtProtocol

  function LineSteps(lines: seq<string>): (steps: seq<Step>)
    ensures |steps| == |lines|
  {
    if lines == [] then [] else LineSteps(lines[..|lines| - 1]) + [Line(lines[|lines| - 1])]
  }

  // The steps of the exchange.
  function Exchange(cmd: Command, lines: seq<string>, final: string): seq<Step> {
    [Issue(cmd, true)] + LineSteps(lines + [final]) + [Wake]
  }

  // The answer is one the command collects in full.
  predicate Collects(cmd: Command, lines: seq<string>) {
    && cmd.wanted && cmd.pdu.None?
    && NoFinals(lines)
    && (cmd.kind.MultiLine? || |lines| <= 1)
    && (cmd.kind.NoResult? ==> lines == [])
    && (cmd.kind.Numeric? ==> forall k :: 0 <= k < |lines| ==> lines[k] != [] && '0' <= lines[k][0] <= '9')
    && (cmd.kind.SingleLine? || cmd.kind.MultiLine? ==> forall k :: 0 <= k < |lines| ==> cmd.prefix <= lines[k])
  }

  // Lines that the command leaves alone.
  predicate Ignores(cmd: Command, noise: seq<string>) {
    && cmd.pdu.None? && NoFinals(noise)
    && (cmd.kind.Numeric? ==> forall k :: 0 <= k < |noise| ==> noise[k] == [] || !('0' <= noise[k][0] <= '9'))
    && (cmd.kind.SingleLine? || cmd.kind.MultiLine? ==> forall k :: 0 <= k < |noise| ==> !(cmd.prefix <= noise[k]))
  }

  lemma {:induction false} LinesBack(lines: seq<string>)
    ensures LinesOf(LineSteps(lines)) == lines
  {
    if lines != [] {
      LinesBack(lines[..|lines| - 1]);
      var steps := LineSteps(lines);
      assert steps[..|steps| - 1] == LineSteps(lines[..|lines| - 1]);
    }
  }

  // Lines alone leave the command pending.
  lemma {:induction false} LinesKeepPending(s: Channel, lines: seq<string>, id: nat)
    requires Owned(s, id)
    ensures var t := After(s, LineSteps(lines));
            Owned(t, id) && t.waiting == s.waiting && t.closed == s.closed && t.results == s.results
  {
    hide Classify;
    if lines != [] {
      var front := lines[..|lines| - 1];
      LinesKeepPending(s, front, id);
      var steps := LineSteps(lines);
      assert steps[..|steps| - 1] == LineSteps(front);
      ClassifyKeepsId(After(s, LineSteps(front)).pending.value, lines[|lines| - 1]);
    }
  }

  lemma ClassifyKeepsId(p: Pending, line: string)
    ensures Classify(p, line).0.id == p.id
  {
  }

  // Of noise and then lines, only the lines match.
  lemma {:induction false} MatchThrough(cmd: Command, noise: seq<string>, lines: seq<string>)
    requires forall k :: 0 <= k < |noise| ==> !Wanted(cmd.kind, cmd.prefix, noise[k])
    requires forall k :: 0 <= k < |lines| ==> Wanted(cmd.kind, cmd.prefix, lines[k])
    ensures Matching(cmd.kind, cmd.prefix, noise + lines) == lines
    decreases |noise| + |lines|
  {
    hide Wanted;
    var all := noise + lines;
    if lines != [] {
      assert all[..|all| - 1] == noise + lines[..|lines| - 1];
      MatchThrough(cmd, noise, lines[..|lines| - 1]);
    } else if noise != [] {
      assert all[..|all| - 1] == noise[..|noise| - 1] + [];
      MatchThrough(cmd, noise[..|noise| - 1], []);
    }
  }

  lemma {:induction false} NoneFinal(lines: seq<string>)
    requires NoFinals(lines)
    ensures NonFinal(lines) == lines
  {
    hide IsFinal;
    if lines != [] {
      NoneFinal(lines[..|lines| - 1]);
    }
  }

  lemma AcceptsAll(cmd: Command, noise: seq<string>, lines: seq<string>, final: string)
    requires Ignores(cmd, noise) && Collects(cmd, lines) && IsFinal(final)
    ensures Accepted(cmd, noise + lines + [final]) == lines && LastFinal(noise + lines + [final]) == Some(final)
  {
    hide IsFinal, Matching, NonFinal;
    var all := noise + lines;
    NonFinalSnoc(all, final);
    NoneFinal(all);
    MatchThrough(cmd, noise, lines);
    assert all + [] == all;
    assert |lines| == 1 ==> lines[..1] == lines;
  }

  lemma SplitExchange(s: Channel, cmd: Command, lines: seq<string>, final: string)
    ensures After(s, Exchange(cmd, lines, final)) ==
              Next(After(Next(s, Issue(cmd, true)), LineSteps(lines + [final])), Wake)
  {
    hide Next, LineSteps;
    var steps := LineSteps(lines + [final]);
    var all := Exchange(cmd, lines, final);
    assert all[..|all| - 1] == [Issue(cmd, true)] + steps;
    RunConcat(s, [Issue(cmd, true)], steps);
    assert [Issue(cmd, true)][..0] == [];
  }

  // The command returns 0 with exactly the lines and the final line that the modem sent, whatever
  // lines of no concern to it come before them.
  lemma ExchangeReturns(s: Channel, cmd: Command, noise: seq<string>, lines: seq<string>, final: string)
    requires Inv(s) && s.waiting.None? && !s.closed
    requires Ignores(cmd, noise) && Collects(cmd, lines) && IsFinal(final)
    ensures After(s, Exchange(cmd, noise + lines, final)).results ==
              s.results + [Return(0, Some(final), Some(Reply(IsSuccess(final), Some(final), lines)))]
  {
    var s1 := Next(s, Issue(cmd, true));
    var steps := LineSteps(noise + lines + [final]);
    assert Owned(s1, s.issued) && !s1.closed && s1.results == s.results;
    hide Inv, Collects, Ignores, LineSteps, IsFinal, Accepted, LastFinal;
    LinesKeepPending(s1, noise + lines + [final], s.issued);
    LinesBack(noise + lines + [final]);
    AcceptsAll(cmd, noise, lines, final);
    assert cmd.wanted by { CollectsWanted(cmd, lines); }
    SplitExchange(s, cmd, noise + lines, final);
    ResponseReturned(s, cmd, steps, noise + lines, lines, final);
  }

  lemma CollectsWanted(cmd: Command, lines: seq<string>)
    requires Collects(cmd, lines)
    ensures cmd.wanted
  {
  }

  lemma ResponseReturned(s: Channel, cmd: Command, steps: seq<Step>, all: seq<string>, lines: seq<string>, final: string)
    requires Inv(s) && s.waiting.None? && !s.closed && cmd.wanted
    requires var t := After(Next(s, Issue(cmd, true)), steps);
             Owned(t, s.issued) && !t.closed && t.results == s.results
    requires LinesOf(steps) == all + [final]
    requires Accepted(cmd, all + [final]) == lines && LastFinal(all + [final]) == Some(final)
    ensures Next(After(Next(s, Issue(cmd, true)), steps), Wake).results ==
              s.results + [Return(0, Some(final), Some(Reply(IsSuccess(final), Some(final), lines)))]
  {
    hide Inv, Accepted, LastFinal, After, LinesOf, IsSuccess;
    DeliveredResponse(s, cmd, steps);
    var t := After(Next(s, Issue(cmd, true)), steps);
    var t' := Next(t, Wake);
    assert t'.results[..|t.results|] == t.results by {
      WakeAppends(t);
    }
    assert t'.results == t'.results[..|t.results|] + [t'.results[|t.results|]];
  }

  lemma WakeAppends(t: Channel)
    ensures |Next(t, Wake).results| >= |t.results| && Next(t, Wake).results[..|t.results|] == t.results
  {
  }
}
