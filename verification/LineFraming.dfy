// What a byte stream from the modem means as lines, independently of how the bytes arrive:
// the maximal runs free of CR and LF that a CR or LF ends.  A line that does not fit the
// reader's buffer together with the newlines before it may be cut, and `Delivered` says how.
module LineFraming {
  import opened CString

  const CR: char := '\r'
  const LF: char := '\n'
  const PROMPT: seq<char> := "> "

  predicate IsNewline(c: char) {
    c == CR || c == LF
  }

  predicate NewlinesIn(s: seq<char>, lo: nat, hi: nat)
    requires hi <= |s|
  {
    forall i :: lo <= i < hi ==> IsNewline(s[i])
  }

  predicate TextIn(s: seq<char>, lo: nat, hi: nat)
    requires hi <= |s|
  {
    forall i :: lo <= i < hi ==> !IsNewline(s[i])
  }

  // The first position from i on that holds no newline.
  function TextStart(s: seq<char>, i: nat): (n: nat)
    requires i <= |s|
    ensures i <= n <= |s|
    decreases |s| - i
  {
    if i == |s| || !IsNewline(s[i]) then i else TextStart(s, i + 1)
  }

  // The first position from i on that holds a newline.
  function TextEnd(s: seq<char>, i: nat): (n: nat)
    requires i <= |s|
    ensures i <= n <= |s|
    decreases |s| - i
  {
    if i == |s| || IsNewline(s[i]) then i else TextEnd(s, i + 1)
  }

  lemma {:induction false} TextStartIs(s: seq<char>, i: nat, a: nat)
    requires i <= a <= |s|
    ensures TextStart(s, i) == a <==> NewlinesIn(s, i, a) && (a < |s| ==> !IsNewline(s[a]))
    decreases |s| - i
  {
    if i < a && IsNewline(s[i]) {
      TextStartIs(s, i + 1, a);
    }
  }

  lemma {:induction false} TextEndIs(s: seq<char>, i: nat, b: nat)
    requires i <= b <= |s|
    ensures TextEnd(s, i) == b <==> TextIn(s, i, b) && (b < |s| ==> IsNewline(s[b]))
    decreases |s| - i
  {
    if i < b && !IsNewline(s[i]) {
      TextEndIs(s, i + 1, b);
    }
  }

  // A terminated line and the number of newline characters that precede it.
  datatype Run = Run(gap: nat, text: seq<char>)

  // The terminated lines of s from position i on.
  function RunsFrom(s: seq<char>, i: nat): seq<Run>
    requires i <= |s|
    decreases |s| - i
  {
    var a := TextStart(s, i);
    var b := TextEnd(s, a);
    if b == |s| then [] else [Run(a - i, s[a..b])] + RunsFrom(s, b)
  }

  function Runs(s: seq<char>): seq<Run> {
    RunsFrom(s, 0)
  }

  function Texts(rs: seq<Run>): (ts: seq<seq<char>>)
    ensures |ts| == |rs|
    ensures forall k :: 0 <= k < |rs| ==> ts[k] == rs[k].text
  {
    if rs == [] then [] else [rs[0].text] + Texts(rs[1..])
  }

  // The lines of a stream.
  function Lines(s: seq<char>): seq<seq<char>> {
    Texts(Runs(s))
  }

  // A run that, with the newlines before it, leaves room in a buffer of cap bytes.
  predicate Short(cap: nat, r: Run) {
    r.gap + |r.text| < cap
  }

  predicate AllShort(cap: nat, rs: seq<Run>) {
    rs == [] || (Short(cap, rs[0]) && AllShort(cap, rs[1..]))
  }

  predicate IsSuffix(t: seq<char>, s: seq<char>) {
    |t| <= |s| && s[|s| - |t|..] == t
  }

  // outs is what a reader with a buffer of cap bytes may return for the runs rs: every short
  // run intact, in order, and of every longer run nothing or a non-empty suffix.
  predicate Delivered(cap: nat, rs: seq<Run>, outs: seq<seq<char>>) {
    if rs == [] then outs == []
    else
      || (outs != [] && outs[0] == rs[0].text && Delivered(cap, rs[1..], outs[1..]))
      || (!Short(cap, rs[0]) && Delivered(cap, rs[1..], outs))
      || (!Short(cap, rs[0]) && outs != [] && outs[0] != [] && IsSuffix(outs[0], rs[0].text)
          && Delivered(cap, rs[1..], outs[1..]))
  }

  // When every run is short nothing is lost, cut or added.
  lemma {:induction false} DeliveredExactly(cap: nat, rs: seq<Run>, outs: seq<seq<char>>)
    requires Delivered(cap, rs, outs) && AllShort(cap, rs)
    ensures outs == Texts(rs)
  {
    if rs != [] {
      DeliveredExactly(cap, rs[1..], outs[1..]);
      assert outs == [outs[0]] + outs[1..];
    }
  }

  predicate PromptAt(s: seq<char>, i: nat) {
    i + 1 < |s| && s[i] == PROMPT[0] && s[i + 1] == PROMPT[1]
  }

  predicate NoPromptIn(s: seq<char>, lo: nat, hi: nat) {
    forall k :: lo <= k < hi ==> !PromptAt(s, k)
  }

  // From i on no line starts with a prompt, and a line that is not short has none in it at all.
  predicate PromptFreeFrom(cap: nat, s: seq<char>, i: nat)
    requires i <= |s|
    decreases |s| - i
  {
    var a := TextStart(s, i);
    var b := TextEnd(s, a);
    && !PromptAt(s, a)
    && (b - i >= cap ==> NoPromptIn(s, a, b))
    && (b == |s| || PromptFreeFrom(cap, s, b))
  }

  predicate PromptFree(cap: nat, s: seq<char>) {
    PromptFreeFrom(cap, s, 0)
  }

  // --- how the runs of a stream change when bytes are consumed ---

  // t is the part of s from position d on.
  predicate TailAt(t: seq<char>, s: seq<char>, d: nat) {
    d <= |s| && |t| == |s| - d && forall k :: 0 <= k < |t| ==> t[k] == s[d + k]
  }

  // A tail holds the same newlines and text, d positions earlier.
  lemma {:induction false} Shift(t: seq<char>, s: seq<char>, d: nat, i: nat)
    requires TailAt(t, s, d) && i <= |t|
    ensures TextStart(t, i) == TextStart(s, d + i) - d
    ensures TextEnd(t, i) == TextEnd(s, d + i) - d
    decreases |t| - i
  {
    if i < |t| {
      assert t[i] == s[d + i];
      Shift(t, s, d, i + 1);
    }
  }

  lemma SliceOfTail(t: seq<char>, s: seq<char>, d: nat, a: nat, b: nat)
    requires TailAt(t, s, d) && a <= b <= |t|
    ensures t[a..b] == s[d + a..d + b]
  {
  }

  // The runs of a tail are those from its position on.
  lemma {:induction false} RunsOfTail(t: seq<char>, s: seq<char>, d: nat, i: nat)
    requires TailAt(t, s, d) && i <= |t|
    ensures RunsFrom(t, i) == RunsFrom(s, d + i)
    decreases |t| - i
  {
    hide TextStart, TextEnd, IsNewline;
    var a := TextStart(t, i);
    var b := TextEnd(t, a);
    Shift(t, s, d, i);
    Shift(t, s, d, a);
    if b < |t| {
      var r := Run(a - i, t[a..b]);
      SliceOfTail(t, s, d, a, b);
      assert RunsFrom(t, i) == [r] + RunsFrom(t, b);
      assert RunsFrom(s, d + i) == [r] + RunsFrom(s, d + b);
      RunsOfTail(t, s, d, b);
    }
  }

  lemma PromptOfTail(t: seq<char>, s: seq<char>, d: nat, i: nat)
    requires TailAt(t, s, d)
    ensures PromptAt(t, i) == PromptAt(s, d + i)
  {
  }

  lemma NoPromptInTail(t: seq<char>, s: seq<char>, d: nat, a: nat, b: nat)
    requires TailAt(t, s, d)
    ensures NoPromptIn(t, a, b) == NoPromptIn(s, d + a, d + b)
  {
    hide PromptAt, TailAt;
    forall k | d + a <= k < d + b
      ensures PromptAt(s, k) == PromptAt(t, k - d)
    {
      PromptOfTail(t, s, d, k - d);
    }
    forall k | a <= k < b
      ensures PromptAt(t, k) == PromptAt(s, d + k)
    {
      PromptOfTail(t, s, d, k);
    }
  }

  lemma {:induction false} PromptFreeTail(cap: nat, t: seq<char>, s: seq<char>, d: nat, i: nat)
    requires TailAt(t, s, d) && i <= |t|
    ensures PromptFreeFrom(cap, t, i) == PromptFreeFrom(cap, s, d + i)
    decreases |t| - i
  {
    hide NoPromptIn, PromptAt;
    var a := TextStart(t, i);
    var b := TextEnd(t, a);
    Shift(t, s, d, i);
    Shift(t, s, d, a);
    PromptOfTail(t, s, d, a);
    NoPromptInTail(t, s, d, a, b);
    if b < |t| {
      PromptFreeTail(cap, t, s, d, b);
    }
  }

  // A line that starts where the newlines end does not start with a prompt.
  lemma NoPromptFirst(cap: nat, s: seq<char>, a: nat)
    requires a < |s| && PromptFree(cap, s) && NewlinesIn(s, 0, a) && !IsNewline(s[a])
    ensures !PromptAt(s, a)
  {
    TextStartIs(s, 0, a);
  }

  // A stream that shows a complete line: its runs are that line and the runs of the rest.
  lemma RunsOfLine(s: seq<char>, i: nat, a: nat, b: nat)
    requires i <= a < b < |s|
    requires NewlinesIn(s, i, a) && TextIn(s, a, b) && IsNewline(s[b])
    ensures TextStart(s, i) == a && TextEnd(s, a) == b
    ensures RunsFrom(s, i) == [Run(a - i, s[a..b])] + RunsFrom(s, b)
  {
    TextStartIs(s, i, a);
    TextEndIs(s, a, b);
  }

  // A stream with no newline after its text has no runs.
  lemma NoRuns(s: seq<char>, i: nat, a: nat)
    requires i <= a <= |s| && NewlinesIn(s, i, a) && TextIn(s, a, |s|)
    ensures RunsFrom(s, i) == []
  {
    TextStartIs(s, i, a);
    TextEndIs(s, a, |s|);
  }

  lemma {:induction false} SameStart(s: seq<char>, i: nat, d: nat)
    requires i <= d <= |s| && NewlinesIn(s, i, d)
    ensures TextStart(s, i) == TextStart(s, d)
    decreases d - i
  {
    if i < d {
      SameStart(s, i + 1, d);
    }
  }

  // Dropping leading newlines leaves the same runs, but for the gap of the first.
  lemma DropNewlines(s: seq<char>, i: nat, d: nat)
    requires i <= d <= |s| && NewlinesIn(s, i, d)
    ensures RunsFrom(s, i) == [] ==> RunsFrom(s, d) == []
    ensures RunsFrom(s, i) != [] ==>
              && RunsFrom(s, i)[0].gap >= d - i
              && RunsFrom(s, d) == [Run(RunsFrom(s, i)[0].gap - (d - i), RunsFrom(s, i)[0].text)] + RunsFrom(s, i)[1..]
  {
    SameStart(s, i, d);
  }

  // Dropping a newline leaves the same lines.
  lemma DropNewline(s: seq<char>, i: nat)
    requires i < |s| && IsNewline(s[i])
    ensures Texts(RunsFrom(s, i)) == Texts(RunsFrom(s, i + 1))
  {
    hide RunsFrom;
    DropNewlines(s, i, i + 1);
  }

  // What the lines of a stream are: every carriage return or line feed ends a line, unless there is
  // nothing before it, and what none of them ends is no line.
  lemma LinesMean(text: seq<char>, end: char, rest: seq<char>)
    requires '\r' !in text && '\n' !in text && (end == '\r' || end == '\n')
    ensures Lines(text + [end] + rest) == if text == [] then Lines(rest) else [text] + Lines(rest)
    ensures Lines(text) == []
  {
    hide RunsFrom, TextStart, TextEnd;
    var s, n := text + [end] + rest, |text|;
    NoRuns(text, 0, 0);
    DropNewline(s, n);
    RunsOfTail(rest, s, n + 1, 0);
    if text != [] {
      RunsOfLine(s, 0, 0, n);
      assert s[0..n] == text;
    }
  }

  // Dropping leading newlines and then part of a line leaves the tail of that line, or, if the
  // whole line went, the runs that follow it.
  lemma DropIntoLine(s: seq<char>, a: nat, d: nat)
    requires a < d <= |s|
    requires NewlinesIn(s, 0, a) && TextIn(s, a, d)
    ensures Runs(s) == [] ==> RunsFrom(s, d) == []
    ensures Runs(s) != [] ==>
              && Runs(s)[0].gap == a && d - a <= |Runs(s)[0].text|
              && (if d - a == |Runs(s)[0].text| then RunsFrom(s, d) == Runs(s)[1..]
                  else RunsFrom(s, d) == [Run(0, Runs(s)[0].text[d - a..])] + Runs(s)[1..])
  {
    var e := TextEnd(s, d);
    TextEndIs(s, d, e);
    if e == |s| {
      NoRuns(s, 0, a);
      NoRuns(s, d, d);
    } else {
      RunsOfLine(s, 0, a, e);
      if e > d {
        RunsOfLine(s, d, d, e);
        assert s[d..e] == s[a..e][d - a..];
      }
    }
  }

  // A reading of a stream stays a reading when the first run was in fact longer than it looked.
  lemma WidenFirst(cap: nat, r: Run, r': Run, tail: seq<Run>, outs: seq<seq<char>>)
    requires Delivered(cap, [r'] + tail, outs)
    requires r'.text != [] && IsSuffix(r'.text, r.text)
    requires Short(cap, r) ==> r'.gap <= r.gap && r'.text == r.text
    ensures Delivered(cap, [r] + tail, outs)
  {
    assert ([r'] + tail)[1..] == tail == ([r] + tail)[1..];
    if outs != [] && IsSuffix(outs[0], r'.text) {
      var k := |r'.text| - |outs[0]|;
      assert r'.text[k..] == r.text[|r.text| - |r'.text|..][k..];
    }
  }

  // --- how the hypotheses survive when bytes are consumed ---

  lemma PromptFreeAfterNewlines(cap: nat, s: seq<char>, i: nat, d: nat)
    requires i <= d <= |s| && NewlinesIn(s, i, d)
    requires PromptFreeFrom(cap, s, i)
    ensures PromptFreeFrom(cap, s, d)
  {
    hide PromptAt, NoPromptIn;
    SameStart(s, i, d);
  }

  lemma PromptFreeAfterLine(cap: nat, s: seq<char>, a: nat, b: nat)
    requires a < b < |s|
    requires NewlinesIn(s, 0, a) && TextIn(s, a, b) && IsNewline(s[b])
    requires PromptFree(cap, s)
    ensures PromptFreeFrom(cap, s, b + 1)
  {
    hide PromptAt, NoPromptIn;
    RunsOfLine(s, 0, a, b);
    PromptFreeAfterNewlines(cap, s, b, b + 1);
  }

  // Of a line that does not fit, what is left after a full buffer is as free of prompts.
  lemma PromptFreeAfterOverflow(cap: nat, s: seq<char>, a: nat)
    requires a <= cap <= |s| && NewlinesIn(s, 0, a) && TextIn(s, a, cap)
    requires PromptFree(cap, s)
    ensures PromptFreeFrom(cap, s, cap)
  {
    if a == cap {
      PromptFreeAfterNewlines(cap, s, 0, cap);
    } else {
      var b := TextEnd(s, cap);
      TextEndIs(s, cap, b);
      TextStartIs(s, 0, a);
      TextEndIs(s, a, b);
      assert NoPromptIn(s, a, b);
      TextStartIs(s, cap, cap);
    }
  }
}
