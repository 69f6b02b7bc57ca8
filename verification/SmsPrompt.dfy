// The "> " prompt that precedes an SMS PDU has no line ending, so readline takes it when it is
// all there is in the buffer.  The cursor then lies one byte past the terminating NUL.  These
// lemmas say exactly when that byte is a NUL too, and so the buffer counts as empty, and show
// streams for which it is not.
module SmsPrompt {
  import opened CString
  import opened LineFraming
  import opened LineInput

  // n newlines followed by a prompt.
  predicate PromptText(total: seq<char>, n: nat) {
    |total| == n + 2 && NewlinesIn(total, 0, n) && total[n] == PROMPT[0] && total[n + 1] == PROMPT[1]
  }

  // Reads that neither end nor fail, the last of which brings bytes.
  predicate Alive(front: seq<ReadEvent>) {
    && (front != [] ==> front[|front| - 1].Data?)
    && forall k :: 0 <= k < |front| ==> front[k].Interrupted? || (front[k].Data? && front[k].bytes != [])
  }

  // What a prompt returned by readline should look like: the text, and nothing left behind.
  predicate CleanPrompt(o: Outcome, rest: seq<ReadEvent>) {
    && o.found && o.start <= o.eol <= |o.mem| && LineOf(o) == PROMPT
    && o.cur < |o.mem| && o.mem[o.cur] == NUL
    && o.rest == rest
  }

  // --- bytes that complete a prompt ---

  // The first p bytes of a prompt text are in the buffer, and a NUL; behind the whole text and its
  // terminator lies left.
  predicate Arriving(mem: seq<char>, p: nat, total: seq<char>, left: seq<char>) {
    && p <= |total| < |mem| && mem[p] == NUL
    && (forall k :: 0 <= k < p ==> mem[k] == total[k])
    && mem[|total| + 1..] == left
  }

  // The prompt is returned, with the cursor behind its terminator and before left.
  predicate PromptOut(o: Outcome, n: nat, left: seq<char>, rest: seq<ReadEvent>) {
    && o.found && o.start == n && o.eol == n + 2 <= |o.mem| && LineOf(o) == PROMPT
    && o.cur == n + 3 && o.rest == rest
    && n + 3 <= |o.mem| && o.mem[n + 3..] == left
  }

  // The search for a line while a prompt is arriving.
  lemma PromptSearch(mem: seq<char>, cur: nat, q: nat, total: seq<char>, n: nat, left: seq<char>)
    requires PromptText(total, n) && Arriving(mem, q, total, left) && cur <= n && cur <= q && mem[|mem| - 1] == NUL
    ensures TextStart(mem, cur) == if n < q then n else q
    ensures FindNextEol(mem, TextStart(mem, cur)) == if q == |total| then Some(q) else None
  {
    var c := if n < q then n else q;
    TextStartIs(mem, cur, c);
    if q == n + 1 {
      assert ScanEol(mem, n + 1).None?;
    }
  }

  lemma FillInterrupted(cap: nat, mem: seq<char>, cur: nat, p: nat, more: seq<ReadEvent>)
    requires Memory(cap, mem) && cur <= p < cap
    ensures Fill(cap, mem, cur, p, [Interrupted] + more) == Fill(cap, mem, cur, p, more)
  {
    hide TextStart, FindNextEol, Poke, Memory, Bytes;
    var input := [Interrupted] + more;
    assert input[1..] == more;
    assert Receive(input, cap - p) == Receive(more, cap - p);
    hide Receive;
    assert FillRoom(cap, mem, cur, p, input) == FillRoom(cap, mem, cur, p, more);
  }

  lemma ReceiveData(b: seq<char>, more: seq<ReadEvent>, n: nat)
    requires 0 < |b| <= n
    ensures Receive([Data(b)] + more, n) == Received(b, more)
  {
    assert ([Data(b)] + more)[1..] == more;
  }

  lemma FillData(cap: nat, mem: seq<char>, cur: nat, p: nat, b: seq<char>, more: seq<ReadEvent>)
    requires Memory(cap, mem) && cur <= p && b != [] && p + |b| <= cap
    ensures var mem1 := Poke(mem, p, b);
            var c := TextStart(mem1, cur);
            && c <= p + |b|
            && Fill(cap, mem, cur, p, [Data(b)] + more) ==
               match FindNextEol(mem1, c)
               case Some(e) => Outcome(true, c, e, mem1[e := NUL], e + 1, more)
               case None => Fill(cap, mem1, c, p + |b|, more)
  {
    TextStartBound(Poke(mem, p, b), cur, p + |b|);
    ReceiveData(b, more, cap - p);
    hide TextStart, FindNextEol, Poke, Receive, Bytes;
    assert Fill(cap, mem, cur, p, [Data(b)] + more) == FillRoom(cap, mem, cur, p, [Data(b)] + more);
  }

  lemma MoreArrives(mem: seq<char>, p: nat, b: seq<char>, total: seq<char>, left: seq<char>)
    requires Arriving(mem, p, total, left) && p + |b| <= |total| && b == total[p..p + |b|]
    ensures Arriving(Poke(mem, p, b), p + |b|, total, left)
  {
    var mem1 := Poke(mem, p, b);
    forall k | 0 <= k < p + |b|
      ensures mem1[k] == total[k]
    {
      if p <= k {
        assert mem1[k] == b[k - p];
      }
    }
  }

  lemma {:induction false} LastHasBytes(front: seq<ReadEvent>)
    requires Alive(front) && front != []
    ensures Bytes(front) != []
  {
    if |front| > 1 {
      assert front[1..][|front| - 2] == front[|front| - 1];
      LastHasBytes(front[1..]);
    }
  }

  // Bytes that complete a prompt are taken in any number of reads.
  lemma {:induction false} PromptFills(cap: nat, mem: seq<char>, cur: nat, p: nat, total: seq<char>, n: nat, left: seq<char>,
                                       front: seq<ReadEvent>, rest: seq<ReadEvent>)
    requires Memory(cap, mem) && PromptText(total, n) && |total| <= cap && Alive(front)
    requires cur <= n && cur <= p < |total| && Arriving(mem, p, total, left) && Bytes(front) == total[p..]
    ensures PromptOut(Fill(cap, mem, cur, p, front + rest), n, left, rest)
    decreases |front|, 1
  {
    hide Fill, PromptOut, PromptText;
    assert front != [];
    var tail := front[1..];
    assert front + rest == [front[0]] + (tail + rest);
    if front[0].Interrupted? {
      FillInterrupted(cap, mem, cur, p, tail + rest);
      PromptFills(cap, mem, cur, p, total, n, left, tail, rest);
    } else {
      var b := front[0].bytes;
      assert Bytes(front) == b + Bytes(tail);
      assert b == total[p..p + |b|] && Bytes(tail) == total[p + |b|..];
      PromptBytes(cap, mem, cur, p, total, n, left, b, tail, rest);
    }
  }

  lemma {:induction false} PromptBytes(cap: nat, mem: seq<char>, cur: nat, p: nat, total: seq<char>, n: nat, left: seq<char>,
                                       b: seq<char>, tail: seq<ReadEvent>, rest: seq<ReadEvent>)
    requires Memory(cap, mem) && PromptText(total, n) && |total| <= cap && Alive(tail)
    requires cur <= n && cur <= p && b != [] && p + |b| <= |total| && b == total[p..p + |b|]
    requires Arriving(mem, p, total, left) && Bytes(tail) == total[p + |b|..]
    ensures PromptOut(Fill(cap, mem, cur, p, [Data(b)] + (tail + rest)), n, left, rest)
    decreases |tail| + 1, 0
  {
    hide Fill, Poke, TextStart, FindNextEol, Arriving, NewlinesIn, Bytes, PromptOut, Alive;
    var q := p + |b|;
    var mem1 := Poke(mem, p, b);
    FillData(cap, mem, cur, p, b, tail + rest);
    MoreArrives(mem, p, b, total, left);
    PromptSearch(mem1, cur, q, total, n, left);
    if q < |total| {
      PromptFills(cap, mem1, TextStart(mem1, cur), q, total, n, left, tail, rest);
    } else {
      if tail != [] {
        LastHasBytes(tail);
        assert false;
      }
      PromptWhole(mem1, q, total, n, left, rest);
      assert tail + rest == rest;
    }
  }

  lemma PromptWhole(mem: seq<char>, q: nat, total: seq<char>, n: nat, left: seq<char>, rest: seq<ReadEvent>)
    requires PromptText(total, n) && q == |total| && Arriving(mem, q, total, left)
    ensures PromptOut(Outcome(true, n, q, mem[q := NUL], q + 1, rest), n, left, rest)
  {
    assert mem[q := NUL][n..q] == PROMPT;
  }

  // --- a prompt from any buffer ---

  // The byte on which the cursor comes to lie behind a prompt that n newlines precede: a prompt
  // that is whole in the buffer is returned where it is, and any other from the front.
  function PromptByte(mem: seq<char>, cur: nat, n: nat): (z: nat)
    requires cur < |mem| && mem[|mem| - 1] == NUL
  {
    var q := StrEnd(mem, cur);
    if q == cur + n + 2 then q + 1
    else if q >= cur + n then 3
    else cur + n - q + 3
  }

  // The prompt is returned, and what lies behind it is what was there before, or nothing when the
  // buffer was empty.  So the buffer is left empty if and only if the byte behind it is a NUL.
  predicate Returned(mem: seq<char>, cur: nat, n: nat, o: Outcome, rest: seq<ReadEvent>)
    requires cur < |mem| && mem[|mem| - 1] == NUL
  {
    var z := PromptByte(mem, cur, n);
    && o.found && o.start <= o.eol <= |o.mem| && LineOf(o) == PROMPT && o.rest == rest && o.cur == z
    && |o.mem| == |mem| && z <= |mem|
    && o.mem[z..] == (if mem[cur] == NUL then seq(|mem| - z, _ => NUL) else mem[z..])
    && (CleanPrompt(o, rest) <==> z < |mem| && (mem[cur] == NUL || mem[z] == NUL))
  }

  // The whole prompt is in the buffer.
  lemma PromptBuffered(cap: nat, mem: seq<char>, cur: nat, n: nat, rest: seq<ReadEvent>)
    requires Memory(cap, mem) && cur <= cap && PromptText(Content(mem, cur), n)
    ensures Returned(mem, cur, n, ReadLine(cap, mem, cur, rest), rest)
  {
    var q := StrEnd(mem, cur);
    var c := cur + n;
    PromptFound(mem, cur, n);
    hide TextStart, StrEnd, PromptText, FindNextEol, Fill, MoveDown;
    assert mem[q := NUL] == mem;
    assert ReadLine(cap, mem, cur, rest) == Outcome(true, c, q, mem, q + 1, rest);
  }

  lemma PromptFound(mem: seq<char>, cur: nat, n: nat)
    requires cur < |mem| && mem[|mem| - 1] == NUL && PromptText(Content(mem, cur), n)
    ensures var c, q := cur + n, StrEnd(mem, cur);
            && q == c + 2 && TextStart(mem, cur) == c && FindNextEol(mem, c) == Some(q)
            && mem[cur] != NUL && mem[c..q] == PROMPT
  {
    hide StrEnd, ScanEol;
    var c, q := cur + n, StrEnd(mem, cur);
    assert forall k :: cur <= k < q ==> mem[k] == Content(mem, cur)[k - cur];
    TextStartIs(mem, cur, c);
  }

  // The buffer once the first j bytes of a prompt have been moved to its front.
  function Moved(mem: seq<char>, j: nat): (r: seq<char>)
    requires j <= 1 && j + 1 <= |mem|
    ensures |r| == |mem|
    ensures r[j] == NUL && (j == 1 ==> r[0] == PROMPT[0]) && forall i :: j < i < |mem| ==> r[i] == mem[i]
  {
    PROMPT[..j] + [NUL] + mem[j + 1..]
  }

  lemma MovedArrives(mem: seq<char>, j: nat, total: seq<char>, n: nat, left: seq<char>)
    requires j <= 1 && PromptText(total, n) && |total| < |mem| && (j == 1 ==> n == 0)
    requires mem[|total| + 1..] == left
    ensures Arriving(Moved(mem, j), j, total, left)
  {
    hide Moved;
  }

  // Part of the newlines and the prompt is in the buffer, and a line is looked for in vain.
  lemma PartMoved(cap: nat, mem: seq<char>, cur: nat, k: nat, input: seq<ReadEvent>)
    requires Memory(cap, mem) && cur <= cap && mem[cur] != NUL
    requires var q := StrEnd(mem, cur);
             k <= q - cur && NewlinesIn(mem, cur, cur + k) && (cur + k == q || (cur + k + 1 == q && mem[cur + k] == PROMPT[0]))
    ensures var j := StrEnd(mem, cur) - (cur + k);
            ReadLine(cap, mem, cur, input) == Fill(cap, Moved(mem, j), 0, j, input)
  {
    hide StrEnd, FindNextEol, MoveDown, Moved, Fill;
    var q := StrEnd(mem, cur);
    var c := cur + k;
    TextStartIs(mem, cur, c);
    hide TextStart;
    StrEndIs(mem, c, q);
    NoLineInPart(mem, c, q);
    MovedDown(mem, c, q);
    assert ReadLine(cap, mem, cur, input) == Fill(cap, MoveDown(mem, c), 0, q - c, input);
  }

  lemma MovedDown(mem: seq<char>, c: nat, q: nat)
    requires c <= q < |mem| && mem[|mem| - 1] == NUL && StrEnd(mem, c) == q
    requires c == q || (c + 1 == q && mem[c] == PROMPT[0])
    ensures MoveDown(mem, c) == Moved(mem, q - c)
  {
    hide StrEnd;
  }

  lemma NoLineInPart(mem: seq<char>, c: nat, q: nat)
    requires q < |mem| && mem[|mem| - 1] == NUL && mem[q] == NUL
    requires c == q || (c + 1 == q && mem[c] == PROMPT[0])
    ensures FindNextEol(mem, c).None?
  {
    if c < q {
      assert ScanEol(mem, c) == ScanEol(mem, q);
    }
  }

  // A prompt that went out of a buffer of the same size, unchanged at the byte behind it.
  lemma OutIsReturned(mem: seq<char>, cur: nat, n: nat, o: Outcome, m: nat, left: seq<char>, rest: seq<ReadEvent>)
    requires cur < |mem| && mem[|mem| - 1] == NUL && |o.mem| == |mem|
    requires PromptOut(o, m, left, rest) && PromptByte(mem, cur, n) == m + 3
    requires left == if mem[cur] == NUL then seq(|mem| - (m + 3), _ => NUL) else mem[m + 3..]
    ensures Returned(mem, cur, n, o, rest)
  {
    hide PromptByte;
    assert o.mem[m + 3..] == left;
    assert m + 3 < |mem| ==> o.mem[m + 3] == left[0];
  }

  lemma ByteBehindPart(mem: seq<char>, cur: nat, n: nat, k: nat, j: nat)
    requires cur < |mem| && mem[|mem| - 1] == NUL && StrEnd(mem, cur) == cur + k + j
    requires k <= n && (j == 0 || (j == 1 && k == n))
    ensures PromptByte(mem, cur, n) == n - k + 3
  {
  }

  // Part of them is in the buffer, the rest comes in any number of reads.
  lemma PromptCompleted(cap: nat, mem: seq<char>, cur: nat, n: nat, k: nat, j: nat, total: seq<char>,
                        front: seq<ReadEvent>, rest: seq<ReadEvent>)
    requires Memory(cap, mem) && cur <= cap && mem[cur] != NUL && Alive(front)
    requires StrEnd(mem, cur) == cur + k + j && k <= n && NewlinesIn(mem, cur, cur + k)
    requires j == 0 || (j == 1 && k == n && mem[cur + k] == PROMPT[0])
    requires PromptText(total, n - k) && |total| <= cap && Bytes(front) == total[j..]
    ensures Returned(mem, cur, n, ReadLine(cap, mem, cur, front + rest), rest)
  {
    hide StrEnd, PromptByte, ReadLine, Returned, Moved, NewlinesIn, Bytes, Arriving, Fill, Alive, PromptOut;
    PartMoved(cap, mem, cur, k, front + rest);
    ByteBehindPart(mem, cur, n, k, j);
    var left := mem[|total| + 1..];
    var mem1 := Moved(mem, j);
    MovedArrives(mem, j, total, n - k, left);
    assert Memory(cap, mem1) && |total| == n - k + 2;
    hide PromptText;
    PromptFills(cap, mem1, 0, j, total, n - k, left, front, rest);
    OutIsReturned(mem, cur, n, Fill(cap, mem1, 0, j, front + rest), n - k, left, rest);
  }

  lemma PromptCleared(cap: nat, mem: seq<char>, cur: nat, total: seq<char>, n: nat,
                      front: seq<ReadEvent>, rest: seq<ReadEvent>)
    requires Memory(cap, mem) && cur <= cap && mem[cur] == NUL && Alive(front)
    requires PromptText(total, n) && |total| <= cap && Bytes(front) == total
    ensures Returned(mem, cur, n, ReadLine(cap, mem, cur, front + rest), rest)
  {
    assert total[0..] == total;
    assert PromptByte(mem, cur, n) == n + 3;
    var left := Zeros(cap)[|total| + 1..];
    assert left == seq(|mem| - (n + 3), _ => NUL);
    assert Arriving(Zeros(cap), 0, total, left);
    hide Fill, PromptText, PromptByte, Returned, Bytes, Arriving;
    PromptFills(cap, Zeros(cap), 0, 0, total, n, left, front, rest);
    OutIsReturned(mem, cur, n, Fill(cap, Zeros(cap), 0, 0, front + rest), n, left, rest);
  }

  // What is buffered of newlines and a prompt: newlines only, all of them and the '>', or all.
  lemma SplitPrompt(content: seq<char>, more: seq<char>, n: nat)
    requires PromptText(content + more, n)
    ensures |content| <= n + 2
    ensures |content| == n + 2 ==> more == [] && PromptText(content, n)
    ensures |content| == n + 1 ==> NewlinesIn(content, 0, n) && content[n] == PROMPT[0] && more == PROMPT[1..]
    ensures |content| <= n ==> NewlinesIn(content, 0, |content|) && PromptText(more, n - |content|)
  {
    var total := content + more;
    assert forall i :: 0 <= i < |content| ==> content[i] == total[i];
    assert forall i :: 0 <= i < |more| ==> more[i] == total[|content| + i];
    if |content| == n + 2 {
      assert content + more == content;
    }
  }

  // Whatever the buffer holds of the newlines and the prompt, and however the rest arrives, the
  // prompt is returned; the buffer is left empty if and only if it was empty before or the named
  // byte is a NUL, which is outside the prompt's own bytes and so left there by earlier lines.
  lemma PromptReturned(cap: nat, mem: seq<char>, cur: nat, n: nat, front: seq<ReadEvent>, rest: seq<ReadEvent>)
    requires Memory(cap, mem) && cur <= cap && Alive(front)
    requires PromptText(Remaining(mem, cur, front), n) && PromptByte(mem, cur, n) <= cap + 1
    ensures Returned(mem, cur, n, ReadLine(cap, mem, cur, front + rest), rest)
  {
    var q := StrEnd(mem, cur);
    var content, more := Content(mem, cur), Bytes(front);
    assert forall k :: 0 <= k < |content| ==> content[k] == mem[cur + k];
    SplitPrompt(content, more, n);
    if mem[cur] == NUL {
      assert content == [] && content + more == more;
      PromptCleared(cap, mem, cur, more, n, front, rest);
    } else if |content| == n + 2 {
      if front != [] {
        LastHasBytes(front);
        assert false;
      }
      assert front + rest == rest;
      PromptBuffered(cap, mem, cur, n, rest);
    } else if |content| == n + 1 {
      assert PROMPT[1..] == more;
      PromptCompleted(cap, mem, cur, n, n, 1, PROMPT, front, rest);
    } else {
      assert more[0..] == more;
      PromptCompleted(cap, mem, cur, n, |content|, 0, more, front, rest);
    }
  }

  // The cursor leaves the buffer if and only if that byte lies outside it.
  lemma PromptLeaves(cap: nat, mem: seq<char>, cur: nat, n: nat, front: seq<ReadEvent>, rest: seq<ReadEvent>)
    requires Memory(cap, mem) && cur <= cap && Alive(front)
    requires PromptText(Remaining(mem, cur, front), n) && PromptByte(mem, cur, n) <= cap + 1
    ensures ReadLine(cap, mem, cur, front + rest).cur > cap <==> PromptByte(mem, cur, n) == cap + 1
  {
    hide PromptByte, ReadLine, Alive, PromptText;
    PromptReturned(cap, mem, cur, n, front, rest);
  }

  // So it does for newlines and a prompt that just fill an empty buffer, in however many reads.
  lemma FullPromptLeaves(cap: nat, newlines: seq<char>, front: seq<ReadEvent>, rest: seq<ReadEvent>)
    requires NewlinesIn(newlines, 0, |newlines|) && |newlines| + 2 == cap
    requires Alive(front) && Bytes(front) == newlines + PROMPT
    ensures var o := ReadLine(cap, Zeros(cap), 0, front + rest);
            o.found && LineOf(o) == PROMPT && o.cur == cap + 1
  {
    var mem := Zeros(cap);
    assert StrEnd(mem, 0) == 0 && Content(mem, 0) == [];
    assert [] + Bytes(front) == newlines + PROMPT;
    assert PromptByte(mem, 0, cap - 2) == cap + 1;
    hide ReadLine, Alive, Content, PromptByte, StrEnd;
    PromptReturned(cap, mem, 0, cap - 2, front, rest);
  }

  // --- behind an ordinary line ---

  const CRLF: seq<char> := [CR, LF]

  // A line of text that is itself no prompt without an ending.
  predicate PlainLine(line: seq<char>) {
    line != [] && NulFree(line) && TextIn(line, 0, |line|)
  }

  // The first newline of a line that is no prompt is its end.
  lemma {:induction false} EolAt(mem: seq<char>, c: nat, e: nat)
    requires c <= e < |mem| && mem[|mem| - 1] == NUL && IsNewline(mem[e]) && TextIn(mem, c, e)
    requires forall i :: c <= i < e ==> mem[i] != NUL
    ensures ScanEol(mem, c) == Some(e)
    decreases e - c
  {
    if c < e {
      EolAt(mem, c + 1, e);
    }
  }

  // The buffer after a line that came alone, with its CR and LF, and was returned.
  function AfterLine(cap: nat, line: seq<char>): (mem: seq<char>)
    requires |line| + 2 <= cap
    ensures Memory(cap, mem) && mem[|line|] == NUL && mem[|line| + 1] == LF
    ensures forall i :: 0 <= i < |line| ==> mem[i] == line[i]
    ensures forall i :: |line| + 2 <= i <= cap ==> mem[i] == NUL
  {
    line + [NUL, LF, NUL] + Zeros(cap)[|line| + 3..]
  }

  lemma LineRead(cap: nat, line: seq<char>, more: seq<ReadEvent>)
    requires PlainLine(line) && |line| + 2 <= cap
    ensures ReadLine(cap, Zeros(cap), 0, [Data(line + CRLF)] + more)
            == Outcome(true, 0, |line|, AfterLine(cap, line), |line| + 1, more)
  {
    var b := line + CRLF;
    var mem := Poke(Zeros(cap), 0, b);
    var n := |line|;
    assert mem == b + [NUL] + Zeros(cap)[n + 3..];
    assert mem[n := NUL] == AfterLine(cap, line);
    assert mem[0..n + 2] == b;
    TextFound(cap, mem, line);
    hide Poke, AfterLine, TextStart, FindNextEol, Fill;
    FillData(cap, Zeros(cap), 0, 0, b, more);
  }

  // The buffer then holds the LF, and no more.
  lemma LineFeedLeft(cap: nat, line: seq<char>)
    requires |line| + 2 <= cap
    ensures var mem := AfterLine(cap, line);
            && mem[|line| + 1] == LF && StrEnd(mem, |line| + 1) == |line| + 2
            && Content(mem, |line| + 1) == [LF] && PromptByte(mem, |line| + 1, 1) == 3
  {
    hide AfterLine, StrEnd;
    var mem := AfterLine(cap, line);
    StrEndIs(mem, |line| + 1, |line| + 2);
    hide Memory;
    assert Content(mem, |line| + 1) == mem[|line| + 1..|line| + 2] == [LF];
  }

  // When a prompt comes behind a line of its own and that line's CR and LF, as it does for every
  // SMS, it leaves the buffer empty only behind a line of one character or of three.
  lemma PromptAfterLine(cap: nat, line: seq<char>, front: seq<ReadEvent>, rest: seq<ReadEvent>)
    requires PlainLine(line) && |line| + 2 <= cap
    requires Alive(front) && Bytes(front) == PROMPT
    ensures var mem := AfterLine(cap, line);
            var o := ReadLine(cap, mem, |line| + 1, front + rest);
            && Returned(mem, |line| + 1, 1, o, rest)
            && (CleanPrompt(o, rest) <==> |line| == 1 || |line| == 3)
  {
    var mem := AfterLine(cap, line);
    var cur := |line| + 1;
    LineFeedLeft(cap, line);
    assert PromptText([LF] + PROMPT, 1);
    assert mem[3] == NUL <==> |line| == 1 || |line| == 3;
    hide AfterLine, StrEnd, Content, PromptByte, ReadLine, CleanPrompt, Bytes, Alive;
    PromptReturned(cap, mem, cur, 1, front, rest);
  }

  lemma SessionStep(cap: nat, mem: seq<char>, cur: nat, input: seq<ReadEvent>, o: Outcome)
    requires Memory(cap, mem) && cur <= cap && ReadLine(cap, mem, cur, input) == o
    requires o.found && o.cur <= cap
    ensures Session(cap, mem, cur, input) == [LineOf(o)] + Session(cap, o.mem, o.cur, o.rest)
  {
  }

  // A line and a prompt, each in a read of its own, are returned, and behind the cursor lies what the
  // line has left there.
  lemma LineThenPrompt(cap: nat, line: seq<char>, rest: seq<ReadEvent>) returns (mem: seq<char>)
    requires PlainLine(line) && |line| + 2 <= cap
    ensures Memory(cap, mem) && mem[3..] == AfterLine(cap, line)[3..]
    ensures Session(cap, Zeros(cap), 0, [Data(line + CRLF), Data(PROMPT)] + rest) == [line, PROMPT] + Session(cap, mem, 3, rest)
  {
    assert cap >= 3;
    hide Session, AfterLine, PlainLine;
    TwoThen(Data(line + CRLF), Data(PROMPT), rest);
    LineOut(cap, line, [Data(PROMPT)] + rest);
    mem := PromptOutNext(cap, line, rest);
    TwoThen(line, PROMPT, Session(cap, mem, 3, rest));
  }

  lemma TwoThen<T>(a: T, b: T, rest: seq<T>)
    ensures [a] + ([b] + rest) == [a, b] + rest
  {
  }

  lemma LineOut(cap: nat, line: seq<char>, more: seq<ReadEvent>)
    requires PlainLine(line) && |line| + 2 <= cap
    ensures Session(cap, Zeros(cap), 0, [Data(line + CRLF)] + more)
            == [line] + Session(cap, AfterLine(cap, line), |line| + 1, more)
  {
    var mem := AfterLine(cap, line);
    assert mem[0..|line|] == line;
    hide AfterLine, ReadLine, Session;
    LineRead(cap, line, more);
    SessionStep(cap, Zeros(cap), 0, [Data(line + CRLF)] + more, Outcome(true, 0, |line|, mem, |line| + 1, more));
  }

  lemma PromptOutNext(cap: nat, line: seq<char>, rest: seq<ReadEvent>) returns (mem: seq<char>)
    requires PlainLine(line) && |line| + 2 <= cap
    ensures Memory(cap, mem) && mem[3..] == AfterLine(cap, line)[3..]
    ensures Session(cap, AfterLine(cap, line), |line| + 1, [Data(PROMPT)] + rest) == [PROMPT] + Session(cap, mem, 3, rest)
  {
    var front := [Data(PROMPT)];
    assert front[1..] == [] && Bytes(front) == PROMPT;
    hide AfterLine, ReadLine, Session, StrEnd, PromptByte, CleanPrompt, Bytes;
    PromptAfterLine(cap, line, front, rest);
    LineFeedLeft(cap, line);
    var o := ReadLine(cap, AfterLine(cap, line), |line| + 1, front + rest);
    SessionStep(cap, AfterLine(cap, line), |line| + 1, front + rest, o);
    mem := o.mem;
  }

  // What the next call then returns starts with the piece of the old line that lies behind the
  // prompt, unless that piece looks like a prompt itself: framing fails for every such line.
  lemma StalePrompt(cap: nat, line: seq<char>, next: seq<char>)
    requires PlainLine(line) && |line| > 3 && |line| + 2 <= cap && line[3..] != PROMPT
    requires PlainLine(next) && |line| - 3 + |next| + 2 <= cap
    ensures var input := [Data(line + CRLF), Data(PROMPT), Data(next + CRLF)];
            var outs := Session(cap, Zeros(cap), 0, input);
            && |outs| >= 3 && outs[0] == line && outs[1] == PROMPT && outs[2] == line[3..] + next
  {
    var rest := [Data(next + CRLF)];
    assert [Data(line + CRLF), Data(PROMPT)] + rest == [Data(line + CRLF), Data(PROMPT), Data(next + CRLF)];
    var mem := LineThenPrompt(cap, line, rest);
    PieceReturned(cap, mem, line, next);
  }

  lemma SameTail(a: seq<char>, b: seq<char>, d: nat)
    requires |a| == |b| && d <= |a| && a[d..] == b[d..]
    ensures forall i :: d <= i < |a| ==> a[i] == b[i]
  {
    forall i | d <= i < |a|
      ensures a[i] == b[i]
    {
      assert a[i] == a[d..][i - d];
    }
  }

  // When the piece looks like a prompt itself, it is returned as one.
  lemma PromptTwice(cap: nat, line: seq<char>, rest: seq<ReadEvent>)
    requires PlainLine(line) && |line| == 5 && line[3..] == PROMPT && cap >= 7
    ensures var outs := Session(cap, Zeros(cap), 0, [Data(line + CRLF), Data(PROMPT)] + rest);
            |outs| >= 3 && outs[0] == line && outs[1] == PROMPT && outs[2] == PROMPT
  {
    var mem := LineThenPrompt(cap, line, rest);
    PromptAgain(cap, mem, line, rest);
  }

  lemma PromptAgain(cap: nat, mem: seq<char>, line: seq<char>, rest: seq<ReadEvent>)
    requires PlainLine(line) && |line| == 5 && line[3..] == PROMPT && cap >= 7
    requires Memory(cap, mem) && mem[3..] == AfterLine(cap, line)[3..]
    ensures Session(cap, mem, 3, rest) != [] && Session(cap, mem, 3, rest)[0] == PROMPT
  {
    SameTail(mem, AfterLine(cap, line), 3);
    hide ReadLine, Session, StrEnd, AfterLine;
    assert line[3] == line[3..][0] && line[4] == line[3..][1];
    StrEndIs(mem, 3, 5);
    assert PromptText(Content(mem, 3), 0);
    PromptBuffered(cap, mem, 3, 0, rest);
    FirstOut(cap, mem, 3, rest);
  }

  // Behind a line of two characters only that line's LF is left, and no piece of it.
  lemma LineFeedAgain(cap: nat, line: seq<char>, front: seq<ReadEvent>, rest: seq<ReadEvent>)
    requires PlainLine(line) && |line| == 2 && cap >= 4
    requires Alive(front) && Bytes(front) == PROMPT
    ensures var o := ReadLine(cap, AfterLine(cap, line), |line| + 1, front + rest);
            o.found && o.cur == 3 && |o.mem| == cap + 1 && o.mem[cap] == NUL && Content(o.mem, 3) == [LF]
  {
    var m1 := AfterLine(cap, line);
    PromptAfterLine(cap, line, front, rest);
    LineFeedLeft(cap, line);
    hide ReadLine, AfterLine, StrEnd, PromptByte, Alive;
    var o := ReadLine(cap, m1, 3, front + rest);
    SameTail(o.mem, m1, 3);
    StrEndIs(o.mem, 3, 4);
    assert o.mem[3..4] == [LF];
  }

  lemma PieceReturned(cap: nat, mem: seq<char>, line: seq<char>, next: seq<char>)
    requires PlainLine(line) && |line| > 3 && |line| + 2 <= cap && line[3..] != PROMPT
    requires PlainLine(next) && |line| - 3 + |next| + 2 <= cap
    requires Memory(cap, mem) && mem[3..] == AfterLine(cap, line)[3..]
    ensures var outs := Session(cap, mem, 3, [Data(next + CRLF)]);
            outs != [] && outs[0] == line[3..] + next
  {
    var piece := line[3..];
    var k := |piece|;
    SameTail(mem, AfterLine(cap, line), 3);
    hide AfterLine;
    assert forall i :: 0 <= i < k ==> mem[3 + i] == piece[i];
    assert mem[3 + k] == NUL;
    assert mem[3..3 + k] == piece;
    PieceCompleted(cap, mem, piece, next);
  }

  lemma {:induction false} NoEolIn(mem: seq<char>, c: nat, q: nat)
    requires c <= q < |mem| && mem[|mem| - 1] == NUL && mem[q] == NUL && TextIn(mem, c, q)
    ensures ScanEol(mem, c).None?
    decreases q - c
  {
    if c < q {
      NoEolIn(mem, c + 1, q);
    }
  }

  lemma PromptIsPiece(mem: seq<char>, piece: seq<char>)
    requires piece != [] && NulFree(piece) && mem != [] && mem[|mem| - 1] == NUL
    requires 3 + |piece| < |mem| && mem[3..3 + |piece|] == piece && mem[3 + |piece|] == NUL
    ensures AtPrompt(mem, 3) ==> piece == PROMPT
  {
    assert forall i :: 0 <= i < |piece| ==> mem[3 + i] == piece[i];
    if AtPrompt(mem, 3) {
      assert |piece| == 2;
    }
  }

  // A piece without an end is moved to the front of the buffer.
  lemma PieceMoved(cap: nat, mem: seq<char>, piece: seq<char>, input: seq<ReadEvent>)
    requires PlainLine(piece) && piece != PROMPT
    requires Memory(cap, mem) && 3 + |piece| <= cap && mem[3..3 + |piece|] == piece && mem[3 + |piece|] == NUL
    ensures var mem1 := MoveDown(mem, 3);
            && mem1[..|piece|] == piece && mem1[|piece|] == NUL
            && ReadLine(cap, mem, 3, input) == Fill(cap, mem1, 0, |piece|, input)
  {
    var k := |piece|;
    var q := 3 + k;
    assert forall i :: 3 <= i < q ==> mem[i] == piece[i - 3];
    StrEndIs(mem, 3, q);
    NoEolIn(mem, 3, q);
    TextStartIs(mem, 3, 3);
    hide StrEnd, ScanEol, TextStart;
    PromptIsPiece(mem, piece);
    assert MoveDown(mem, 3)[..k] == mem[3..q];
    hide Fill, MoveDown;
    assert ReadLine(cap, mem, 3, input) == Fill(cap, MoveDown(mem, 3), 0, k, input);
  }

  // A buffered piece that no newline ends goes before the text that comes next.
  lemma PieceCompleted(cap: nat, mem: seq<char>, piece: seq<char>, next: seq<char>)
    requires PlainLine(piece) && piece != PROMPT && PlainLine(next) && |piece| + |next| + 2 <= cap
    requires Memory(cap, mem) && 3 + |piece| <= cap && mem[3..3 + |piece|] == piece && mem[3 + |piece|] == NUL
    ensures var outs := Session(cap, mem, 3, [Data(next + CRLF)]);
            outs != [] && outs[0] == piece + next
  {
    var input := [Data(next + CRLF)];
    var mem1 := MoveDown(mem, 3);
    PieceMoved(cap, mem, piece, input);
    hide MoveDown, ReadLine, PlainLine, Fill, Session;
    PieceFilled(cap, mem1, piece, next);
    FirstOut(cap, mem, 3, input);
  }

  lemma PieceFilled(cap: nat, mem: seq<char>, piece: seq<char>, next: seq<char>)
    requires PlainLine(piece) && PlainLine(next) && |piece| + |next| + 2 <= cap
    requires Memory(cap, mem) && mem[..|piece|] == piece
    ensures var o := Fill(cap, mem, 0, |piece|, [Data(next + CRLF)]);
            o.found && LineOf(o) == piece + next
  {
    var k, n := |piece|, |piece + next|;
    var b := next + CRLF;
    assert PlainLine(piece + next);
    hide PlainLine, Poke, Fill, TextStart, FindNextEol;
    TextPoked(mem, piece, next);
    TextFound(cap, Poke(mem, k, b), piece + next);
    FillData(cap, mem, 0, k, b, []);
    assert [Data(b)] == [Data(b)] + [];
  }

  lemma TextPoked(mem: seq<char>, piece: seq<char>, next: seq<char>)
    requires |piece| + |next| + 2 < |mem| && mem[..|piece|] == piece
    ensures Poke(mem, |piece|, next + CRLF)[0..|piece + next| + 2] == (piece + next) + CRLF
  {
    PokeKeeps(mem, |piece|, next + CRLF);
    hide Poke;
    assert piece + (next + CRLF) == (piece + next) + CRLF;
  }

  lemma FirstOut(cap: nat, mem: seq<char>, cur: nat, input: seq<ReadEvent>)
    requires Memory(cap, mem) && cur <= cap
    ensures var o := ReadLine(cap, mem, cur, input);
            var outs := Session(cap, mem, cur, input);
            o.found ==> outs != [] && outs[0] == LineOf(o)
  {
    hide ReadLine;
  }

  // A whole line at the front of the buffer is found.
  lemma TextFound(cap: nat, mem: seq<char>, line: seq<char>)
    requires Memory(cap, mem) && PlainLine(line) && |line| + 2 <= cap
    requires mem[0..|line| + 2] == line + CRLF
    ensures TextStart(mem, 0) == 0 && FindNextEol(mem, 0) == Some(|line|)
    ensures mem[|line| := NUL][0..|line|] == line
  {
    var n := |line|;
    assert forall i :: 0 <= i < n + 2 ==> mem[i] == (line + CRLF)[i];
    EolAt(mem, 0, n);
    assert mem[n] == CR && mem[n + 1] == LF;
  }

  // --- in the middle of a line that is too long ---

  // A buffer filled by a line without an end is ditched, and a prompt that comes next is returned.
  lemma PromptAfterOverflow(cap: nat, long: seq<char>, rest: seq<ReadEvent>)
    requires PlainLine(long) && |long| == cap >= 3 && long[0] != PROMPT[0]
    ensures var o := ReadLine(cap, Zeros(cap), 0, [Data(long), Data(PROMPT)] + rest);
            o.found && LineOf(o) == PROMPT && o.cur == 3
  {
    hide Fill, FillRoom, Poke, ScanEol, TextStart;
    var more := [Data(PROMPT)] + rest;
    assert [Data(long), Data(PROMPT)] + rest == [Data(long)] + more;
    LongFills(cap, long, more);
    var mem := (long + [NUL])[0 := NUL];
    Ditched(cap, long + [NUL], more);
    var front := [Data(PROMPT)];
    assert front[1..] == [] && Bytes(front) == PROMPT == PROMPT[0..];
    PromptFills(cap, mem, 0, 0, PROMPT, 0, mem[3..], front, rest);
  }

  lemma LongFills(cap: nat, long: seq<char>, more: seq<ReadEvent>)
    requires PlainLine(long) && |long| == cap >= 3 && long[0] != PROMPT[0]
    ensures Fill(cap, Zeros(cap), 0, 0, [Data(long)] + more) == Fill(cap, long + [NUL], 0, cap, more)
  {
    var mem := Poke(Zeros(cap), 0, long);
    assert mem == long + [NUL];
    NoEolIn(mem, 0, cap);
    assert TextStart(mem, 0) == 0 && FindNextEol(mem, 0).None?;
    hide Fill, Poke, TextStart, FindNextEol;
    FillData(cap, Zeros(cap), 0, 0, long, more);
  }

  // A full buffer is ditched.
  lemma Ditched(cap: nat, mem: seq<char>, more: seq<ReadEvent>)
    requires Memory(cap, mem)
    ensures Fill(cap, mem, 0, cap, more) == Fill(cap, mem[0 := NUL], 0, 0, more)
  {
    hide FillRoom;
  }

  // The stream is free of prompts but for that one, in the middle of its only line; what is
  // returned is no way of delivering that line.
  lemma LongLinePrompt(cap: nat, long: seq<char>)
    requires PlainLine(long) && |long| == cap >= 3 && long[0] != PROMPT[0]
    ensures var input := [Data(long), Data(PROMPT), Data("x" + CRLF)];
            && Runs(Bytes(input)) == [Run(0, long + PROMPT + "x")]
            && !Delivered(cap, Runs(Bytes(input)), Session(cap, Zeros(cap), 0, input))
  {
    var rest := [Data("x" + CRLF)];
    var input := [Data(long), Data(PROMPT)] + rest;
    assert input == [Data(long), Data(PROMPT), Data("x" + CRLF)];
    var text := long + PROMPT + "x";
    assert Bytes(input) == text + CRLF by {
      assert rest[1..] == [];
      assert Bytes(rest) == "x" + CRLF;
      assert input[1..] == [Data(PROMPT)] + rest && input[1..][1..] == rest;
    }
    OneRun(text);
    PromptAfterOverflow(cap, long, rest);
    var o := ReadLine(cap, Zeros(cap), 0, input);
    SessionStep(cap, Zeros(cap), 0, input, o);
    hide ReadLine, Session;
    assert text[|text| - 2..] == " x";
    assert [PROMPT] + Session(cap, o.mem, o.cur, o.rest) != [];
    assert !IsSuffix(PROMPT, text);
  }

  lemma OneRun(text: seq<char>)
    requires PlainLine(text)
    ensures Runs(text + CRLF) == [Run(0, text)]
  {
    var s := text + CRLF;
    var n := |text|;
    assert forall i :: 0 <= i < n ==> s[i] == text[i];
    RunsOfLine(s, 0, 0, n);
    NoRuns(s, n, n + 2);
    assert s[0..n] == text;
  }
}
