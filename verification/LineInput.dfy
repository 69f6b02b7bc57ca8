// The reader's buffer as a value: what one call of readline does to the memory, the cursor and
// the device, and what repeated calls return for a whole stream.
module LineInput {
  import opened CString
  import opened LineFraming

  // One result of the read system call.  A read that yields no bytes is the end of the stream.
  datatype ReadEvent = Data(bytes: seq<char>) | Interrupted | Failed

  // The bytes the device still delivers before it ends or fails.
  function Bytes(input: seq<ReadEvent>): seq<char> {
    if input == [] then []
    else match input[0]
      case Interrupted => Bytes(input[1..])
      case Failed => []
      case Data(b) => if b == [] then [] else b + Bytes(input[1..])
  }

  function Size(input: seq<ReadEvent>): nat {
    if input == [] then 0
    else (if input[0].Data? then 1 + |input[0].bytes| else 1) + Size(input[1..])
  }

  datatype Received = Received(got: seq<char>, rest: seq<ReadEvent>)

  // Reading at most n bytes, interrupted calls repeated.
  function Receive(input: seq<ReadEvent>, n: nat): (r: Received)
    requires n > 0
    ensures |r.got| <= n
    ensures r.got == [] ==> Bytes(input) == []
    ensures r.got != [] ==> Bytes(input) == r.got + Bytes(r.rest) && Size(r.rest) < Size(input)
  {
    if input == [] then Received([], [])
    else match input[0]
      case Interrupted => Receive(input[1..], n)
      case Failed => Received([], input[1..])
      case Data(b) =>
        if |b| <= n then Received(b, input[1..])
        else
          assert b == b[..n] + b[n..];
          Received(b[..n], [Data(b[n..])] + input[1..])
  }

  predicate Memory(cap: nat, mem: seq<char>) {
    cap > 0 && |mem| == cap + 1 && mem[cap] == NUL
  }

  function Zeros(cap: nat): (mem: seq<char>)
    ensures |mem| == cap + 1 && forall i :: 0 <= i <= cap ==> mem[i] == NUL
  {
    seq(cap + 1, _ => NUL)
  }

  // The end of the C string that starts at c.
  function StrEnd(mem: seq<char>, c: nat): (e: nat)
    requires c < |mem| && mem[|mem| - 1] == NUL
    ensures c <= e < |mem| && mem[e] == NUL
    ensures forall i :: c <= i < e ==> mem[i] != NUL
    decreases |mem| - c
  {
    if mem[c] == NUL then c else StrEnd(mem, c + 1)
  }

  // The bytes read from the device that no line has used yet.
  function Content(mem: seq<char>, cur: nat): seq<char>
    requires cur < |mem| && mem[|mem| - 1] == NUL
  {
    mem[cur..StrEnd(mem, cur)]
  }

  function ScanEol(mem: seq<char>, c: nat): (r: Option<nat>)
    requires c < |mem| && mem[|mem| - 1] == NUL
    ensures r.None? ==> TextIn(mem, c, StrEnd(mem, c))
    ensures r.Some? ==> c <= r.value < StrEnd(mem, c) && TextIn(mem, c, r.value) && IsNewline(mem[r.value])
    decreases |mem| - c
  {
    if mem[c] == NUL then None
    else if IsNewline(mem[c]) then Some(c)
    else ScanEol(mem, c + 1)
  }

  // The string at c is the SMS prompt and nothing more.
  predicate AtPrompt(mem: seq<char>, c: nat)
    requires c < |mem| && mem[|mem| - 1] == NUL
  {
    mem[c] == PROMPT[0] && mem[c + 1] == PROMPT[1] && mem[c + 2] == NUL
  }

  // findNextEOL: the index of the end of the line at c; a prompt ends at its NUL.
  function FindNextEol(mem: seq<char>, c: nat): Option<nat>
    requires c < |mem| && mem[|mem| - 1] == NUL
  {
    if AtPrompt(mem, c) then Some(c + 2) else ScanEol(mem, c)
  }

  // Bytes b stored from p on, followed by a NUL.
  function Poke(mem: seq<char>, p: nat, b: seq<char>): (r: seq<char>)
    requires p + |b| < |mem|
    ensures |r| == |mem| && r[p + |b|] == NUL && (mem[|mem| - 1] == NUL ==> r[|mem| - 1] == NUL)
  {
    mem[..p] + b + [NUL] + mem[p + |b| + 1..]
  }

  // memmove of the string at c, terminator included, to the start of the buffer.
  function MoveDown(mem: seq<char>, c: nat): (r: seq<char>)
    requires c < |mem| && mem[|mem| - 1] == NUL
    ensures |r| == |mem| && r[|mem| - 1] == NUL
  {
    var len := StrEnd(mem, c) - c;
    mem[c..c + len + 1] + mem[len + 1..]
  }

  // The result of one readline: the line, if any, lies between start and eol.
  datatype Outcome = Outcome(found: bool, start: nat, eol: nat, mem: seq<char>, cur: nat, rest: seq<ReadEvent>)

  // Skipping newlines stops at a NUL at the latest.
  lemma {:induction false} TextStartBound(mem: seq<char>, c: nat, q: nat)
    requires c <= q < |mem| && mem[q] == NUL
    ensures TextStart(mem, c) <= q
    decreases q - c
  {
    if c < q {
      TextStartBound(mem, c + 1, q);
    }
  }

  // The reading loop: p is where the next byte goes.  A full buffer is ditched.
  function Fill(cap: nat, mem: seq<char>, cur: nat, p: nat, input: seq<ReadEvent>): (o: Outcome)
    requires Memory(cap, mem) && cur <= p <= cap
    ensures Memory(cap, o.mem)
    ensures o.found ==> o.start <= o.eol <= cap && o.cur == o.eol + 1 && Size(o.rest) < Size(input)
    decreases Size(input), 1
  {
    if p == cap then FillRoom(cap, mem[0 := NUL], 0, 0, input) else FillRoom(cap, mem, cur, p, input)
  }

  // One pass of the loop, with room for at least one byte.
  function FillRoom(cap: nat, mem: seq<char>, cur: nat, p: nat, input: seq<ReadEvent>): (o: Outcome)
    requires Memory(cap, mem) && cur <= p < cap
    ensures Memory(cap, o.mem)
    ensures o.found ==> o.start <= o.eol <= cap && o.cur == o.eol + 1 && Size(o.rest) < Size(input)
    decreases Size(input), 0
  {
    var r := Receive(input, cap - p);
    if r.got == [] then Outcome(false, 0, 0, mem, cur, r.rest)
    else
      var mem1 := Poke(mem, p, r.got);
      var c := TextStart(mem1, cur);
      TextStartBound(mem1, cur, p + |r.got|);
      match FindNextEol(mem1, c)
      case Some(e) => Outcome(true, c, e, mem1[e := NUL], e + 1, r.rest)
      case None => Fill(cap, mem1, c, p + |r.got|, r.rest)
  }

  function ReadLine(cap: nat, mem: seq<char>, cur: nat, input: seq<ReadEvent>): (o: Outcome)
    requires Memory(cap, mem) && cur <= cap
    ensures Memory(cap, o.mem)
    ensures o.found ==> o.start <= o.eol <= cap && o.cur == o.eol + 1
    ensures o.found ==> Size(o.rest) < Size(input) || (o.rest == input && o.cur > cur)
  {
    if mem[cur] == NUL then Fill(cap, Zeros(cap), 0, 0, input)
    else
      var c := TextStart(mem, cur);
      TextStartBound(mem, cur, cap);
      match FindNextEol(mem, c)
      case Some(e) => Outcome(true, c, e, mem[e := NUL], e + 1, input)
      case None => Fill(cap, MoveDown(mem, c), 0, StrEnd(mem, c) - c, input)
  }

  // The text of the line a readline returned.
  function LineOf(o: Outcome): seq<char>
    requires o.found && o.start <= o.eol <= |o.mem|
  {
    o.mem[o.start..o.eol]
  }

  // The lines that repeated calls return until one returns NULL.  After a prompt that fills the
  // buffer to its last byte the cursor is outside it, and nothing more is said.
  function Session(cap: nat, mem: seq<char>, cur: nat, input: seq<ReadEvent>): seq<seq<char>>
    requires Memory(cap, mem) && cur <= cap
    decreases Size(input), cap - cur
  {
    var o := ReadLine(cap, mem, cur, input);
    if !o.found then []
    else if o.cur > cap then [LineOf(o)]
    else [LineOf(o)] + Session(cap, o.mem, o.cur, o.rest)
  }

  // --- one readline, seen on the stream ---

  // outs is a possible reading of stream s.
  predicate Reading(cap: nat, s: seq<char>, outs: seq<seq<char>>) {
    Delivered(cap, Runs(s), outs)
  }

  // What is left to read: the unused bytes of the buffer, then those still in the device.
  function Remaining(mem: seq<char>, cur: nat, input: seq<ReadEvent>): seq<char>
    requires cur < |mem| && mem[|mem| - 1] == NUL
  {
    Content(mem, cur) + Bytes(input)
  }

  // Outcome o reads stream s: its line, followed by any reading of what it leaves, is a reading
  // of s, and what it leaves meets the same hypotheses.
  ghost predicate Reads(cap: nat, s: seq<char>, o: Outcome)
    requires Memory(cap, o.mem) && (o.found ==> o.start <= o.eol <= cap && o.cur == o.eol + 1)
  {
    if o.found then o.cur <= cap && Leads(cap, s, LineOf(o), Remaining(o.mem, o.cur, o.rest))
    else Reading(cap, s, [])
  }

  ghost predicate Leads(cap: nat, s: seq<char>, line: seq<char>, s': seq<char>) {
    && NulFree(s') && PromptFree(cap, s')
    && forall outs :: Reading(cap, s', outs) ==> Reading(cap, s, [line] + outs)
  }

  // Every reading of t is one of s.
  ghost predicate Covers(cap: nat, t: seq<char>, s: seq<char>) {
    forall outs :: Reading(cap, t, outs) ==> Reading(cap, s, outs)
  }

  lemma ReadsThrough(cap: nat, t: seq<char>, s: seq<char>, o: Outcome)
    requires Memory(cap, o.mem) && (o.found ==> o.start <= o.eol <= cap && o.cur == o.eol + 1)
    requires Reads(cap, t, o) && Covers(cap, t, s)
    ensures Reads(cap, s, o)
  {
    if o.found {
      var s' := Remaining(o.mem, o.cur, o.rest);
      forall outs | Reading(cap, s', outs)
        ensures Reading(cap, s, [LineOf(o)] + outs)
      {
        assert Reading(cap, t, [LineOf(o)] + outs);
      }
    }
  }

  // Leading newlines may be dropped before reading.
  lemma SkipSound(cap: nat, s: seq<char>, i: nat, d: nat, outs: seq<seq<char>>)
    requires i <= d <= |s| && NewlinesIn(s, i, d)
    requires Delivered(cap, RunsFrom(s, d), outs)
    ensures Delivered(cap, RunsFrom(s, i), outs)
  {
    var rs := RunsFrom(s, i);
    DropNewlines(s, i, d);
    if rs != [] {
      LineNonEmpty(s, i);
      assert rs == [rs[0]] + rs[1..];
      WidenFirst(cap, rs[0], Run(rs[0].gap - (d - i), rs[0].text), rs[1..], outs);
    }
  }

  lemma LineNonEmpty(s: seq<char>, i: nat)
    requires i <= |s| && RunsFrom(s, i) != []
    ensures RunsFrom(s, i)[0].text != []
  {
    TextStartIs(s, i, TextStart(s, i));
  }

  lemma SkipCovers(cap: nat, s: seq<char>, d: nat)
    requires d <= |s| && NewlinesIn(s, 0, d)
    ensures Covers(cap, s[d..], s)
  {
    RunsOfTail(s[d..], s, d, 0);
    forall outs | Reading(cap, s[d..], outs)
      ensures Reading(cap, s, outs)
    {
      SkipSound(cap, s, 0, d, outs);
    }
  }

  // A full buffer without a line is thrown away: only newlines and a line that is not short go.
  lemma OverflowSound(cap: nat, s: seq<char>, a: nat, outs: seq<seq<char>>)
    requires a <= cap <= |s| && NewlinesIn(s, 0, a) && TextIn(s, a, cap)
    requires Delivered(cap, RunsFrom(s, cap), outs)
    ensures Delivered(cap, Runs(s), outs)
  {
    var rs := Runs(s);
    if a == cap {
      SkipSound(cap, s, 0, cap, outs);
    } else {
      DropIntoLine(s, a, cap);
      if rs != [] && cap - a < |rs[0].text| {
        assert rs == [rs[0]] + rs[1..];
        WidenFirst(cap, rs[0], Run(0, rs[0].text[cap - a..]), rs[1..], outs);
      }
    }
  }

  lemma OverflowCovers(cap: nat, s: seq<char>, a: nat)
    requires a <= cap <= |s| && NewlinesIn(s, 0, a) && TextIn(s, a, cap)
    ensures Covers(cap, s[cap..], s)
  {
    RunsOfTail(s[cap..], s, cap, 0);
    forall outs | Reading(cap, s[cap..], outs)
      ensures Reading(cap, s, outs)
    {
      OverflowSound(cap, s, a, outs);
    }
  }

  // A complete line at the front of the stream.
  lemma TakeLine(cap: nat, s: seq<char>, a: nat, b: nat)
    requires a < b < |s|
    requires NewlinesIn(s, 0, a) && TextIn(s, a, b) && IsNewline(s[b])
    requires NulFree(s) && PromptFree(cap, s)
    ensures Leads(cap, s, s[a..b], s[b + 1..])
  {
    PromptFreeAfterLine(cap, s, a, b);
    PromptFreeTail(cap, s[b + 1..], s, b + 1, 0);
    hide PromptFreeFrom;
    forall outs | Reading(cap, s[b + 1..], outs)
      ensures Reading(cap, s, [s[a..b]] + outs)
    {
      TakeReading(cap, s, a, b, outs);
    }
  }

  lemma TakeReading(cap: nat, s: seq<char>, a: nat, b: nat, outs: seq<seq<char>>)
    requires a < b < |s|
    requires NewlinesIn(s, 0, a) && TextIn(s, a, b) && IsNewline(s[b])
    requires Reading(cap, s[b + 1..], outs)
    ensures Reading(cap, s, [s[a..b]] + outs)
  {
    hide TextStart, TextEnd, RunsFrom;
    RunsOfLine(s, 0, a, b);
    RunsOfTail(s[b + 1..], s, b + 1, 0);
    SkipSound(cap, s, b, b + 1, outs);
    assert ([s[a..b]] + outs)[1..] == outs;
  }

  // A prompt in the buffer is a prompt in the stream.
  lemma PromptSeen(mem: seq<char>, c: nat, q: nat, s: seq<char>, i: nat)
    requires c <= q < |mem| && mem[q] == NUL && mem[|mem| - 1] == NUL
    requires i + (q - c) <= |s| && forall k :: c <= k < q ==> mem[k] == s[i + (k - c)]
    ensures AtPrompt(mem, c) ==> PromptAt(s, i)
  {
    if AtPrompt(mem, c) {
      assert c != q && c + 1 != q;
    }
  }

  lemma StrEndIs(mem: seq<char>, c: nat, q: nat)
    requires c <= q < |mem| && mem[q] == NUL && mem[|mem| - 1] == NUL
    requires forall i :: c <= i < q ==> mem[i] != NUL
    ensures StrEnd(mem, c) == q
  {
  }

  // A line that ends at e, found in a buffer whose unused bytes lie between base and q.
  lemma LineFound(cap: nat, s: seq<char>, mem: seq<char>, base: nat, c: nat, e: nat, q: nat, rest: seq<ReadEvent>)
    requires Memory(cap, mem) && base <= c < e < q <= cap && mem[q] == NUL
    requires NewlinesIn(mem, base, c) && TextIn(mem, c, e) && IsNewline(mem[e])
    requires s == mem[base..q] + Bytes(rest) && NulFree(s) && PromptFree(cap, s)
    ensures Reads(cap, s, Outcome(true, c, e, mem[e := NUL], e + 1, rest))
  {
    hide PromptFree, Bytes, StrEnd, Leads;
    assert forall i :: base <= i < q ==> mem[i] == s[i - base];
    TakeLine(cap, s, c - base, e - base);
    hide TextIn, NewlinesIn, NulFree;
    CutLine(s, mem, base, c, e, q, rest);
  }

  // The bytes a found line takes from the buffer and those it leaves.
  lemma CutLine(s: seq<char>, mem: seq<char>, base: nat, c: nat, e: nat, q: nat, rest: seq<ReadEvent>)
    requires base <= c < e < q < |mem| && mem[q] == NUL && mem[|mem| - 1] == NUL
    requires s == mem[base..q] + Bytes(rest) && NulFree(s)
    ensures mem[e := NUL][c..e] == s[c - base..e - base]
    ensures Remaining(mem[e := NUL], e + 1, rest) == s[e - base + 1..]
  {
    var mem1 := mem[e := NUL];
    assert forall i :: base <= i < q ==> mem[i] == s[i - base];
    StrEndIs(mem1, e + 1, q);
  }

  // Where a search for a line ends, among the unused bytes base..q; those before cur are newlines.
  lemma NoPromptHere(cap: nat, s: seq<char>, mem: seq<char>, base: nat, cur: nat, q: nat)
    requires Memory(cap, mem) && base <= cur <= q <= cap && mem[q] == NUL
    requires q - base <= |s| && (forall k :: base <= k < q ==> mem[k] == s[k - base])
    requires NulFree(s) && PromptFree(cap, s) && NewlinesIn(mem, base, cur)
    ensures var c := TextStart(mem, cur);
            c <= q && NewlinesIn(mem, base, c) && StrEnd(mem, c) == q && !AtPrompt(mem, c)
  {
    hide PromptFree;
    var c := TextStart(mem, cur);
    TextStartBound(mem, cur, q);
    TextStartIs(mem, cur, c);
    StrEndIs(mem, c, q);
    if c < q {
      assert forall i :: 0 <= i <= c - base ==> s[i] == mem[base + i];
      NoPromptFirst(cap, s, c - base);
      PromptSeen(mem, c, q, s, c - base);
    }
  }

  // Looking for a line in stream s, whose first bytes are the unused ones, base..q, of the buffer.
  lemma LookForLine(cap: nat, s: seq<char>, mem: seq<char>, base: nat, cur: nat, q: nat, rest: seq<ReadEvent>)
    requires Memory(cap, mem) && base <= cur <= q <= cap && mem[q] == NUL
    requires s == mem[base..q] + Bytes(rest) && NulFree(s) && PromptFree(cap, s)
    requires NewlinesIn(mem, base, cur)
    ensures var c := TextStart(mem, cur);
            && c <= q && NewlinesIn(mem, base, c) && StrEnd(mem, c) == q
            && match FindNextEol(mem, c)
               case Some(e) => e <= cap && Reads(cap, s, Outcome(true, c, e, mem[e := NUL], e + 1, rest))
               case None => TextIn(mem, c, q)
  {
    hide StrEnd, PromptFree, NulFree, Bytes, Reads;
    NoPromptHere(cap, s, mem, base, cur, q);
    var c := TextStart(mem, cur);
    var r := ScanEol(mem, c);
    if r.Some? {
      assert c < r.value by {
        TextStartIs(mem, cur, c);
      }
      LineFound(cap, s, mem, base, c, r.value, q, rest);
    }
  }

  lemma {:induction false} FillReads(cap: nat, s: seq<char>, mem: seq<char>, cur: nat, p: nat, input: seq<ReadEvent>)
    requires Memory(cap, mem) && cur <= p <= cap && mem[p] == NUL
    requires NewlinesIn(mem, 0, cur) && TextIn(mem, cur, p)
    requires s == mem[..p] + Bytes(input) && NulFree(s) && PromptFree(cap, s)
    ensures Reads(cap, s, Fill(cap, mem, cur, p, input))
    decreases Size(input), 1
  {
    if p < cap {
      FillRoomReads(cap, s, mem, cur, p, input);
    } else {
      PromptFreeAfterOverflow(cap, s, cur);
      PromptFreeTail(cap, s[cap..], s, cap, 0);
      FillRoomReads(cap, s[cap..], mem[0 := NUL], 0, 0, input);
      OverflowCovers(cap, s, cur);
      ReadsThrough(cap, s[cap..], s, FillRoom(cap, mem[0 := NUL], 0, 0, input));
    }
  }

  lemma {:induction false} FillRoomReads(cap: nat, s: seq<char>, mem: seq<char>, cur: nat, p: nat, input: seq<ReadEvent>)
    requires Memory(cap, mem) && cur <= p < cap && mem[p] == NUL
    requires NewlinesIn(mem, 0, cur) && TextIn(mem, cur, p)
    requires s == mem[..p] + Bytes(input) && NulFree(s) && PromptFree(cap, s)
    ensures Reads(cap, s, FillRoom(cap, mem, cur, p, input))
    decreases Size(input), 0
  {
    hide Receive, Bytes, Poke, TextStart, FindNextEol, Reads, PromptFree, NulFree, Fill, Reading;
    var r := Receive(input, cap - p);
    if r.got == [] {
      assert |s| == p && forall i :: 0 <= i < p ==> s[i] == mem[i];
      EndOfStream(cap, s, cur);
      assert FillRoom(cap, mem, cur, p, input) == Outcome(false, 0, 0, mem, cur, r.rest);
      NothingRead(cap, s, FillRoom(cap, mem, cur, p, input));
    } else {
      var mem1 := Poke(mem, p, r.got);
      PokeKeeps(mem, p, r.got);
      assert s == mem1[0..p + |r.got|] + Bytes(r.rest);
      ArrivalReads(cap, s, mem1, cur, p + |r.got|, r.rest);
    }
  }

  lemma PokeKeeps(mem: seq<char>, p: nat, b: seq<char>)
    requires p + |b| < |mem|
    ensures Poke(mem, p, b)[0..p + |b|] == mem[..p] + b
    ensures forall i :: 0 <= i < p ==> Poke(mem, p, b)[i] == mem[i]
  {
  }

  lemma NothingRead(cap: nat, s: seq<char>, o: Outcome)
    requires Memory(cap, o.mem) && !o.found && Reading(cap, s, [])
    ensures Reads(cap, s, o)
  {
  }

  lemma EndOfStream(cap: nat, s: seq<char>, a: nat)
    requires a <= |s| && NewlinesIn(s, 0, a) && TextIn(s, a, |s|)
    ensures Reading(cap, s, [])
  {
    NoRuns(s, 0, a);
  }

  // What the loop does once new bytes are in the buffer.
  lemma {:induction false} ArrivalReads(cap: nat, s: seq<char>, mem: seq<char>, cur: nat, q: nat, rest: seq<ReadEvent>)
    requires Memory(cap, mem) && cur <= q <= cap && mem[q] == NUL
    requires s == mem[0..q] + Bytes(rest) && NulFree(s) && PromptFree(cap, s)
    requires NewlinesIn(mem, 0, cur)
    ensures var c := TextStart(mem, cur);
            && c <= q
            && match FindNextEol(mem, c)
               case Some(e) => e <= cap && Reads(cap, s, Outcome(true, c, e, mem[e := NUL], e + 1, rest))
               case None => Reads(cap, s, Fill(cap, mem, c, q, rest))
    decreases Size(rest), 2
  {
    LookForLine(cap, s, mem, 0, cur, q, rest);
    var c := TextStart(mem, cur);
    if FindNextEol(mem, c).None? {
      assert mem[0..q] == mem[..q];
      FillReads(cap, s, mem, c, q, rest);
    }
  }

  // Dropping the newlines before a partial line changes no reading.
  lemma DropCovers(cap: nat, s: seq<char>, mem: seq<char>, cur: nat, c: nat, q: nat, input: seq<ReadEvent>)
    requires cur <= c <= q < |mem| && NewlinesIn(mem, cur, c)
    requires s == mem[cur..q] + Bytes(input) && NulFree(s) && PromptFree(cap, s)
    ensures var t := s[c - cur..];
            t == mem[c..q] + Bytes(input) && NulFree(t) && PromptFree(cap, t) && Covers(cap, t, s)
  {
    var d := c - cur;
    assert NewlinesIn(s, 0, d) by {
      assert forall i :: 0 <= i < d ==> s[i] == mem[cur + i];
    }
    DropPreserves(cap, s, d);
    SkipCovers(cap, s, d);
  }

  lemma DropPreserves(cap: nat, s: seq<char>, d: nat)
    requires d <= |s| && NewlinesIn(s, 0, d) && NulFree(s) && PromptFree(cap, s)
    ensures NulFree(s[d..]) && PromptFree(cap, s[d..])
  {
    PromptFreeAfterNewlines(cap, s, 0, d);
    PromptFreeTail(cap, s[d..], s, d, 0);
  }

  // A partial line is moved to the front of the buffer before more is read.
  lemma MovedReads(cap: nat, s: seq<char>, mem: seq<char>, c: nat, q: nat, input: seq<ReadEvent>)
    requires Memory(cap, mem) && c <= q <= cap && StrEnd(mem, c) == q && TextIn(mem, c, q)
    requires s == mem[c..q] + Bytes(input) && NulFree(s) && PromptFree(cap, s)
    ensures Reads(cap, s, Fill(cap, MoveDown(mem, c), 0, q - c, input))
  {
    hide MoveDown, StrEnd, PromptFree, NulFree, Bytes, Fill, Reads;
    MovedText(mem, c, q);
    FillReads(cap, s, MoveDown(mem, c), 0, q - c, input);
  }

  lemma MovedText(mem: seq<char>, c: nat, q: nat)
    requires c <= q < |mem| && mem[|mem| - 1] == NUL && StrEnd(mem, c) == q && TextIn(mem, c, q)
    ensures var mem1 := MoveDown(mem, c);
            mem1[..q - c] == mem[c..q] && mem1[q - c] == NUL && TextIn(mem1, 0, q - c)
  {
    hide StrEnd;
    var mem1 := MoveDown(mem, c);
    assert mem1[..q - c] == mem[c..q];
    assert forall i :: 0 <= i < q - c ==> mem1[i] == mem1[..q - c][i] == mem[c + i];
  }

  lemma ReadLineReads(cap: nat, mem: seq<char>, cur: nat, input: seq<ReadEvent>)
    requires Memory(cap, mem) && cur <= cap
    requires NulFree(Remaining(mem, cur, input)) && PromptFree(cap, Remaining(mem, cur, input))
    ensures Reads(cap, Remaining(mem, cur, input), ReadLine(cap, mem, cur, input))
  {
    var s := Remaining(mem, cur, input);
    var q := StrEnd(mem, cur);
    if mem[cur] == NUL {
      FillReads(cap, s, Zeros(cap), 0, 0, input);
    } else {
      LookForLine(cap, s, mem, cur, cur, q, input);
      var c := TextStart(mem, cur);
      if FindNextEol(mem, c).None? {
        DropCovers(cap, s, mem, cur, c, q, input);
        MovedReads(cap, s[c - cur..], mem, c, q, input);
        ReadsThrough(cap, s[c - cur..], s, ReadLine(cap, mem, cur, input));
      }
    }
  }

  // --- whole streams ---

  // Resynchronisation: a prompt-free stream is delivered line by line.  Only a line that, with
  // the newlines before it, does not fit the buffer is lost or cut; every other arrives intact.
  lemma {:induction false} SessionDelivers(cap: nat, mem: seq<char>, cur: nat, input: seq<ReadEvent>)
    requires Memory(cap, mem) && cur <= cap
    requires NulFree(Remaining(mem, cur, input)) && PromptFree(cap, Remaining(mem, cur, input))
    ensures Delivered(cap, Runs(Remaining(mem, cur, input)), Session(cap, mem, cur, input))
    decreases Size(input), cap - cur
  {
    ReadLineReads(cap, mem, cur, input);
    var o := ReadLine(cap, mem, cur, input);
    if o.found {
      SessionDelivers(cap, o.mem, o.cur, o.rest);
    }
  }

  // Framing: when all lines are short the reader returns exactly the lines of the stream.
  lemma SessionIsLines(cap: nat, mem: seq<char>, cur: nat, input: seq<ReadEvent>)
    requires Memory(cap, mem) && cur <= cap
    requires var s := Remaining(mem, cur, input);
             NulFree(s) && PromptFree(cap, s) && AllShort(cap, Runs(s))
    ensures Session(cap, mem, cur, input) == Lines(Remaining(mem, cur, input))
  {
    SessionDelivers(cap, mem, cur, input);
    DeliveredExactly(cap, Runs(Remaining(mem, cur, input)), Session(cap, mem, cur, input));
  }

  // Two ways of cutting the same bytes into reads give the same lines.
  lemma ChunkingIrrelevant(cap: nat, input: seq<ReadEvent>, input': seq<ReadEvent>)
    requires cap > 0 && Bytes(input) == Bytes(input')
    requires NulFree(Bytes(input)) && PromptFree(cap, Bytes(input)) && AllShort(cap, Runs(Bytes(input)))
    ensures Session(cap, Zeros(cap), 0, input) == Session(cap, Zeros(cap), 0, input') == Lines(Bytes(input))
  {
    assert Remaining(Zeros(cap), 0, input) == Bytes(input);
    assert Remaining(Zeros(cap), 0, input') == Bytes(input');
    SessionIsLines(cap, Zeros(cap), 0, input);
    SessionIsLines(cap, Zeros(cap), 0, input');
  }

  // --- the line as a C string ---

  lemma EolEndsString(mem: seq<char>, c: nat)
    requires c < |mem| && mem[|mem| - 1] == NUL && FindNextEol(mem, c).Some?
    ensures var e := FindNextEol(mem, c).value;
            c <= e < |mem| && NulFree(mem[e := NUL][c..e]) && StrEnd(mem[e := NUL], c) == e
  {
    var e := FindNextEol(mem, c).value;
    assert forall i :: c <= i < e ==> mem[i] != NUL by {
      if !AtPrompt(mem, c) {
        assert e < StrEnd(mem, c);
      }
    }
    StrEndIs(mem[e := NUL], c, e);
  }

  lemma {:induction false} FillText(cap: nat, mem: seq<char>, cur: nat, p: nat, input: seq<ReadEvent>)
    requires Memory(cap, mem) && cur <= p <= cap
    ensures var o := Fill(cap, mem, cur, p, input);
            o.found ==> NulFree(LineOf(o)) && StrEnd(o.mem, o.start) == o.eol
    decreases Size(input), 1
  {
    if p == cap {
      FillRoomText(cap, mem[0 := NUL], 0, 0, input);
    } else {
      FillRoomText(cap, mem, cur, p, input);
    }
  }

  lemma {:induction false} FillRoomText(cap: nat, mem: seq<char>, cur: nat, p: nat, input: seq<ReadEvent>)
    requires Memory(cap, mem) && cur <= p < cap
    ensures var o := FillRoom(cap, mem, cur, p, input);
            o.found ==> NulFree(LineOf(o)) && StrEnd(o.mem, o.start) == o.eol
    decreases Size(input), 0
  {
    hide TextStart, StrEnd, FindNextEol, Size, Receive, Poke, Fill, NulFree;
    var r := Receive(input, cap - p);
    if r.got != [] {
      var mem1 := Poke(mem, p, r.got);
      TextStartBound(mem1, cur, p + |r.got|);
      var c := TextStart(mem1, cur);
      if FindNextEol(mem1, c).Some? {
        EolEndsString(mem1, c);
      } else {
        FillText(cap, mem1, c, p + |r.got|, r.rest);
      }
    }
  }

  // The line that readline returns is the C string at its start.
  lemma ReadLineText(cap: nat, mem: seq<char>, cur: nat, input: seq<ReadEvent>)
    requires Memory(cap, mem) && cur <= cap
    ensures var o := ReadLine(cap, mem, cur, input);
            o.found ==> NulFree(LineOf(o)) && StrEnd(o.mem, o.start) == o.eol
  {
    hide TextStart, FindNextEol, Fill, MoveDown, StrEnd, NulFree;
    if mem[cur] == NUL {
      FillText(cap, Zeros(cap), 0, 0, input);
    } else {
      TextStartBound(mem, cur, cap);
      var c := TextStart(mem, cur);
      if FindNextEol(mem, c).Some? {
        EolEndsString(mem, c);
      } else {
        FillText(cap, MoveDown(mem, c), 0, StrEnd(mem, c) - c, input);
      }
    }
  }

  // --- the cursor ---

  // A line that takes the cursor out of the buffer is a prompt that ends on the buffer's last byte.
  predicate LeavesByPrompt(cap: nat, o: Outcome) {
    o.found && o.cur > cap ==> o.start <= o.eol == cap && cap <= |o.mem| && LineOf(o) == PROMPT
  }

  lemma EolAtEnd(cap: nat, mem: seq<char>, c: nat, rest: seq<ReadEvent>)
    requires Memory(cap, mem) && c <= cap && FindNextEol(mem, c).Some?
    ensures var e := FindNextEol(mem, c).value; LeavesByPrompt(cap, Outcome(true, c, e, mem[e := NUL], e + 1, rest))
  {
    var e := FindNextEol(mem, c).value;
    if AtPrompt(mem, c) {
      assert mem[e := NUL][c..e] == PROMPT;
    }
  }

  lemma {:induction false} FillLeaves(cap: nat, mem: seq<char>, cur: nat, p: nat, input: seq<ReadEvent>)
    requires Memory(cap, mem) && cur <= p <= cap
    ensures LeavesByPrompt(cap, Fill(cap, mem, cur, p, input))
    decreases Size(input), 1
  {
    hide LeavesByPrompt;
    if p == cap {
      FillRoomLeaves(cap, mem[0 := NUL], 0, 0, input);
    } else {
      FillRoomLeaves(cap, mem, cur, p, input);
    }
  }

  lemma {:induction false} FillRoomLeaves(cap: nat, mem: seq<char>, cur: nat, p: nat, input: seq<ReadEvent>)
    requires Memory(cap, mem) && cur <= p < cap
    ensures LeavesByPrompt(cap, FillRoom(cap, mem, cur, p, input))
    decreases Size(input), 0
  {
    hide TextStart, FindNextEol, Size, Receive, Poke, Fill;
    var r := Receive(input, cap - p);
    if r.got != [] {
      var mem1 := Poke(mem, p, r.got);
      TextStartBound(mem1, cur, p + |r.got|);
      var c := TextStart(mem1, cur);
      if FindNextEol(mem1, c).Some? {
        EolAtEnd(cap, mem1, c, r.rest);
      } else {
        FillLeaves(cap, mem1, c, p + |r.got|, r.rest);
      }
    }
  }

  // Whatever the buffer and the reads, only such a prompt takes the cursor out.
  lemma OnlyPromptLeaves(cap: nat, mem: seq<char>, cur: nat, input: seq<ReadEvent>)
    requires Memory(cap, mem) && cur <= cap
    ensures LeavesByPrompt(cap, ReadLine(cap, mem, cur, input))
  {
    hide TextStart, FindNextEol, Fill, MoveDown, StrEnd, LeavesByPrompt;
    if mem[cur] == NUL {
      FillLeaves(cap, Zeros(cap), 0, 0, input);
    } else {
      TextStartBound(mem, cur, cap);
      var c := TextStart(mem, cur);
      if FindNextEol(mem, c).Some? {
        EolAtEnd(cap, mem, c, input);
      } else {
        FillLeaves(cap, MoveDown(mem, c), 0, StrEnd(mem, c) - c, input);
      }
    }
  }
}
