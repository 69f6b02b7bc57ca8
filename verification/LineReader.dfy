// The reader's static buffer and cursor, updated in place by readline.
module LineReader {
  import opened CString
  import opened LineFraming
  import opened LineInput

  const MAX_AT_RESPONSE: nat := 8 * 1024

  lemma MoveDownIs(mem: seq<char>, c: nat, len: nat)
    requires c < |mem| && mem[|mem| - 1] == NUL && StrEnd(mem, c) == c + len
    ensures MoveDown(mem, c) == mem[c..c + len + 1] + mem[len + 1..]
  {
    hide StrEnd;
  }

  predicate InBuffer(i: nat) {
    i < MAX_AT_RESPONSE + 1
  }

  // The first of the two memsets when the buffer holds nothing writes as many bytes as the buffer
  // has, from the cursor on: it stays inside if and only if the cursor is at the front.
  lemma FirstClearInside(cur: nat)
    ensures (forall i: nat :: cur <= i < cur + (MAX_AT_RESPONSE + 1) ==> InBuffer(i)) <==> cur == 0
  {
    assert InBuffer(cur + MAX_AT_RESPONSE) <==> cur == 0;
  }

  class LineReader {
    const buf: array<char>
    var cur: nat
    var input: seq<ReadEvent>

    ghost predicate Valid()
      reads this, buf
    {
      buf.Length == MAX_AT_RESPONSE + 1 && Memory(MAX_AT_RESPONSE, buf[..])
    }

    // What one readline does from the present state.
    ghost function Next(): Outcome
      requires Valid() && cur <= MAX_AT_RESPONSE
      reads this, buf
    {
      ReadLine(MAX_AT_RESPONSE, buf[..], cur, input)
    }

    // What is left to read.
    ghost function Stream(): seq<char>
      requires Valid() && cur <= MAX_AT_RESPONSE
      reads this, buf
    {
      Remaining(buf[..], cur, input)
    }

    constructor (device: seq<ReadEvent>)
      ensures Valid() && fresh(buf) && cur == 0 && input == device && Stream() == Bytes(device)
    {
      buf := new char[MAX_AT_RESPONSE + 1](_ => NUL);
      cur := 0;
      input := device;
    }

    // One read system call for at most n bytes; a negative count with retry is EINTR.
    method Read(n: nat) returns (count: int, got: seq<char>, retry: bool)
      requires n > 0
      modifies this`input
      ensures retry ==> Receive(old(input), n) == Receive(input, n) && |input| < |old(input)|
      ensures !retry ==> Receive(old(input), n) == Received(got, input)
      ensures retry ==> count < 0
      ensures !retry && got != [] ==> count == |got|
      ensures !retry && got == [] ==> count <= 0
    {
      got := [];
      retry := false;
      if input == [] {
        return 0, got, false;
      }
      var e := input[0];
      input := input[1..];
      match e
      case Interrupted => return -1, got, true;
      case Failed => return -1, got, false;
      case Data(b) =>
        if |b| <= n {
          return |b|, b, false;
        }
        input := [Data(b[n..])] + input;
        return n, b[..n], false;
    }

    // Bytes the kernel copies to buf + p.
    method Store(p: nat, b: seq<char>)
      requires p + |b| <= buf.Length
      modifies buf
      ensures buf[..] == old(buf[..p]) + b + old(buf[p + |b|..])
    {
      forall i | 0 <= i < |b| {
        buf[p + i] := b[i];
      }
    }

    method SkipNewlines()
      requires Valid() && cur <= MAX_AT_RESPONSE
      modifies this`cur
      ensures cur == TextStart(buf[..], old(cur)) && cur <= MAX_AT_RESPONSE
    {
      while IsNewline(buf[cur])
        invariant cur <= MAX_AT_RESPONSE
        invariant TextStart(buf[..], cur) == TextStart(buf[..], old(cur))
        decreases MAX_AT_RESPONSE - cur
      {
        cur := cur + 1;
      }
    }

    method FindEol(c: nat) returns (r: Option<nat>)
      requires Valid() && c <= MAX_AT_RESPONSE
      ensures r == FindNextEol(buf[..], c)
    {
      if buf[c] == '>' && buf[c + 1] == ' ' && buf[c + 2] == NUL {
        return Some(c + 2);
      }
      assert !AtPrompt(buf[..], c);
      var i := c;
      while buf[i] != NUL && !IsNewline(buf[i])
        invariant i <= MAX_AT_RESPONSE
        invariant ScanEol(buf[..], i) == ScanEol(buf[..], c)
        decreases MAX_AT_RESPONSE - i
      {
        i := i + 1;
      }
      r := if buf[i] == NUL then None else Some(i);
    }

    // strlen of the string at c.
    method StrLen(c: nat) returns (n: nat)
      requires Valid() && c <= MAX_AT_RESPONSE
      ensures n == StrEnd(buf[..], c) - c
    {
      n := 0;
      while buf[c + n] != NUL
        invariant c + n <= MAX_AT_RESPONSE
        invariant StrEnd(buf[..], c + n) == StrEnd(buf[..], c)
        decreases MAX_AT_RESPONSE - n
      {
        n := n + 1;
      }
    }

    // The do-while around read.
    method ReadRetrying(n: nat) returns (got: seq<char>)
      requires n > 0
      modifies this`input
      ensures Receive(old(input), n) == Received(got, input)
    {
      var count, bytes, retry := Read(n);
      while retry
        invariant retry ==> Receive(old(input), n) == Receive(input, n)
        invariant !retry ==> Receive(old(input), n) == Received(bytes, input)
        decreases retry, |input|
      {
        count, bytes, retry := Read(n);
      }
      got := bytes;
    }

    method Clear()
      requires Valid()
      modifies this`cur, buf
      ensures buf[..] == Zeros(MAX_AT_RESPONSE) && cur == 0
    {
      forall i | 0 <= i < buf.Length {
        buf[i] := NUL;
      }
      cur := 0;
    }

    // A partial line moves to the start of the buffer.
    method MoveUp() returns (len: nat)
      requires Valid() && cur <= MAX_AT_RESPONSE
      modifies this`cur, buf
      ensures buf[..] == MoveDown(old(buf[..]), old(cur)) && cur == 0
      ensures len == StrEnd(old(buf[..]), old(cur)) - old(cur)
    {
      hide StrEnd, MoveDown;
      ghost var mem := buf[..];
      len := StrLen(cur);
      var text := buf[cur..cur + len + 1];
      MoveDownIs(mem, cur, len);
      Store(0, text);
      cur := 0;
    }

    // One pass of the reading loop, with room in the buffer.
    method Pass(pRead: nat) returns (ended: bool, eol: Option<nat>, next: nat)
      requires Valid() && cur <= pRead < MAX_AT_RESPONSE
      modifies this, buf
      ensures Valid() && cur <= MAX_AT_RESPONSE
      ensures var o := old(FillRoom(MAX_AT_RESPONSE, buf[..], cur, pRead, input));
              if ended then !o.found && buf[..] == o.mem && cur == o.cur && input == o.rest
              else match eol
                case Some(e) => cur <= e <= MAX_AT_RESPONSE && o == Outcome(true, cur, e, buf[..][e := NUL], e + 1, input)
                case None => cur <= next <= MAX_AT_RESPONSE && Size(input) < Size(old(input))
                             && o == Fill(MAX_AT_RESPONSE, buf[..], cur, next, input)
    {
      hide TextStart, ScanEol, AtPrompt, StrEnd, Size;
      ended, eol, next := false, None, pRead;
      ghost var mem := buf[..];
      var got := ReadRetrying(MAX_AT_RESPONSE - pRead);
      if got == [] {
        ended := true;
      } else {
        Store(pRead, got);
        next := pRead + |got|;
        buf[next] := NUL;
        assert buf[..] == Poke(mem, pRead, got);
        TextStartBound(buf[..], cur, next);
        SkipNewlines();
        eol := FindEol(cur);
      }
    }

    // readline: found is false where the source returns NULL; otherwise the line is the string
    // stored at start.
    method ReadNext() returns (found: bool, start: nat)
      requires Valid() && cur <= MAX_AT_RESPONSE
      modifies this, buf
      ensures Valid()
      ensures var o := old(Next());
              && found == o.found && buf[..] == o.mem && cur == o.cur && input == o.rest
              && (found ==> start == o.start)
    {
      hide FillRoom, Receive, TextStart, ScanEol, AtPrompt, StrEnd, FindNextEol, Size;
      ghost var o := Next();
      found, start := false, 0;
      var pRead := 0;
      var eol: Option<nat> := None;
      if buf[cur] == NUL {
        Clear();
      } else {
        SkipNewlines();
        eol := FindEol(cur);
        if eol.None? {
          pRead := MoveUp();
        }
      }
      while eol.None?
        invariant Valid() && cur <= MAX_AT_RESPONSE
        invariant eol.None? ==> cur <= pRead <= MAX_AT_RESPONSE && o == Fill(MAX_AT_RESPONSE, buf[..], cur, pRead, input)
        invariant eol.Some? ==> eol.value <= MAX_AT_RESPONSE
                                && o == Outcome(true, cur, eol.value, buf[..][eol.value := NUL], eol.value + 1, input)
        decreases eol.None?, Size(input)
      {
        if MAX_AT_RESPONSE - pRead == 0 {
          cur := 0;
          buf[cur] := NUL;
          pRead := 0;
        }
        assert o == FillRoom(MAX_AT_RESPONSE, buf[..], cur, pRead, input);
        var ended;
        ended, eol, pRead := Pass(pRead);
        if ended {
          return;
        }
      }
      start := cur;
      buf[eol.value] := NUL;
      cur := eol.value + 1;
      found := true;
    }

    // strdup of the line at start.
    method TextAt(start: nat) returns (text: seq<char>)
      requires Valid() && start <= MAX_AT_RESPONSE
      ensures text == buf[start..StrEnd(buf[..], start)]
    {
      var n := StrLen(start);
      text := buf[start..start + n];
    }
  }
}
