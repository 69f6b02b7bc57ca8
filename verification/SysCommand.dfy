// Collecting the output of a command: a loop of fgets calls fills the response buffer.
module SysCommand {
  import opened CString

  // How many characters one fgets takes of what is left: at most max, and none past a newline.
  function LineTake(rest: string, max: nat): (n: nat)
    ensures n <= max && n <= |rest|
    ensures n < max && n < |rest| ==> n > 0 && rest[n - 1] == '\n'
    ensures max > 0 && rest != [] ==> n > 0
  {
    if max == 0 || rest == [] then 0
    else if rest[0] == '\n' then 1
    else 1 + LineTake(rest[1..], max - 1)
  }

  // It takes a whole line, or all there is room for, or all that is left: nothing behind a newline.
  lemma {:induction false} TakesLine(rest: string, max: nat)
    ensures var n := LineTake(rest, max);
            && (forall k :: 0 <= k < n - 1 ==> rest[k] != '\n')
            && ((n > 0 && rest[n - 1] == '\n') || n == max || n == |rest|)
  {
    if max > 0 && rest != [] && rest[0] != '\n' {
      TakesLine(rest[1..], max - 1);
      var n := LineTake(rest[1..], max - 1);
      assert forall k :: 1 <= k < n ==> rest[k] == rest[1..][k - 1];
      assert n > 0 ==> rest[n] == rest[1..][n - 1];
    }
  }

  lemma TakeNext(rest: string, k: nat, max: nat)
    requires k <= |rest| && max > 0
    ensures LineTake(rest[k..], max) == if k == |rest| then 0
                                        else if rest[k] == '\n' then 1
                                        else 1 + LineTake(rest[k + 1..], max - 1)
  {
    if k < |rest| {
      assert rest[k..][1..] == rest[k + 1..];
    }
  }

  lemma TakeNone(rest: string)
    ensures LineTake(rest, 0) == 0
  {
  }

  // text laid over mem from index at.
  function Laid(mem: seq<char>, at: nat, text: string): (r: seq<char>)
    requires at + |text| <= |mem|
    ensures |r| == |mem|
  {
    mem[..at] + text + mem[at + |text|..]
  }

  lemma LaidNothing(mem: seq<char>, at: nat)
    requires at <= |mem|
    ensures Laid(mem, at, []) == mem
  {
  }

  lemma LaidMore(mem: seq<char>, at: nat, s: string, from: nat, to: nat)
    requires from <= to < |s| && at + to - from < |mem|
    ensures Laid(mem, at, s[from..to])[at + to - from := s[to]] == Laid(mem, at, s[from..to + 1])
  {
    assert s[from..to + 1] == s[from..to] + [s[to]];
  }

  lemma LaidEnd(mem: seq<char>, at: nat, text: string)
    requires at + |text| < |mem|
    ensures Laid(mem, at, text)[at + |text| := NUL] == Laid(mem, at, text + [NUL])
  {
  }

  // Text laid over the terminator of a string is appended to it.
  lemma LaidHolds(mem: seq<char>, size: nat, output: string, at: nat, k: nat)
    requires NulFree(output) && at + k <= |output| && at + k < size <= |mem|
    requires Holds(mem, 0, output[..at])
    ensures var r := Laid(mem, at, output[at..at + k] + [NUL]);
            Holds(r, 0, output[..at + k]) && Holds(r, at, output[at..at + k]) && r[size..] == mem[size..]
  {
    var tail := output[at..at + k];
    var r := Laid(mem, at, tail + [NUL]);
    assert mem[..at] == output[..at];
    assert r[..at + k] == output[..at] + tail == output[..at + k];
    assert r[at..at + k] == tail;
  }

  lemma Terminated(mem: seq<char>, text: string)
    requires Holds(mem, 0, text)
    ensures mem[|text| := NUL] == mem && Holds(mem, |text|, "")
  {
  }

  lemma EmptyHolds(mem: seq<char>)
    requires mem != [] && mem[0] == NUL
    ensures Holds(mem, 0, "")
  {
  }

  lemma LaterNul(mem: seq<char>, text: string, i: nat)
    requires Holds(mem, 0, text) && |text| <= i < |mem|
    ensures Holds(mem[i := NUL], 0, text)
  {
    assert mem[i := NUL][0..|text|] == text;
  }

  // A pipe from a command: its whole output, how much of it has been read, and the end-of-file flag.
  class Pipe {
    const output: string
    var pos: nat
    var eof: bool

    constructor (output: string)
      ensures this.output == output && pos == 0 && !eof
    {
      this.output := output;
      pos := 0;
      eof := false;
    }

    // At most max characters of a line are read; the end-of-file flag is raised by a read that
    // finds no more.
    method Fill(buf: array<char>, at: nat, max: nat)
      requires pos <= |output| && at + max <= buf.Length
      modifies this, buf
      ensures pos == old(pos) + LineTake(output[old(pos)..], max) <= |output|
      ensures buf[..] == Laid(old(buf[..]), at, output[old(pos)..pos])
      ensures eof ==> old(eof) || pos == |output|
    {
      hide Laid, LineTake;
      ghost var from, mem := pos, buf[..];
      LaidNothing(mem, at);
      assert output[from..from] == [];
      var k := 0;
      while k < max
        invariant k <= max && pos == from + k <= |output| && eof == old(eof)
        invariant LineTake(output[from..], max) == k + LineTake(output[pos..], max - k)
        invariant buf[..] == Laid(mem, at, output[from..pos])
      {
        TakeNext(output, pos, max - k);
        if pos == |output| {
          eof := true;
          return;
        }
        LaidMore(mem, at, output, from, pos);
        buf[at + k] := output[pos];
        pos := pos + 1;
        k := k + 1;
        if output[pos - 1] == '\n' {
          return;
        }
      }
      TakeNone(output[pos..]);
    }

    // fgets: up to n - 1 characters, through a newline, and a terminator.
    method Gets(buf: array<char>, at: nat, n: int) returns (got: bool)
      requires pos <= |output| && (n > 0 ==> at + n <= buf.Length)
      modifies this, buf
      ensures pos == old(pos) + (if n <= 1 then 0 else LineTake(output[old(pos)..], n - 1)) <= |output|
      ensures got <==> n == 1 || pos > old(pos)
      ensures buf[..] == if got then Laid(old(buf[..]), at, output[old(pos)..pos] + [NUL]) else old(buf[..])
      ensures eof ==> old(eof) || pos == |output|
    {
      hide Laid, LineTake;
      if n <= 0 {
        return false;
      }
      var start := pos;
      ghost var mem := buf[..];
      Fill(buf, at, n - 1);
      TakeNone(output[start..]);
      got := n == 1 || pos > start;
      if got {
        LaidEnd(mem, at, output[start..pos]);
        buf[at + (pos - start)] := NUL;
      } else {
        LaidNothing(mem, at);
        assert output[start..pos] == [];
      }
    }
  }

  // strlen(buf + at).
  method StrLen(buf: array<char>, at: nat, ghost text: string) returns (n: nat)
    requires Holds(buf[..], at, text)
    ensures n == |text|
  {
    n := 0;
    while buf[at + n] != NUL
      invariant n <= |text|
      decreases |text| - n
    {
      assert buf[..][at..at + |text|][n] == text[n];
      n := n + 1;
    }
  }

  // modem_hal_run_sys_cmd: the response is a terminated prefix of the output, cut no shorter than
  // two bytes below the buffer's size, and nothing outside the buffer is written.
  method RunSysCmd(output: string, resp: array<char>, size: nat) returns (ghost n: nat)
    requires NulFree(output) && 1 <= size <= resp.Length
    modifies resp
    ensures n < size && n <= |output| && Holds(resp[..], 0, output[..n])
    ensures n >= |output| || n >= size - 2
    ensures resp[size..] == old(resp[size..])
  {
    hide Laid, LineTake, Holds, NulFree;
    var pipe := new Pipe(output);
    var at, room := 0, size;
    resp[0] := NUL;
    EmptyHolds(resp[..]);
    assert output[..0] == [];
    while !pipe.eof
      invariant at + room == size && room >= 1
      invariant pipe.output == output && pipe.pos == at <= |output|
      invariant Holds(resp[..], 0, output[..at])
      invariant pipe.eof ==> at == |output|
      invariant resp[size..] == old(resp[size..])
      decreases room, !pipe.eof
    {
      ghost var mem := resp[..];
      Terminated(mem, output[..at]);
      resp[at] := NUL;
      assert resp[..] == mem;
      var bytes := if room >= 128 then 128 else room - 1;
      var got := pipe.Gets(resp, at, bytes);
      ghost var k := pipe.pos - at;
      LaidHolds(mem, size, output, at, k);
      assert k == 0 ==> output[at..at + k] == "";
      var readBytes := StrLen(resp, at, output[at..at + k]);
      if readBytes == 0 || !got {
        break;
      }
      room := room - readBytes;
      at := at + readBytes;
    }
    LaterNul(resp[..], output[..at], size - 1);
    resp[size - 1] := NUL;
    n := at;
  }
}
