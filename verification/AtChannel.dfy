// The command channel's shared state, updated in place by the reader and the command thread.
// Every method is one critical section or, for the sending methods, a command thread whose wait
// is fed a script of what the other threads do meanwhile.  Abs() is the state of AtProtocol.
module AtChannel {
  import opened CString
  import opened LineFraming
  import opened AtProtocol

  const CTRL_Z: char := '\U{001A}'
  const HANDSHAKE_RETRY_COUNT: nat := 8

  // One result of the write system call.
  datatype WriteEvent = Took(n: nat) | Interrupted | Failed

  // The line starts with an entry of the table.
  method StartsWithEntry(line: string, table: seq<string>) returns (r: bool)
    requires NulFree(line) && forall k :: 0 <= k < |table| ==> NulFree(table[k])
    ensures r == StartsWithAny(line, table)
  {
    for i := 0 to |table|
      invariant forall k :: 0 <= k < i ==> !(table[k] <= line)
    {
      var hit := StrStartsWith(line, table[i]);
      if hit {
        return true;
      }
    }
    r := false;
  }

  // What becomes of a string of n bytes and its terminator: whether all of it is taken, how many
  // bytes of the string are, and the answers left.
  datatype Sending = Sending(ok: bool, taken: nat, rest: seq<WriteEvent>)

  // The string is written until all of it is taken, then the terminator until it is; a write that
  // is interrupted or takes nothing is repeated, and one that fails ends it all.
  function Send(script: seq<WriteEvent>, n: nat): (r: Sending)
    ensures r.taken <= n && (r.ok ==> r.taken == n) && |r.rest| <= |script|
    decreases |script|
  {
    if script == [] then Sending(false, 0, [])
    else match script[0]
      case Failed => Sending(false, 0, script[1..])
      case Interrupted => Send(script[1..], n)
      case Took(m) =>
        if n > 0 then Ahead(if m < n then m else n, Send(script[1..], if m < n then n - m else 0))
        else if m > 0 then Sending(true, 0, script[1..])
        else Send(script[1..], 0)
  }

  function Ahead(k: nat, r: Sending): Sending {
    r.(taken := k + r.taken)
  }

  lemma AheadOfEnd(k: nat, r: Sending)
    ensures Ahead(k, r).ok == r.ok && Ahead(k, r).rest == r.rest && Ahead(k, r).taken == k + r.taken
  {
  }

  // The bytes that a port answering script takes.
  function Wire(script: seq<WriteEvent>, text: string, end: char): string {
    var r := Send(script, |text|);
    text[..r.taken] + if r.ok then [end] else []
  }

  // A port as a value: what it accepted so far, and how it will answer writes.
  datatype Wires = Wires(sent: seq<char>, script: seq<WriteEvent>)

  function Transmitted(w: Wires, text: string, end: char): Wires {
    Wires(w.sent + Wire(w.script, text, end), Send(w.script, |text|).rest)
  }

  // Sending fails only when the port has failed or gives no more answers: short and interrupted
  // writes alone never make it fail.
  lemma {:induction false} SendFailsOnly(script: seq<WriteEvent>, n: nat)
    ensures var r := Send(script, n);
            var used := |script| - |r.rest|;
            && r.rest == script[used..]
            && (!r.ok ==> used == |script| || (used > 0 && script[used - 1] == Failed))
            && (r.ok ==> used > 0 && forall k :: 0 <= k < used ==> script[k] != Failed)
    decreases |script|
  {
    if script != [] && script[0] != Failed {
      var n' := if script[0].Took? && n > 0 then (if script[0].n < n then n - script[0].n else 0) else n;
      if script[0].Interrupted? || n > 0 || script[0].n == 0 {
        SendFailsOnly(script[1..], n');
        assert forall k :: 1 <= k < |script| ==> script[k] == script[1..][k - 1];
      }
    }
  }

  // The answers that take something.
  function Takes(script: seq<WriteEvent>): nat {
    if script == [] then 0
    else (if script[0].Took? && script[0].n > 0 then 1 else 0) + Takes(script[1..])
  }

  // A port that does not fail and takes something often enough takes everything.
  lemma {:induction false} SendSucceeds(script: seq<WriteEvent>, n: nat)
    requires Failed !in script && Takes(script) > n
    ensures Send(script, n).ok
    decreases |script|
  {
    var m := if script[0].Took? then script[0].n else 0;
    if !(n == 0 && m > 0) {
      SendSucceeds(script[1..], if m < n then n - m else 0);
    }
  }

  // A file descriptor: what it accepted so far, and how it will answer writes.
  class Port {
    var sent: seq<char>
    var script: seq<WriteEvent>

    ghost function State(): Wires
      reads this
    {
      Wires(sent, script)
    }

    constructor (answers: seq<WriteEvent>)
      ensures sent == [] && script == answers
    {
      sent := [];
      script := answers;
    }

    // write: at most |b| bytes are taken; a script that has run out fails.
    method Write(b: seq<char>) returns (written: int, eintr: bool)
      modifies this
      ensures if old(script) == [] then written == -1 && !eintr && State() == old(State())
              else script == old(script)[1..] &&
                   match old(script)[0]
                   case Interrupted => written == -1 && eintr && sent == old(sent)
                   case Failed => written == -1 && !eintr && sent == old(sent)
                   case Took(n) => written == (if n < |b| then n else |b|) && !eintr && sent == old(sent) + b[..written]
    {
      if script == [] {
        return -1, false;
      }
      var e := script[0];
      script := script[1..];
      match e
      case Interrupted => return -1, true;
      case Failed => return -1, false;
      case Took(n) =>
        var k := if n < |b| then n else |b|;
        sent := sent + b[..k];
        return k, false;
    }

    // The inner loop of writeline and writeCtrlZ: one write, repeated while it is interrupted.
    method WriteRetrying(b: seq<char>) returns (written: int)
      requires b != []
      modifies this
      ensures |script| < |old(script)| || old(script) == []
      ensures written < 0 ==> sent == old(sent) && Send(old(script), |b|) == Sending(false, 0, script)
      ensures 0 <= written ==> written <= |b| && sent == old(sent) + b[..written] && |script| < |old(script)|
      ensures 0 <= written ==> Send(old(script), |b|) == Ahead(written, Send(script, |b| - written))
    {
      var eintr;
      written, eintr := Write(b);
      while written < 0 && eintr
        invariant |script| < |old(script)| || old(script) == []
        invariant written < 0 && eintr ==> sent == old(sent) && Send(old(script), |b|) == Send(script, |b|)
        invariant written < 0 && !eintr ==> sent == old(sent) && Send(old(script), |b|) == Sending(false, 0, script)
        invariant 0 <= written ==> written <= |b| && sent == old(sent) + b[..written] && |script| < |old(script)|
        invariant 0 <= written ==> Send(old(script), |b|) == Ahead(written, Send(script, |b| - written))
        decreases |script|, eintr
      {
        written, eintr := Write(b);
      }
    }

    // The terminator: one write, repeated while it is interrupted or takes nothing.
    method WriteEnd(end: char) returns (err: int)
      modifies this
      ensures err == 0 || err == AT_ERROR_GENERIC
      ensures var r := Send(old(script), 0);
              && (err == 0 <==> r.ok) && script == r.rest
              && sent == old(sent) + if r.ok then [end] else []
    {
      ghost var r := Send(script, 0);
      var written, eintr := Write([end]);
      while (written < 0 && eintr) || written == 0
        invariant (written < 0 && eintr) || written == 0 ==> sent == old(sent) && r == Send(script, 0)
        invariant written < 0 && !eintr ==> sent == old(sent) && r == Sending(false, 0, script)
        invariant written > 0 ==> sent == old(sent) + [end] && r == Sending(true, 0, script)
        invariant (written < 0 && eintr) || written == 0 ==> |script| < |old(script)|
        decreases |script|, (written < 0 && eintr) || written == 0
      {
        written, eintr := Write([end]);
      }
      err := if written < 0 then AT_ERROR_GENERIC else 0;
    }

    // The body of writeline and writeCtrlZ: the string, then the terminator.  The answers decide:
    // 0 means that the port took everything, an error that it took what Send says.
    method Transmit(s: string, end: char) returns (err: int)
      modifies this
      ensures err == 0 || err == AT_ERROR_GENERIC
      ensures err == 0 <==> Send(old(script), |s|).ok
      ensures State() == Transmitted(old(State()), s, end)
      ensures err == 0 ==> sent == old(sent) + s + [end]
      ensures err != 0 ==> exists k :: 0 <= k <= |s| && sent == old(sent) + s[..k]
    {
      hide Send;
      ghost var r := Send(script, |s|);
      assert r == Ahead(0, r);
      var cur := 0;
      while cur < |s|
        invariant cur <= |s| && sent == old(sent) + s[..cur]
        invariant r == Ahead(cur, Send(script, |s| - cur))
        decreases |s| - cur, |script|
      {
        var written := WriteRetrying(s[cur..]);
        if written < 0 {
          assert r == Sending(false, cur, script);
          return AT_ERROR_GENERIC;
        }
        assert s[..cur] + s[cur..][..written] == s[..cur + written];
        cur := cur + written;
      }
      assert s[..cur] == s;
      hide Ahead;
      AheadOfEnd(|s|, Send(script, 0));
      err := WriteEnd(end);
    }
  }

  // One intermediate line; the list is singly linked.
  class ATLine {
    const line: string
    var next: ATLine?

    constructor (text: string, rest: ATLine?)
      ensures line == text && next == rest
    {
      line := text;
      next := rest;
    }
  }

  // A response; nodes is the list that starts at intermediates.
  class ATResponse {
    ghost const id: nat
    var success: bool
    var final: Option<string>
    var intermediates: ATLine?
    ghost var nodes: seq<ATLine>

    // at_response_new: all zero.
    constructor (ghost serial: nat)
      ensures Valid() && id == serial && !success && final == None && nodes == []
    {
      id := serial;
      success := false;
      final := None;
      intermediates := null;
      nodes := [];
    }

    ghost predicate Valid()
      reads this, nodes
    {
      && intermediates == NodeAt(nodes, 0)
      && Distinct(nodes)
      && forall i :: 0 <= i < |nodes| ==> nodes[i].next == NodeAt(nodes, i + 1)
    }

    // The text of the list, from its head on.
    ghost function Stored(): seq<string>
      reads this
    {
      NodeTexts(nodes)
    }

    // addIntermediate: the new line becomes the head of the list.
    method AddIntermediate(line: string)
      requires Valid()
      modifies this`intermediates, this`nodes
      ensures Valid() && Stored() == [line] + old(Stored())
      ensures |nodes| == |old(nodes)| + 1 && nodes[1..] == old(nodes) && fresh(nodes[0])
    {
      var n := new ATLine(line, intermediates);
      intermediates := n;
      nodes := [n] + nodes;
      assert forall i :: 1 <= i < |nodes| ==> nodes[i] == old(nodes)[i - 1] && NodeAt(nodes, i + 1) == NodeAt(old(nodes), i);
    }

    // The loop of reverseIntermediates: the links are turned round one by one.
    method TurnLinks()
      requires Valid()
      modifies this`intermediates, nodes
      ensures intermediates == NodeAt(nodes, |nodes| - 1)
      ensures forall i :: 0 <= i < |nodes| ==> nodes[i].next == NodeAt(nodes, i - 1)
    {
      ghost var k := 0;
      var cur := intermediates;
      intermediates := null;
      while cur != null
        invariant k <= |nodes| && cur == NodeAt(nodes, k) && intermediates == NodeAt(nodes, k - 1)
        invariant forall i :: 0 <= i < k ==> nodes[i].next == NodeAt(nodes, i - 1)
        invariant forall i :: k <= i < |nodes| ==> nodes[i].next == NodeAt(nodes, i + 1)
        decreases |nodes| - k
      {
        var next := cur.next;
        cur.next := intermediates;
        intermediates := cur;
        cur := next;
        k := k + 1;
      }
    }

    // reverseIntermediates.
    method ReverseIntermediates()
      requires Valid()
      modifies this`intermediates, this`nodes, nodes
      ensures Valid() && Stored() == Reverse(old(Stored())) && nodes == Reverse(old(nodes))
    {
      hide Reverse, Distinct, NodeTexts;
      TurnLinks();
      ReverseNodeTexts(nodes);
      ReverseDistinct(nodes);
      Turned(nodes);
      nodes := Reverse(nodes);
    }
  }

  // Links that point backwards are the links of the reversed list.
  lemma Turned(nodes: seq<ATLine>)
    requires forall i :: 0 <= i < |nodes| ==> nodes[i].next == NodeAt(nodes, i - 1)
    ensures NodeAt(nodes, |nodes| - 1) == NodeAt(Reverse(nodes), 0)
    ensures forall i :: 0 <= i < |nodes| ==> Reverse(nodes)[i].next == NodeAt(Reverse(nodes), i + 1)
  {
    hide Reverse;
    ReversePlace(nodes, 0);
    forall i | 0 <= i < |nodes|
      ensures Reverse(nodes)[i].next == NodeAt(Reverse(nodes), i + 1)
    {
      ReversePlace(nodes, i);
      ReversePlace(nodes, i + 1);
    }
  }

  lemma ReversePlace(nodes: seq<ATLine>, i: int)
    ensures NodeAt(Reverse(nodes), i) == NodeAt(nodes, |nodes| - 1 - i)
  {
    hide Reverse;
    if 0 <= i < |nodes| {
      ReverseMembers(nodes, i);
    }
  }

  lemma ReverseDistinct(nodes: seq<ATLine>)
    requires Distinct(nodes)
    ensures Distinct(Reverse(nodes))
  {
    hide Reverse;
    forall i, j | 0 <= i < j < |nodes|
      ensures Reverse(nodes)[i] != Reverse(nodes)[j]
    {
      ReverseMembers(nodes, i);
      ReverseMembers(nodes, j);
    }
  }

  ghost predicate Distinct(nodes: seq<ATLine>) {
    forall i, j :: 0 <= i < j < |nodes| ==> nodes[i] != nodes[j]
  }

  ghost function NodeAt(nodes: seq<ATLine>, i: int): ATLine? {
    if 0 <= i < |nodes| then nodes[i] else null
  }

  ghost function NodeTexts(nodes: seq<ATLine>): seq<string> {
    if nodes == [] then [] else [nodes[0].line] + NodeTexts(nodes[1..])
  }

  lemma NodeTextsSnoc(nodes: seq<ATLine>, n: ATLine)
    ensures NodeTexts(nodes + [n]) == NodeTexts(nodes) + [n.line]
  {
    if nodes != [] {
      assert (nodes + [n])[1..] == nodes[1..] + [n];
    }
  }

  lemma {:induction false} ReverseNodeTexts(nodes: seq<ATLine>)
    ensures NodeTexts(Reverse(nodes)) == Reverse(NodeTexts(nodes))
  {
    if nodes != [] {
      ReverseNodeTexts(nodes[1..]);
      NodeTextsSnoc(Reverse(nodes[1..]), nodes[0]);
      assert NodeTexts(nodes)[1..] == NodeTexts(nodes[1..]);
    }
  }
}
