// A request to wpa_supplicant over its control socket: a send that is retried while the socket is
// busy, and a wait for the reply that passes over unsolicited messages.
module WpaRequest {
  import opened CString
  import opened RelTime

  // --- sending ---

  datatype Send = Sent | Busy | Failed

  const RETRY_TIMEOUT: int := 5

  // A clock, read once after each busy attempt; every reading but the first follows a sleep of at
  // least a second.
  ghost predicate Ticks(clock: nat -> RelTime) {
    && (forall k: nat :: Normal(clock(k)) && clock(k).sec >= 0)
    && forall k: nat :: Micros(clock(k + 1)) >= Micros(clock(k)) + US_PER_S
  }

  lemma Tick(clock: nat -> RelTime, k: nat)
    requires Ticks(clock)
    ensures Normal(clock(k)) && clock(k).sec >= 0
    ensures k > 0 ==> Micros(clock(k)) >= Micros(clock(k - 1)) + US_PER_S
  {
    if k > 0 {
      assert Micros(clock(k - 1 + 1)) >= Micros(clock(k - 1)) + US_PER_S;
    }
  }

  // How many attempts a socket that stays busy is given.
  function MaxSends(clock: nat -> RelTime): nat {
    if clock(0).sec == 0 then 8 else 7
  }

  // The reading the age is taken from: a first reading of zero seconds looks like none at all.
  function StartReading(clock: nat -> RelTime): nat {
    if clock(0).sec == 0 then 1 else 0
  }

  // The attempts end at the first that is not busy; a busy one ends them only when more than five
  // seconds have passed since the start, and that after at most eight attempts in all.
  method SendCommand(sends: nat -> Send, clock: nat -> RelTime) returns (ok: bool, n: nat)
    requires Ticks(clock)
    ensures 1 <= n <= MaxSends(clock)
    ensures forall k :: 0 <= k < n - 1 ==> sends(k) == Busy
    ensures ok <==> sends(n - 1) == Sent
    ensures forall k :: StartReading(clock) < k < n - 1 ==>
              Micros(clock(k)) - Micros(clock(StartReading(clock))) <= 5 * US_PER_S
    ensures sends(n - 1) == Busy ==>
              Micros(clock(n - 1)) - Micros(clock(StartReading(clock))) > 5 * US_PER_S
  {
    hide Ticks;
    var startedAt := RelTime(0, 0);
    ghost var s := StartReading(clock);
    n := 0;
    while true
      invariant n < MaxSends(clock)
      invariant forall k :: 0 <= k < n ==> sends(k) == Busy
      invariant startedAt == if n > s then clock(s) else if n == 0 then RelTime(0, 0) else clock(0)
      invariant n > s ==> s <= n - 1 <= s + 5 && Micros(clock(n - 1)) >= Micros(clock(s)) + (n - 1 - s) * US_PER_S
      invariant n > s ==> Micros(clock(n - 1)) <= Micros(clock(s)) + 5 * US_PER_S
      invariant forall k :: s < k < n ==> Micros(clock(k)) - Micros(clock(s)) <= 5 * US_PER_S
      decreases MaxSends(clock) - n
    {
      n := n + 1;
      if sends(n - 1) != Busy {
        ok := sends(n - 1) == Sent;
        return;
      }
      Tick(clock, n - 1);
      Tick(clock, 0);
      Tick(clock, s);
      var now := clock(n - 1);
      if startedAt.sec == 0 {
        startedAt := now;
      } else {
        var expired := Expired(now, startedAt, RETRY_TIMEOUT);
        if expired {
          return false, n;
        }
      }
    }
  }

  // --- receiving ---

  // What waiting for the reply meets.
  datatype Arrival = Datagram(bytes: string) | Interrupted | SelectFailed | RecvFailed | TimedOut

  // A datagram as it fits the reply buffer.
  function Cut(bytes: string, cap: nat): string {
    if |bytes| <= cap then bytes else bytes[..cap]
  }

  // An event of the supplicant, rather than a reply.
  predicate Unsolicited(d: string) {
    (|d| > 0 && d[0] == '<') || (|d| > 6 && "IFNAME=" <= d)
  }

  predicate Passed(a: Arrival, cap: nat) {
    a.Interrupted? || (a.Datagram? && Unsolicited(Cut(a.bytes, cap)))
  }

  // Of a datagram the buffer keeps enough to tell an event unless it is shorter than the mark.
  lemma UnsolicitedIs(bytes: string, cap: nat)
    ensures Unsolicited(Cut(bytes, cap)) <==> (cap > 0 && "<" <= bytes) || (cap > 6 && "IFNAME=" <= bytes)
  {
    if |bytes| > cap && cap > 6 {
      assert bytes[..7] == bytes[..cap][..7];
    }
  }

  // The datagrams as the callback is told of them, cut so that a terminator fits.
  function Messages(arrivals: seq<Arrival>, cap: nat): seq<string> {
    if arrivals == [] then []
    else
      Messages(arrivals[..|arrivals| - 1], cap)
      + match arrivals[|arrivals| - 1]
        case Datagram(d) => [if |d| < cap || cap == 0 then d else d[..cap - 1]]
        case _ => []
  }

  lemma MessagesSnoc(arrivals: seq<Arrival>, cap: nat, k: nat)
    requires k < |arrivals|
    ensures Messages(arrivals[..k + 1], cap) == Messages(arrivals[..k], cap)
              + match arrivals[k]
                case Datagram(d) => [if |d| < cap || cap == 0 then d else d[..cap - 1]]
                case _ => []
  {
    assert arrivals[..k + 1][..k] == arrivals[..k];
  }

  // recv into the reply buffer.
  method Recv(bytes: string, reply: array<char>, cap: nat) returns (res: nat)
    requires cap <= reply.Length
    modifies reply
    ensures res == |Cut(bytes, cap)| && reply[..res] == Cut(bytes, cap) && reply[res..] == old(reply[res..])
  {
    res := if |bytes| <= cap then |bytes| else cap;
    for i := 0 to res
      invariant reply[..i] == bytes[..i] && reply[i..] == old(reply[i..])
    {
      reply[i] := bytes[i];
    }
  }

  // The receive loop of wpa_ctrl_request, passing over passed arrivals: interruptions, and datagrams
  // that start with '<' or with "IFNAME=", as far as the buffer can hold that.  The first other arrival
  // decides the result, and waiting for it in vain is a timeout.
  method AwaitReply(arrivals: seq<Arrival>, reply: array<char>, cap: nat, callback: bool)
    returns (result: int, len: nat, told: seq<string>, ghost passed: nat)
    requires cap <= reply.Length
    modifies reply
    ensures passed <= |arrivals| && forall j :: 0 <= j < passed ==>
              arrivals[j] == Interrupted
              || (arrivals[j].Datagram?
                  && ((cap > 0 && "<" <= arrivals[j].bytes) || (cap > 6 && "IFNAME=" <= arrivals[j].bytes)))
    ensures match if passed < |arrivals| then arrivals[passed] else TimedOut
            case Datagram(d) =>
              && result == 0 && len <= cap && reply[..len] == (if |d| <= cap then d else d[..cap])
              && !(cap > 0 && "<" <= d) && !(cap > 6 && "IFNAME=" <= d)
            case TimedOut => result == -2 && len == cap
            case Interrupted => false
            case _ => result == -1 && len == cap
    ensures told == if callback then Messages(arrivals[..passed], cap) else []
  {
    hide Messages, Unsolicited;
    told, len, passed := [], cap, 0;
    var k := 0;
    NoMessages(arrivals[..0], cap);
    while k < |arrivals|
      invariant 0 <= k <= |arrivals| && forall j :: 0 <= j < k ==> Passed(arrivals[j], cap)
      invariant told == if callback then Messages(arrivals[..k], cap) else []
    {
      MessagesSnoc(arrivals, cap, k);
      if arrivals[k] != Interrupted {
        if !arrivals[k].Datagram? {
          passed := k;
          PassedAre(arrivals, cap, k);
          result := if arrivals[k] == TimedOut then -2 else -1;
          return;
        }
        var res := Recv(arrivals[k].bytes, reply, cap);
        var unsolicited := LooksUnsolicited(reply, res);
        ghost var d := arrivals[k].bytes;
        UnsolicitedIs(d, cap);
        if unsolicited {
          if callback {
            if res == cap {
              res := cap - 1;
            }
            reply[res] := NUL;
            assert reply[..res] == if |d| < cap then d else d[..cap - 1];
            told := told + [reply[..res]];
          }
        } else {
          passed := k;
          PassedAre(arrivals, cap, k);
          return 0, res, told, passed;
        }
      }
      k := k + 1;
    }
    passed := k;
    PassedAre(arrivals, cap, k);
    result := -2;
    assert arrivals[..k] == arrivals;
  }

  // The test for an unsolicited message in the buffer.
  method LooksUnsolicited(reply: array<char>, res: nat) returns (unsolicited: bool)
    requires res <= reply.Length
    ensures unsolicited <==> Unsolicited(reply[..res])
    ensures unsolicited ==> res > 0
  {
    assert res > 6 ==> ("IFNAME=" <= reply[..res] <==> reply[..7] == "IFNAME=");
    unsolicited := (res > 0 && reply[0] == '<') || (res > 6 && reply[..7] == "IFNAME=");
  }

  lemma PassedAre(arrivals: seq<Arrival>, cap: nat, k: nat)
    requires k <= |arrivals| && forall j :: 0 <= j < k ==> Passed(arrivals[j], cap)
    ensures forall j :: 0 <= j < k ==>
              arrivals[j] == Interrupted
              || (arrivals[j].Datagram?
                  && ((cap > 0 && "<" <= arrivals[j].bytes) || (cap > 6 && "IFNAME=" <= arrivals[j].bytes)))
  {
    forall j | 0 <= j < k && arrivals[j].Datagram?
      ensures (cap > 0 && "<" <= arrivals[j].bytes) || (cap > 6 && "IFNAME=" <= arrivals[j].bytes)
    {
      assert Passed(arrivals[j], cap);
      UnsolicitedIs(arrivals[j].bytes, cap);
    }
  }

  lemma NoMessages(arrivals: seq<Arrival>, cap: nat)
    requires arrivals == []
    ensures Messages(arrivals, cap) == []
  {
  }

  // wpa_ctrl_request.
  method Request(sends: nat -> Send, clock: nat -> RelTime, arrivals: seq<Arrival>,
                 reply: array<char>, cap: nat, callback: bool)
    returns (result: int, len: nat, told: seq<string>, sent: bool, ghost passed: nat)
    requires Ticks(clock) && cap <= reply.Length
    modifies reply
    ensures !sent ==> result == -1 && told == [] && len == cap
    ensures passed <= |arrivals| && forall j :: 0 <= j < passed ==>
              arrivals[j] == Interrupted
              || (arrivals[j].Datagram?
                  && ((cap > 0 && "<" <= arrivals[j].bytes) || (cap > 6 && "IFNAME=" <= arrivals[j].bytes)))
    ensures sent ==>
              && (match if passed < |arrivals| then arrivals[passed] else TimedOut
                  case Datagram(d) =>
                    && result == 0 && len <= cap && reply[..len] == (if |d| <= cap then d else d[..cap])
                    && !(cap > 0 && "<" <= d) && !(cap > 6 && "IFNAME=" <= d)
                  case TimedOut => result == -2 && len == cap
                  case Interrupted => false
                  case _ => result == -1 && len == cap)
              && told == if callback then Messages(arrivals[..passed], cap) else []
    ensures sent <==> exists n: nat :: n < MaxSends(clock) && Delivered(sends, clock, n)
  {
    hide Messages;
    var n;
    sent, n := SendCommand(sends, clock);
    if !sent {
      if m: nat :| m < MaxSends(clock) && Delivered(sends, clock, m) {
        assert false;
      }
      return -1, cap, [], false, 0;
    }
    assert Delivered(sends, clock, n - 1);
    result, len, told, passed := AwaitReply(arrivals, reply, cap, callback);
  }

  // Attempt n gets through, after busy ones that did not outlast the timeout.
  ghost predicate Delivered(sends: nat -> Send, clock: nat -> RelTime, n: nat) {
    && sends(n) == Sent
    && (forall k :: 0 <= k < n ==> sends(k) == Busy)
    && forall k :: StartReading(clock) < k < n ==>
         Micros(clock(k)) - Micros(clock(StartReading(clock))) <= 5 * US_PER_S
  }

  // --- attaching ---

  predicate OnlyEventsBefore(arrivals: seq<Arrival>, k: nat)
    requires k <= |arrivals|
  {
    forall j :: 0 <= j < k ==>
      arrivals[j] == Interrupted
      || (arrivals[j].Datagram? && ("<" <= arrivals[j].bytes || "IFNAME=" <= arrivals[j].bytes))
  }

  // wpa_ctrl_attach: it succeeds exactly when the command gets through and the first datagram that
  // starts with neither '<' nor "IFNAME=" is OK and a newline, nothing less and nothing more, with
  // nothing but such datagrams and interruptions before it.
  method Attach(sends: nat -> Send, clock: nat -> RelTime, arrivals: seq<Arrival>) returns (result: int, sent: bool)
    requires Ticks(clock)
    ensures sent <==> exists n: nat :: n < MaxSends(clock) && Delivered(sends, clock, n)
    ensures result == 0 <==>
              sent && exists k :: 0 <= k < |arrivals| && arrivals[k] == Datagram("OK\n") && OnlyEventsBefore(arrivals, k)
    ensures result == 0 || result == -1 || result == -2
  {
    hide Messages, Delivered;
    ghost var ok := "OK\n";
    assert !("<" <= ok) && !("IFNAME=" <= ok) by {
      assert ok[0] == 'O' && "IFNAME="[0] == 'I';
    }
    var buf := new char[10];
    var len, told;
    ghost var passed;
    result, len, told, sent, passed := Request(sends, clock, arrivals, buf, 10, false);
    if result < 0 {
      return;
    }
    result := if buf[..len] == "OK\n" then 0 else -1;
  }
}
