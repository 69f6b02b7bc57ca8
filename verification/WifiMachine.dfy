// The Wi-Fi HAL's event loop: every radio has a state of its own, is started once, and then
// reacts to the events that wpa_supplicant reports for it until a radio shuts down.
module WifiMachine {
  import InterfaceTable
  import Tokens

  const WIFI_RADIO_MAX: nat := InterfaceTable.WIFI_RADIO_MAX

  datatype State = Unknown | Init | IfDown | IfInitStage1 | IfUp | Associated | Connected | Disconnected | Shutdown

  datatype Event =
    | NoEvent | Startup | StartupStage2 | ApEnabled | MeshGroupStarted | DisconnectedEvent | ConnectedEvent | Terminate

  // What waiting for an event ends with: no socket to read from, a failed read, or a datagram.
  datatype Wait = Closed | RecvFailed(radio: nat) | Message(radio: nat, text: string)

  const TERMINATING: string := "CTRL-EVENT-TERMINATING "

  // The text without its priority, as in <3>.
  function Strip(text: string): string {
    if text != [] && text[0] == '<' && Tokens.Find(text, '>') < |text| then text[Tokens.Find(text, '>') + 1..]
    else text
  }

  // wifi_hal_wait_on_event: the text reported, and the radio it is for.
  function TextOf(w: Wait): string {
    match w
    case Closed => TERMINATING + " - connection closed"
    case RecvFailed(_) => TERMINATING + " - recv error\n"
    case Message(_, text) => if text == "" then TERMINATING + " - signal 0 received" else Strip(text)
  }

  function RadioOf(w: Wait, last: nat): (radio: nat)
    ensures radio == last || (!w.Closed? && radio == w.radio)
  {
    if w.Closed? then last else w.radio
  }

  // wifi_hal_map_wpa_event_to_state.
  function EventOf(text: string): Event {
    if "CTRL-EVENT-DISCONNECTED " <= text then DisconnectedEvent
    else if "AP-ENABLED " <= text then ApEnabled
    else if "MESH-GROUP-STARTED " <= text then StartupStage2
    else if "MESH-PEER-CONNECTED " <= text then ConnectedEvent
    else if "MESH-PEER-DISCONNECTED " <= text then DisconnectedEvent
    else if TERMINATING <= text then Terminate
    else NoEvent
  }

  const MESH_STARTED: string := "MESH-GROUP-STARTED "

  // The beginnings exclude each other, so the order in which they are tried does not matter.
  lemma EventMeans(text: string)
    ensures EventOf(text) == Terminate <==> "CTRL-EVENT-TERMINATING " <= text
    ensures EventOf(text) == StartupStage2 <==> "MESH-GROUP-STARTED " <= text
    ensures EventOf(text) == ApEnabled <==> "AP-ENABLED " <= text
    ensures EventOf(text) == ConnectedEvent <==> "MESH-PEER-CONNECTED " <= text
    ensures EventOf(text) == DisconnectedEvent <==>
              "MESH-PEER-DISCONNECTED " <= text || "CTRL-EVENT-DISCONNECTED " <= text
    ensures EventOf(text) in {Terminate, StartupStage2, ApEnabled, ConnectedEvent, DisconnectedEvent, NoEvent}
  {
    var d, a, c, p := "CTRL-EVENT-DISCONNECTED ", "AP-ENABLED ", "MESH-PEER-CONNECTED ", "MESH-PEER-DISCONNECTED ";
    assert d[0] == 'C' && d[11] == 'D' && a[0] == 'A' && TERMINATING[0] == 'C' && TERMINATING[11] == 'T';
    assert MESH_STARTED[0] == 'M' && MESH_STARTED[5] == 'G';
    assert c[0] == 'M' && c[5] == 'P' && c[10] == 'C' && p[0] == 'M' && p[5] == 'P' && p[10] == 'D';
  }

  // A priority in angle brackets is stripped, up to the first closing one.
  lemma StripsPriority(priority: string, text: string)
    requires '>' !in priority
    ensures Strip(['<'] + priority + ['>'] + text) == text
  {
    var all := ['<'] + priority + ['>'] + text;
    var n := 1 + |priority|;
    assert all[..n] == ['<'] + priority && all[n] == '>' && all[n + 1..] == text;
    Tokens.FindIs(all, '>', n);
  }

  // Nothing else is.
  lemma StripsNoOther(text: string)
    requires text == [] || text[0] != '<' || '>' !in text
    ensures Strip(text) == text
  {
    hide Tokens.Find;
    assert text[..|text|] == text;
    if '>' !in text {
      Tokens.FindIs(text, '>', |text|);
    }
  }

  // A report as it was received begins with a name, behind its priority if it has one.
  predicate Begins(text: string, name: string) {
    if text != [] && text[0] == '<' && '>' in text then
      exists n :: 0 < n < |text| && text[n] == '>' && '>' !in text[..n] && name <= text[n + 1..]
    else name <= text
  }

  lemma BeginsBehindPriority(priority: string, text: string, name: string)
    requires '>' !in priority
    ensures Begins(['<'] + priority + ['>'] + text, name) <==> name <= text
  {
    var all := ['<'] + priority + ['>'] + text;
    var n := 1 + |priority|;
    assert all[..n] == ['<'] + priority && all[n] == '>' && all[n + 1..] == text;
    forall k | 0 < k < |all| && all[k] == '>' && '>' !in all[..k]
      ensures k == n
    {
    }
  }

  // What a wait ends with is a message that begins with the name.
  predicate Reports(w: Wait, name: string) {
    w.Message? && Begins(w.text, name)
  }

  // The end is told by a missing socket, a failed read, an empty message, or by its name.
  predicate TellsEnd(w: Wait) {
    w.Closed? || w.RecvFailed? || w.text == "" || Begins(w.text, "CTRL-EVENT-TERMINATING ")
  }

  lemma StripMeans(text: string, name: string)
    ensures name <= Strip(text) <==> Begins(text, name)
  {
    var n := Tokens.Find(text, '>');
    hide Tokens.Find;
    if text != [] && text[0] == '<' && n < |text| {
      assert text[n] in text;
      forall k | 0 < k < |text| && text[k] == '>' && '>' !in text[..k]
        ensures k == n
      {
      }
    } else {
      assert text[..|text|] == text;
    }
  }

  // Which event a wait ends with, told from what was received.
  lemma WaitMeans(w: Wait)
    ensures EventOf(TextOf(w)) == Terminate <==> TellsEnd(w)
    ensures EventOf(TextOf(w)) == StartupStage2 <==> Reports(w, "MESH-GROUP-STARTED ")
    ensures EventOf(TextOf(w)) == ApEnabled <==> Reports(w, "AP-ENABLED ")
    ensures EventOf(TextOf(w)) == ConnectedEvent <==> Reports(w, "MESH-PEER-CONNECTED ")
    ensures EventOf(TextOf(w)) == DisconnectedEvent <==>
              Reports(w, "MESH-PEER-DISCONNECTED ") || Reports(w, "CTRL-EVENT-DISCONNECTED ")
    ensures EventOf(TextOf(w)) == NoEvent <==> !TellsEvent(w)
  {
    hide Begins, EventOf, Strip;
    if w.Message? && w.text != "" {
      MessageMeans(w.text);
    } else {
      EndIsNoOther(TextOf(w));
      if w.Message? {
        NoneBegins();
      }
    }
  }

  lemma MessageMeans(text: string)
    ensures var e := EventOf(Strip(text));
            && (e == Terminate <==> Begins(text, "CTRL-EVENT-TERMINATING "))
            && (e == StartupStage2 <==> Begins(text, "MESH-GROUP-STARTED "))
            && (e == ApEnabled <==> Begins(text, "AP-ENABLED "))
            && (e == ConnectedEvent <==> Begins(text, "MESH-PEER-CONNECTED "))
            && (e == DisconnectedEvent <==> Begins(text, "MESH-PEER-DISCONNECTED ") || Begins(text, "CTRL-EVENT-DISCONNECTED "))
            && e in {Terminate, StartupStage2, ApEnabled, ConnectedEvent, DisconnectedEvent, NoEvent}
  {
    hide Begins, EventOf, Strip;
    EventMeans(Strip(text));
    StripMeans(text, "CTRL-EVENT-TERMINATING ");
    StripMeans(text, "MESH-GROUP-STARTED ");
    StripMeans(text, "AP-ENABLED ");
    StripMeans(text, "MESH-PEER-CONNECTED ");
    StripMeans(text, "MESH-PEER-DISCONNECTED ");
    StripMeans(text, "CTRL-EVENT-DISCONNECTED ");
  }

  lemma EndIsNoOther(text: string)
    requires TERMINATING <= text
    ensures EventOf(text) == Terminate
  {
    EventMeans(text);
  }

  lemma NoneBegins()
    ensures forall name: string :: name != "" ==> !Begins("", name)
  {
  }

  predicate TellsEvent(w: Wait) {
    || TellsEnd(w) || Reports(w, "MESH-GROUP-STARTED ") || Reports(w, "AP-ENABLED ") || Reports(w, "MESH-PEER-CONNECTED ")
    || Reports(w, "MESH-PEER-DISCONNECTED ") || Reports(w, "CTRL-EVENT-DISCONNECTED ")
  }

  // A mode that the HAL knows how to start.
  predicate KnownMode(mode: string) {
    "ap" <= mode || "sta" <= mode || "mesh" <= mode
  }

  // init_handler's result.
  function Started(mode: string): State {
    if "ap" <= mode || "sta" <= mode || "mesh" <= mode then IfInitStage1 else Unknown
  }

  // The state after an event, by the rules of the machine.
  function React(mode: string, s: State, e: Event): State {
    match (s, e)
    case (Init, Startup) => Started(mode)
    case (IfInitStage1, StartupStage2) => IfUp
    case (IfUp, Terminate) => Shutdown
    case (Disconnected, ConnectedEvent) => Disconnected
    case (Connected, DisconnectedEvent) => Connected
    case _ => s
  }

  // An event handled for a radio, and what it did to that radio's state.
  datatype Handled = Handled(radio: nat, event: Event, from: State, to: State)

  datatype Machine = Machine(states: seq<State>, radio: nat, returned: bool, log: seq<Handled>)

  predicate SomeShutdown(states: seq<State>) {
    exists i :: 0 <= i < |states| && states[i] == Shutdown
  }

  predicate Possible(w: Wait, amount: nat) {
    w.Closed? || w.radio < amount
  }

  // One turn of the loop once the radios are started.
  function Listen(m: Machine, modes: seq<string>, w: Wait): Machine
    requires |modes| == |m.states| && m.radio < |modes| && Possible(w, |modes|)
  {
    var radio := RadioOf(w, m.radio);
    var event := EventOf(TextOf(w));
    if m.returned then m
    else if event.NoEvent? then m.(radio := radio)
    else if SomeShutdown(m.states) then m.(radio := radio, returned := true)
    else
      var to := React(modes[radio], m.states[radio], event);
      m.(radio := radio, states := m.states[radio := to],
         log := m.log + [Handled(radio, event, m.states[radio], to)])
  }

  // After the startup phase.
  function Ready(modes: seq<string>): Machine
    requires modes != []
  {
    Machine(seq(|modes|, i requires 0 <= i < |modes| => Started(modes[i])), |modes| - 1, false, StartLog(modes))
  }

  function StartLog(modes: seq<string>): (log: seq<Handled>)
    ensures |log| == |modes|
  {
    seq(|modes|, i requires 0 <= i < |modes| => Handled(i, Startup, Init, Started(modes[i])))
  }

  predicate AllPossible(waits: seq<Wait>, amount: nat) {
    forall k :: 0 <= k < |waits| ==> Possible(waits[k], amount)
  }

  function Run(modes: seq<string>, waits: seq<Wait>): (m: Machine)
    requires modes != [] && AllPossible(waits, |modes|)
    ensures |m.states| == |modes| && m.radio < |modes|
  {
    if waits == [] then Ready(modes)
    else Listen(Run(modes, waits[..|waits| - 1]), modes, waits[|waits| - 1])
  }

  // --- every run ---

  lemma Heard(w: Wait)
    ensures EventOf(TextOf(w)) != Startup
  {
  }

  function Rank(s: State): nat {
    match s
    case Init => 0
    case IfInitStage1 => 1
    case IfUp => 2
    case _ => 3
  }

  predicate Reachable(s: State) {
    s == IfInitStage1 || s == IfUp || s == Shutdown || s == Unknown
  }

  function Shutdowns(states: seq<State>): nat {
    if states == [] then 0
    else Shutdowns(states[..|states| - 1]) + if states[|states| - 1] == Shutdown then 1 else 0
  }

  lemma {:induction false} ShutdownsSome(states: seq<State>)
    ensures Shutdowns(states) > 0 <==> SomeShutdown(states)
  {
    if states != [] {
      var init := states[..|states| - 1];
      ShutdownsSome(init);
      assert forall i :: 0 <= i < |init| ==> states[i] == init[i];
    }
  }

  lemma {:induction false} ShutdownsUpdate(states: seq<State>, i: nat, s: State)
    requires i < |states|
    ensures Shutdowns(states[i := s]) + (if states[i] == Shutdown then 1 else 0)
            == Shutdowns(states) + if s == Shutdown then 1 else 0
  {
    var n := |states| - 1;
    if i == n {
      assert states[i := s][..n] == states[..n];
    } else {
      assert states[i := s][..n] == states[..n][i := s];
      ShutdownsUpdate(states[..n], i, s);
    }
  }

  // Changes of a radio's state.
  function Changes(log: seq<Handled>, radio: nat): nat {
    if log == [] then 0
    else
      var h := log[|log| - 1];
      Changes(log[..|log| - 1], radio) + if h.radio == radio && h.from != h.to then 1 else 0
  }

  // A shutdown in the log is the answer of a radio that is up to a termination.
  predicate Orderly(h: Handled) {
    h.to == Shutdown ==> h.from == IfUp && h.event == Terminate
  }

  ghost predicate Inv(modes: seq<string>, m: Machine) {
    && |m.states| == |modes| && m.radio < |modes|
    && (forall i :: 0 <= i < |modes| ==> Reachable(m.states[i]) && Changes(m.log, i) <= Rank(m.states[i]))
    && Shutdowns(m.states) <= 1
    && (m.returned ==> Shutdowns(m.states) == 1)
    && StartLog(modes) <= m.log
    && (forall k :: |modes| <= k < |m.log| ==> m.log[k].event != Startup)
    && (forall k :: 0 <= k < |m.log| ==> Orderly(m.log[k]))
  }

  lemma {:induction false} StartChanges(log: seq<Handled>, radio: nat)
    requires forall k :: 0 <= k < |log| ==> log[k].radio == k
    ensures Changes(log, radio) <= if radio < |log| then 1 else 0
  {
    if log != [] {
      StartChanges(log[..|log| - 1], radio);
    }
  }

  lemma {:induction false} NoneShut(states: seq<State>)
    requires forall i :: 0 <= i < |states| ==> states[i] != Shutdown
    ensures Shutdowns(states) == 0
  {
    if states != [] {
      NoneShut(states[..|states| - 1]);
    }
  }

  lemma ReadyInv(modes: seq<string>)
    requires modes != []
    ensures Inv(modes, Ready(modes))
  {
    hide Changes, Shutdowns;
    forall i | 0 <= i < |modes|
      ensures Changes(StartLog(modes), i) <= 1
    {
      StartChanges(StartLog(modes), i);
    }
    NoneShut(Ready(modes).states);
  }

  lemma ChangesSnoc(log: seq<Handled>, h: Handled, radio: nat)
    ensures Changes(log + [h], radio) == Changes(log, radio) + if h.radio == radio && h.from != h.to then 1 else 0
  {
    assert (log + [h])[..|log|] == log;
  }

  lemma ListenKeepsInv(modes: seq<string>, m: Machine, w: Wait)
    requires Inv(modes, m) && Possible(w, |modes|)
    ensures Inv(modes, Listen(m, modes, w))
  {
    hide Changes, Shutdowns, EventOf, TextOf, StartLog;
    Heard(w);
    ShutdownsSome(m.states);
    var radio := RadioOf(w, m.radio);
    var event := EventOf(TextOf(w));
    var m' := Listen(m, modes, w);
    if |m'.log| > |m.log| {
      var h := m'.log[|m.log|];
      ShutdownsUpdate(m.states, radio, h.to);
      forall i | 0 <= i < |modes|
        ensures Changes(m'.log, i) <= Rank(m'.states[i])
      {
        ChangesSnoc(m.log, h, i);
      }
    }
  }

  // Whatever is reported: every radio is started exactly once and first of all, in index order;
  // it stays among four states and changes at most three times; a radio shuts down only from
  // being up and by a termination; at most one does, and the loop returns only after one has.
  lemma {:induction false} RunKeepsInv(modes: seq<string>, waits: seq<Wait>)
    requires modes != [] && AllPossible(waits, |modes|)
    ensures Inv(modes, Run(modes, waits))
  {
    hide Listen, Inv;
    if waits == [] {
      ReadyInv(modes);
    } else {
      RunKeepsInv(modes, waits[..|waits| - 1]);
      ListenKeepsInv(modes, Run(modes, waits[..|waits| - 1]), waits[|waits| - 1]);
    }
  }

  lemma {:induction false} ChangesBounded(modes: seq<string>, waits: seq<Wait>, radio: nat)
    requires modes != [] && AllPossible(waits, |modes|) && radio < |modes|
    ensures Changes(Run(modes, waits).log, radio) <= 3
  {
    hide Changes, Shutdowns, Run;
    RunKeepsInv(modes, waits);
  }

  // --- radios are independent ---

  // The events handled for a radio, in order.
  function EventsFor(log: seq<Handled>, radio: nat): seq<Event> {
    if log == [] then []
    else
      var h := log[|log| - 1];
      EventsFor(log[..|log| - 1], radio) + if h.radio == radio then [h.event] else []
  }

  function Reacted(mode: string, events: seq<Event>): State {
    if events == [] then Init
    else React(mode, Reacted(mode, events[..|events| - 1]), events[|events| - 1])
  }

  lemma EventsSnoc(log: seq<Handled>, h: Handled, radio: nat)
    ensures EventsFor(log + [h], radio) == if h.radio == radio then EventsFor(log, radio) + [h.event] else EventsFor(log, radio)
  {
    assert (log + [h])[..|log|] == log;
  }

  lemma ReactedSnoc(mode: string, events: seq<Event>, e: Event)
    ensures Reacted(mode, events + [e]) == React(mode, Reacted(mode, events), e)
  {
    assert (events + [e])[..|events|] == events;
  }

  lemma {:induction false} StartEvents(log: seq<Handled>, radio: nat)
    requires forall k :: 0 <= k < |log| ==> log[k].radio == k && log[k].event == Startup
    ensures EventsFor(log, radio) == if radio < |log| then [Startup] else []
  {
    if log != [] {
      StartEvents(log[..|log| - 1], radio);
    }
  }

  // A radio's state depends only on its own mode and the events handled for it.
  lemma {:induction false} RadiosIndependent(modes: seq<string>, waits: seq<Wait>, radio: nat)
    requires modes != [] && AllPossible(waits, |modes|) && radio < |modes|
    ensures Run(modes, waits).states[radio] == Reacted(modes[radio], EventsFor(Run(modes, waits).log, radio))
  {
    hide EventsFor, React, EventOf, TextOf;
    if waits == [] {
      StartEvents(StartLog(modes), radio);
      ReactedSnoc(modes[radio], [], Startup);
      assert [] + [Startup] == [Startup];
      StartReaction(modes[radio]);
    } else {
      RadiosIndependent(modes, waits[..|waits| - 1], radio);
      var m := Run(modes, waits[..|waits| - 1]);
      var m' := Run(modes, waits);
      assert m' == Listen(m, modes, waits[|waits| - 1]);
      if |m'.log| > |m.log| {
        var h := m'.log[|m.log|];
        EventsSnoc(m.log, h, radio);
        ReactedSnoc(modes[radio], EventsFor(m.log, radio), h.event);
      }
    }
  }

  lemma StartReaction(mode: string)
    ensures React(mode, Init, Startup) == Started(mode)
  {
  }

  // --- when the loop returns ---

  predicate MeshGroupHeard(waits: seq<Wait>) {
    exists k :: 0 <= k < |waits| && Reports(waits[k], "MESH-GROUP-STARTED ")
  }

  // Until a mesh group has started nothing leaves its first state, so the loop never returns: an
  // enabled access point does not bring its radio up.
  lemma {:induction false} NoMeshNoReturn(modes: seq<string>, waits: seq<Wait>)
    requires modes != [] && AllPossible(waits, |modes|) && !MeshGroupHeard(waits)
    ensures !Run(modes, waits).returned
    ensures forall i :: 0 <= i < |modes| ==>
              Run(modes, waits).states[i] == if KnownMode(modes[i]) then IfInitStage1 else Unknown
  {
    hide EventOf, TextOf, Reports;
    if waits != [] {
      var before := waits[..|waits| - 1];
      assert forall k :: 0 <= k < |before| ==> before[k] == waits[k];
      NoMeshNoReturn(modes, before);
      WaitMeans(waits[|waits| - 1]);
    }
  }

  // Once a radio has shut down the states stay as they are, and the loop returns at the first
  // report that is an event.
  lemma ShutdownEnds(modes: seq<string>, m: Machine, w: Wait)
    requires Inv(modes, m) && Possible(w, |modes|) && SomeShutdown(m.states)
    ensures Listen(m, modes, w).states == m.states
    ensures Listen(m, modes, w).returned <==> m.returned || TellsEvent(w)
  {
    hide EventOf, TextOf, TellsEvent;
    WaitMeans(w);
  }

  // The radio that report k is for: a report without one is taken to be for the last that had one.
  function Speaker(amount: nat, waits: seq<Wait>, k: nat): nat
    requires amount > 0 && k < |waits|
  {
    if !waits[k].Closed? then waits[k].radio
    else if k == 0 then amount - 1
    else Speaker(amount, waits, k - 1)
  }

  function EventAt(waits: seq<Wait>, k: nat): Event
    requires k < |waits|
  {
    EventOf(TextOf(waits[k]))
  }

  // Report i starts the mesh group of a radio with a known mode.
  predicate MeshAt(modes: seq<string>, waits: seq<Wait>, i: nat, radio: nat)
    requires modes != [] && i < |waits| && radio < |modes|
  {
    Speaker(|modes|, waits, i) == radio && Started(modes[radio]) == IfInitStage1 && EventAt(waits, i) == StartupStage2
  }

  predicate TerminatedAt(modes: seq<string>, waits: seq<Wait>, j: nat, radio: nat)
    requires modes != [] && j < |waits|
  {
    Speaker(|modes|, waits, j) == radio && EventAt(waits, j) == Terminate
  }

  predicate MeshBy(modes: seq<string>, waits: seq<Wait>, radio: nat, n: nat)
    requires modes != [] && n <= |waits| && radio < |modes|
  {
    exists i: nat :: i < n && MeshAt(modes, waits, i, radio)
  }

  // Report j ends a radio whose mesh group an earlier report has started.
  predicate EndsAt(modes: seq<string>, waits: seq<Wait>, j: nat)
    requires modes != [] && AllPossible(waits, |modes|) && j < |waits|
  {
    SpeakerBound(|modes|, waits, j);
    var radio := Speaker(|modes|, waits, j);
    TerminatedAt(modes, waits, j, radio) && MeshBy(modes, waits, radio, j)
  }

  predicate DownBy(modes: seq<string>, waits: seq<Wait>, n: nat)
    requires modes != [] && AllPossible(waits, |modes|) && n <= |waits|
  {
    exists j: nat :: j < n && EndsAt(modes, waits, j)
  }

  predicate OverAt(modes: seq<string>, waits: seq<Wait>, k: nat)
    requires modes != [] && AllPossible(waits, |modes|) && k < |waits|
  {
    EventAt(waits, k) != NoEvent && DownBy(modes, waits, k)
  }

  predicate OverBy(modes: seq<string>, waits: seq<Wait>, n: nat)
    requires modes != [] && AllPossible(waits, |modes|) && n <= |waits|
  {
    exists k: nat :: k < n && OverAt(modes, waits, k)
  }

  lemma {:induction false} SpeakerBound(amount: nat, waits: seq<Wait>, k: nat)
    requires amount > 0 && AllPossible(waits, amount) && k < |waits|
    ensures Speaker(amount, waits, k) < amount
  {
    assert Possible(waits[k], amount);
    if waits[k].Closed? && k > 0 {
      SpeakerBound(amount, waits, k - 1);
    }
  }

  // The state of a radio, while none has shut down, after n reports.
  function StateBy(modes: seq<string>, waits: seq<Wait>, radio: nat, n: nat): State
    requires modes != [] && n <= |waits| && radio < |modes|
  {
    if Started(modes[radio]) != IfInitStage1 then Unknown
    else if MeshBy(modes, waits, radio, n) then IfUp
    else IfInitStage1
  }

  // The machine after n reports, told from the reports alone.
  ghost predicate Told(modes: seq<string>, waits: seq<Wait>, n: nat, m: Machine)
    requires modes != [] && AllPossible(waits, |modes|) && n <= |waits|
  {
    && |m.states| == |modes|
    && (!m.returned ==> m.radio == if n == 0 then |modes| - 1 else Speaker(|modes|, waits, n - 1))
    && (m.returned <==> OverBy(modes, waits, n))
    && (SomeShutdown(m.states) <==> DownBy(modes, waits, n))
    && (!SomeShutdown(m.states) ==> forall i :: 0 <= i < |modes| ==> m.states[i] == StateBy(modes, waits, i, n))
  }

  lemma MeshByNext(modes: seq<string>, waits: seq<Wait>, radio: nat, n: nat)
    requires modes != [] && n < |waits| && radio < |modes|
    ensures MeshBy(modes, waits, radio, n + 1) <==> MeshBy(modes, waits, radio, n) || MeshAt(modes, waits, n, radio)
  {
    hide MeshAt;
  }

  lemma DownByNext(modes: seq<string>, waits: seq<Wait>, n: nat)
    requires modes != [] && AllPossible(waits, |modes|) && n < |waits|
    ensures DownBy(modes, waits, n + 1) <==> DownBy(modes, waits, n) || EndsAt(modes, waits, n)
    ensures OverBy(modes, waits, n + 1) <==> OverBy(modes, waits, n) || OverAt(modes, waits, n)
  {
    hide EndsAt, OverAt;
  }

  lemma ListenTold(modes: seq<string>, waits: seq<Wait>, n: nat, m: Machine)
    requires modes != [] && AllPossible(waits, |modes|) && n < |waits|
    requires Told(modes, waits, n, m) && Inv(modes, m)
    ensures Told(modes, waits, n + 1, Listen(m, modes, waits[n]))
  {
    hide EventOf, TextOf, SomeShutdown, DownBy, OverBy, MeshBy, Changes, StartLog, Started, Shutdowns;
    DownByNext(modes, waits, n);
    SpeakerBound(|modes|, waits, n);
    ShutdownsSome(m.states);
    var m' := Listen(m, modes, waits[n]);
    forall i | 0 <= i < |modes|
      ensures MeshBy(modes, waits, i, n + 1) <==> MeshBy(modes, waits, i, n) || MeshAt(modes, waits, n, i)
    {
      MeshByNext(modes, waits, i, n);
    }
    if !m.returned && !SomeShutdown(m.states) && EventAt(waits, n) != NoEvent {
      Heard(waits[n]);
      var radio := Speaker(|modes|, waits, n);
      StartedKnown(modes[radio]);
      if MeshBy(modes, waits, radio, n) {
        MeshKnown(modes, waits, radio, n);
      }
      ShutNext(m.states, radio, m'.states[radio]);
    }
  }

  lemma MeshKnown(modes: seq<string>, waits: seq<Wait>, radio: nat, n: nat)
    requires modes != [] && n <= |waits| && radio < |modes| && MeshBy(modes, waits, radio, n)
    ensures Started(modes[radio]) == IfInitStage1
  {
  }

  lemma StartedKnown(mode: string)
    ensures Started(mode) == IfInitStage1 || Started(mode) == Unknown
  {
  }

  lemma ShutNext(states: seq<State>, i: nat, s: State)
    requires i < |states| && !SomeShutdown(states)
    ensures SomeShutdown(states[i := s]) <==> s == Shutdown
  {
    assert states[i := s][i] == s;
  }

  lemma {:induction false} RunTold(modes: seq<string>, waits: seq<Wait>, n: nat)
    requires modes != [] && AllPossible(waits, |modes|) && n <= |waits|
    ensures AllPossible(waits[..n], |modes|) && Told(modes, waits, n, Run(modes, waits[..n]))
  {
    hide Run, Listen, Told, Inv;
    if n == 0 {
      ReadyRuns(modes, waits);
      ReadyTold(modes, waits);
    } else {
      RunTold(modes, waits, n - 1);
      RunSnoc(modes, waits, n - 1);
      RunKeepsInv(modes, waits[..n - 1]);
      ListenTold(modes, waits, n - 1, Run(modes, waits[..n - 1]));
    }
  }

  lemma ReadyTold(modes: seq<string>, waits: seq<Wait>)
    requires modes != [] && AllPossible(waits, |modes|)
    ensures Told(modes, waits, 0, Ready(modes))
  {
    var m := Ready(modes);
    assert forall i :: 0 <= i < |modes| ==> m.states[i] == Started(modes[i]);
    forall i | 0 <= i < |modes|
      ensures Started(modes[i]) == IfInitStage1 || Started(modes[i]) == Unknown
    {
      StartedKnown(modes[i]);
    }
  }

  // Report i starts the mesh group of a radio with a known mode, report j ends a radio, and report k
  // is an event, told from what was received.
  predicate MeshReported(modes: seq<string>, waits: seq<Wait>, i: nat, radio: nat)
    requires modes != [] && i < |waits| && radio < |modes|
  {
    Speaker(|modes|, waits, i) == radio && KnownMode(modes[radio]) && Reports(waits[i], "MESH-GROUP-STARTED ")
  }

  predicate EndReported(modes: seq<string>, waits: seq<Wait>, j: nat, radio: nat)
    requires modes != [] && j < |waits|
  {
    Speaker(|modes|, waits, j) == radio && TellsEnd(waits[j])
  }

  // The loop returns if and only if some radio with a known mode hears of its mesh group, later of
  // its termination, and after that any event is reported.
  lemma ReturnsExactly(modes: seq<string>, waits: seq<Wait>)
    requires modes != [] && AllPossible(waits, |modes|)
    ensures Run(modes, waits).returned <==>
              exists i: nat, j: nat, k: nat, radio: nat ::
                i < j < k < |waits| && radio < |modes| && MeshReported(modes, waits, i, radio)
                && EndReported(modes, waits, j, radio) && TellsEvent(waits[k])
  {
    hide Run, Speaker, EventOf, TextOf, Reports, TellsEnd, TellsEvent;
    ReturnsBy(modes, waits);
    forall k: nat | k < |waits|
      ensures EventAt(waits, k) == StartupStage2 <==> Reports(waits[k], "MESH-GROUP-STARTED ")
      ensures EventAt(waits, k) == Terminate <==> TellsEnd(waits[k])
      ensures EventAt(waits, k) != NoEvent <==> TellsEvent(waits[k])
    {
      WaitMeans(waits[k]);
    }
    forall i: nat, radio: nat | i < |waits| && radio < |modes|
      ensures MeshAt(modes, waits, i, radio) <==> MeshReported(modes, waits, i, radio)
      ensures TerminatedAt(modes, waits, i, radio) <==> EndReported(modes, waits, i, radio)
    {
    }
    hide EventAt, MeshAt, TerminatedAt, MeshReported, EndReported;
  }

  lemma ReturnsBy(modes: seq<string>, waits: seq<Wait>)
    requires modes != [] && AllPossible(waits, |modes|)
    ensures Run(modes, waits).returned <==>
              exists i: nat, j: nat, k: nat, radio: nat ::
                i < j < k < |waits| && radio < |modes| && MeshAt(modes, waits, i, radio)
                && TerminatedAt(modes, waits, j, radio) && EventAt(waits, k) != NoEvent
  {
    hide Run, MeshAt, EventAt;
    RunTold(modes, waits, |waits|);
    assert waits[..|waits|] == waits;
    if OverBy(modes, waits, |waits|) {
      var k: nat :| k < |waits| && OverAt(modes, waits, k);
      var j: nat :| j < k && EndsAt(modes, waits, j);
      SpeakerBound(|modes|, waits, j);
      var radio := Speaker(|modes|, waits, j);
      var i: nat :| i < j && MeshAt(modes, waits, i, radio);
      assert TerminatedAt(modes, waits, j, radio);
    }
    forall i: nat, j: nat, k: nat, radio: nat |
      i < j < k < |waits| && radio < |modes| && MeshAt(modes, waits, i, radio)
      && TerminatedAt(modes, waits, j, radio) && EventAt(waits, k) != NoEvent
      ensures OverBy(modes, waits, |waits|)
    {
      assert MeshBy(modes, waits, radio, j);
      assert EndsAt(modes, waits, j);
      assert DownBy(modes, waits, k);
      assert OverAt(modes, waits, k);
    }
  }

  // --- the loop itself ---

  datatype Action = InitHandler | InitStage2Handler | TerminateHandler | DisconnectedHandler | ConnectedHandler | NoHandler
  datatype Rule = Rule(state: State, event: Event, action: Action)

  const RULES: seq<Rule> := [
    Rule(Init, Startup, InitHandler),
    Rule(IfInitStage1, StartupStage2, InitStage2Handler),
    Rule(IfUp, Terminate, TerminateHandler),
    Rule(Disconnected, ConnectedEvent, DisconnectedHandler),
    Rule(Connected, DisconnectedEvent, ConnectedHandler),
    Rule(Unknown, NoEvent, NoHandler)
  ]

  // The search for a rule, and the handler's result.
  method Handle(mode: string, s: State, e: Event) returns (to: State)
    requires e != NoEvent
    ensures to == React(mode, s, e)
  {
    var i := 0;
    while RULES[i].action != NoHandler
      invariant 0 <= i <= 5
      invariant i > 0 ==> !(s == Init && e == Startup)
      invariant i > 1 ==> !(s == IfInitStage1 && e == StartupStage2)
      invariant i > 2 ==> !(s == IfUp && e == Terminate)
      invariant i > 3 ==> !(s == Disconnected && e == ConnectedEvent)
      invariant i > 4 ==> !(s == Connected && e == DisconnectedEvent)
      decreases 5 - i
    {
      if RULES[i].event == e && RULES[i].state == s {
        break;
      }
      i := i + 1;
    }
    match RULES[i].action {
      case InitHandler => to := if "ap" <= mode || "sta" <= mode || "mesh" <= mode then IfInitStage1 else Unknown;
      case InitStage2Handler => to := IfUp;
      case TerminateHandler => to := Shutdown;
      case DisconnectedHandler => to := Disconnected;
      case ConnectedHandler => to := Connected;
      case NoHandler => to := s;
    }
  }

  class WifiHal {
    const modes: seq<string>
    const state: array<State>
    ghost var log: seq<Handled>

    // One slot for each radio there can be; a slot without a radio is zero, which is not Init.
    ghost predicate Valid()
      reads this, state
    {
      && 1 <= |modes| <= WIFI_RADIO_MAX == state.Length
      && forall i :: |modes| <= i < state.Length ==> state[i] == IfDown
    }

    constructor (modes: seq<string>)
      requires 1 <= |modes| <= WIFI_RADIO_MAX
      ensures Valid() && this.modes == modes && log == [] && fresh(state)
    {
      this.modes := modes;
      state := new State[WIFI_RADIO_MAX](_ => IfDown);
      log := [];
    }

    method AnyShutdown() returns (any: bool)
      requires Valid()
      ensures any <==> SomeShutdown(state[..|modes|])
    {
      any := false;
      for i := 0 to |modes|
        invariant forall k :: 0 <= k < i ==> state[k] != Shutdown
      {
        if state[i] == Shutdown {
          assert state[..|modes|][i] == Shutdown;
          return true;
        }
      }
    }

    // The first part of wifi_events: every radio is given its first state and event, and then
    // started in turn, up to the first slot that is not in its first state.
    method StartRadios(pending: array<Event>) returns (index: nat)
      requires Valid() && pending.Length == WIFI_RADIO_MAX
      modifies this, state, pending
      ensures Valid() && index == |modes| - 1
      ensures state[..|modes|] == Ready(modes).states && log == StartLog(modes)
    {
      hide React;
      for i := 0 to |modes|
        invariant Valid()
        invariant forall k :: 0 <= k < i ==> state[k] == Init && pending[k] == Startup
      {
        state[i] := Init;
        pending[i] := Startup;
      }
      log := [];
      var last := -1;
      while last + 1 < WIFI_RADIO_MAX && state[last + 1] == Init
        invariant Valid() && -1 <= last < |modes|
        invariant forall k :: 0 <= k <= last ==> state[k] == Started(modes[k])
        invariant forall k :: last < k < |modes| ==> state[k] == Init && pending[k] == Startup
        invariant log == StartLog(modes)[..last + 1]
        decreases |modes| - last
      {
        last := last + 1;
        var to := Handle(modes[last], state[last], pending[last]);
        StartReaction(modes[last]);
        log := log + [Handled(last, pending[last], state[last], to)];
        state[last] := to;
      }
      index := last;
    }

    // wifi_events, until it returns or has used up what there is to wait for.
    method WifiEvents(waits: seq<Wait>) returns (returned: bool, ghost taken: nat)
      requires Valid() && AllPossible(waits, |modes|)
      modifies this, state
      ensures Valid() && taken <= |waits|
      ensures var m := Run(modes, waits[..taken]);
              state[..|modes|] == m.states && log == m.log && returned == m.returned
      ensures !returned ==> taken == |waits|
    {
      hide Run, Ready, EventOf, TextOf, RadioOf, SomeShutdown, React;
      var pending := new Event[WIFI_RADIO_MAX](_ => NoEvent);
      var radio: nat := StartRadios(pending);
      ReadyRuns(modes, waits);
      taken := 0;
      returned := false;
      var j := 0;
      while j < |waits|
        invariant Valid() && fresh(pending) && radio < |modes| && taken == j <= |waits| && !returned
        invariant AllPossible(waits[..j], |modes|)
        invariant Run(modes, waits[..j]) == Machine(state[..|modes|], radio, false, log)
      {
        RunSnoc(modes, waits, j);
        ghost var before := state[..|modes|];
        radio := RadioOf(waits[j], radio);
        pending[radio] := EventOf(TextOf(waits[j]));
        j := j + 1;
        taken := j;
        if pending[radio] != NoEvent {
          returned := AnyShutdown();
          if returned {
            return;
          }
          var to := Handle(modes[radio], state[radio], pending[radio]);
          log := log + [Handled(radio, pending[radio], state[radio], to)];
          state[radio] := to;
          assert state[..|modes|] == before[radio := to];
        }
      }
      assert waits[..j] == waits;
    }
  }

  lemma ReadyRuns(modes: seq<string>, waits: seq<Wait>)
    requires modes != []
    ensures AllPossible(waits[..0], |modes|) && Run(modes, waits[..0]) == Ready(modes)
    ensures Ready(modes) == Machine(Ready(modes).states, |modes| - 1, false, StartLog(modes))
  {
  }

  lemma RunSnoc(modes: seq<string>, waits: seq<Wait>, j: nat)
    requires modes != [] && AllPossible(waits, |modes|) && j < |waits|
    ensures AllPossible(waits[..j], |modes|) && AllPossible(waits[..j + 1], |modes|)
    ensures Run(modes, waits[..j + 1]) == Listen(Run(modes, waits[..j]), modes, waits[j])
  {
    hide Listen;
    assert waits[..j + 1][..j] == waits[..j];
  }
}
