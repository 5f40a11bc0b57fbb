/** The modem life cycle: process_modem_state_message and the loop of main, common/apps/modem_control/main.c. */
module ModemManager {
  import opened Sequences

  /** `MODEM_STA_E`. */
  datatype State = Shutdown | Boot | Init | Alive | Assert | BootComp

  /** What the manager does to the world: calls modem_boot, or broadcasts to its clients. */
  datatype Event = ModemBoot | AliveBroadcast | AssertBroadcast

  /** One pass of the loop reads the state file: nothing, or a number (bit 0 alive, the rest reset). */
  datatype Reading = Nothing | Mask(mask: int)

  const UNKNOWN := 0xFF
  const NAND := 0
  const FLASH_LESS := 1
  const FLASH_LESS_SEEN := 2

  /** The globals, the events so far, and how often `first_alive` was set. */
  datatype Manager = Manager(state: State, flashLess: int, events: seq<Event>, firstAlives: nat)

  // ---- Specification ----

  /** What one state makes of the alive and reset values: the next state and a broadcast. */
  function React(state: State, alive: bool, reset: nat): (State, seq<Event>) {
    match state
    case Init => (if reset != 0 then Init else if alive then Alive else Boot, [])
    case Assert => (if reset == 1 then Boot else Assert, [])
    case BootComp => if reset == 0 && alive then (Alive, [AliveBroadcast]) else (BootComp, [])
    case Alive =>
      (if reset == 1 then Boot else if alive then Alive else Assert, if alive then [] else [AssertBroadcast])
    case Shutdown => (state, [])
    case Boot => (state, [])
  }

  /** The type of modem, learned from the first messages. */
  function Learn(flashLess: int, alive: bool): int {
    if flashLess == UNKNOWN then (if alive then NAND else FLASH_LESS)
    else if flashLess == FLASH_LESS && alive then FLASH_LESS_SEEN
    else flashLess
  }

  function Handle(m: Manager, mask: int): Manager {
    if mask < 0 then m
    else
      var alive := mask % 2 == 1;
      var (state, events) := React(m.state, alive, mask / 2);
      var first := alive && (m.flashLess == UNKNOWN || m.flashLess == FLASH_LESS);
      Manager(state, Learn(m.flashLess, alive), m.events + events, m.firstAlives + if first then 1 else 0)
  }

  /** One pass of the loop. */
  function Pass(m: Manager, r: Reading): Manager {
    var m' := if r.Mask? then Handle(m, r.mask) else m;
    if m'.state == Boot then m'.(state := BootComp, events := m'.events + [ModemBoot]) else m'
  }

  const START := Manager(Init, UNKNOWN, [], 0)

  /** The manager after a run of passes. */
  function Run(readings: seq<Reading>): Manager {
    if readings == [] then START else Pass(Run(readings[..|readings| - 1]), readings[|readings| - 1])
  }

  // ---- The order of events ----

  /** May `e` come right after these events? Alive only answers a boot, and a boot is never repeated unanswered. */
  predicate MayFollow(before: seq<Event>, e: Event) {
    match e
    case ModemBoot => before == [] || before[|before| - 1] != ModemBoot
    case AliveBroadcast => before != [] && before[|before| - 1] == ModemBoot
    case AssertBroadcast => before == [] || before[|before| - 1] == AliveBroadcast
  }

  ghost predicate LifeCycle(events: seq<Event>) {
    forall i :: 0 <= i < |events| ==> MayFollow(events[..i], events[i])
  }

  /** The events so far and the state at the loop head determine each other this far. */
  ghost predicate AtHead(m: Manager) {
    && LifeCycle(m.events) && Learned(m)
    && StateFits(m.state, m.events)
  }

  ghost predicate StateFits(state: State, events: seq<Event>) {
    match state
    case Shutdown => false
    case Boot => MayFollow(events, ModemBoot)
    case Init => events == []
    case Alive => events == [] || events[|events| - 1] == AliveBroadcast
    case Assert => events != [] && events[|events| - 1] == AssertBroadcast
    case BootComp => events != [] && events[|events| - 1] == ModemBoot
  }

  ghost predicate Learned(m: Manager) {
    && (m.flashLess == UNKNOWN || m.flashLess == NAND || m.flashLess == FLASH_LESS || m.flashLess == FLASH_LESS_SEEN)
    && m.firstAlives == if m.flashLess == NAND || m.flashLess == FLASH_LESS_SEEN then 1 else 0
  }

  lemma Extend(events: seq<Event>, e: Event)
    requires LifeCycle(events) && MayFollow(events, e)
    ensures LifeCycle(events + [e])
  {
    forall i | 0 <= i < |events + [e]| ensures MayFollow((events + [e])[..i], (events + [e])[i]) {
      assert (events + [e])[..i] == events[..i];
      if i == |events| {
        assert events[..i] == events;
      }
    }
  }

  lemma ReactFits(state: State, before: seq<Event>, alive: bool, reset: nat)
    requires StateFits(state, before)
    ensures var (state', events) := React(state, alive, reset);
            && (events == [] || (events == [events[0]] && MayFollow(before, events[0])))
            && StateFits(state', before + events)
            && (state' == Init ==> state == Init)
  {
    var (state', events) := React(state, alive, reset);
    if events == [] {
      assert before + events == before;
    } else {
      assert (before + events)[|before|] == events[0];
    }
  }

  lemma HandleKeeps(m: Manager, mask: int)
    requires AtHead(m)
    ensures AtHead(Handle(m, mask))
    ensures Handle(m, mask).state == Init ==> m.state == Init
  {
    hide LifeCycle, StateFits, React, MayFollow;
    if mask >= 0 {
      ReactFits(m.state, m.events, mask % 2 == 1, mask / 2);
      var (state, events) := React(m.state, mask % 2 == 1, mask / 2);
      if events == [] {
        assert m.events + events == m.events;
      } else {
        Extend(m.events, events[0]);
      }
    }
  }

  /** At a loop head the state is never BOOT, and never INIT again. */
  lemma PassKeeps(m: Manager, r: Reading)
    requires AtHead(m)
    ensures AtHead(Pass(m, r)) && Pass(m, r).state != Boot
    ensures Pass(m, r).state == Init ==> m.state == Init
  {
    hide Handle, LifeCycle;
    var m' := if r.Mask? then Handle(m, r.mask) else m;
    if r.Mask? {
      HandleKeeps(m, r.mask);
    }
    assert StateFits(m'.state, m'.events);
    if m'.state == Boot {
      Extend(m'.events, ModemBoot);
      assert (m'.events + [ModemBoot])[|m'.events|] == ModemBoot;
    }
  }

  /** In every run the events follow the life cycle, and `first_alive` is set at most once. */
  lemma {:induction false} RunKeeps(readings: seq<Reading>)
    ensures AtHead(Run(readings)) && Run(readings).state != Boot
    ensures Run(readings).firstAlives <= 1
  {
    if readings != [] {
      RunKeeps(readings[..|readings| - 1]);
      PassKeeps(Run(readings[..|readings| - 1]), readings[|readings| - 1]);
    }
  }

  /**
    Which number brings what, at any pass of a run. 0: neither alive nor reset, 1: alive, 2: reset, 3:
    both; a negative number, or none, changes nothing.
  */
  lemma PassLaw(readings: seq<Reading>)
    requires readings != []
    ensures var was, now, r := Run(readings[..|readings| - 1]), Run(readings), readings[|readings| - 1];
            var (news, next) :=
              if r.Nothing? || r.mask < 0 then ([], was.state)
              else if was.state == Init then
                if r.mask == 0 then ([ModemBoot], BootComp) else if r.mask == 1 then ([], Alive) else ([], Init)
              else if was.state == BootComp then
                if r.mask == 1 then ([AliveBroadcast], Alive) else ([], BootComp)
              else if was.state == Alive then
                if r.mask == 2 then ([AssertBroadcast, ModemBoot], BootComp)
                else if r.mask == 3 then ([ModemBoot], BootComp)
                else if r.mask % 2 == 0 then ([AssertBroadcast], Assert)
                else ([], Alive)
              else if r.mask == 2 || r.mask == 3 then ([ModemBoot], BootComp) else ([], Assert);
            now.state == next && now.events == was.events + news
  {
    hide Run, AtHead, LifeCycle, Learn, Learned, StateFits, MayFollow;
    var was, r := Run(readings[..|readings| - 1]), readings[|readings| - 1];
    RunKeeps(readings[..|readings| - 1]);
    HeadStates(was);
    LastPass(readings);
    NewsAppend(was.events);
    if r.Mask? && r.mask >= 0 {
      match was.state {
        case Init =>
        case BootComp =>
        case Alive =>
        case _ =>
      }
    }
  }

  lemma NewsAppend(events: seq<Event>)
    ensures events + [] == events
    ensures (events + [AssertBroadcast]) + [ModemBoot] == events + [AssertBroadcast, ModemBoot]
  {
  }

  lemma HeadStates(m: Manager)
    requires AtHead(m) && m.state != Boot
    ensures m.state in {Init, Alive, Assert, BootComp}
  {
  }

  lemma LastPass(readings: seq<Reading>)
    requires readings != []
    ensures Run(readings) == Pass(Run(readings[..|readings| - 1]), readings[|readings| - 1])
  {
  }

  /** A number with the alive bit. */
  predicate ShowsAlive(r: Reading) {
    r.Mask? && r.mask >= 0 && r.mask % 2 == 1
  }

  /** The first alive is seen exactly when a number with the alive bit has been read. */
  lemma FirstAliveIff(readings: seq<Reading>)
    ensures Run(readings).firstAlives == 1 <==> exists k :: 0 <= k < |readings| && ShowsAlive(readings[k])
  {
    hide Run, ShowsAlive, LifeCycle, StateFits;
    FirstAliveLearned(readings);
    RunKeeps(readings);
  }

  lemma {:induction false} FirstAliveLearned(readings: seq<Reading>)
    ensures Run(readings).flashLess in {NAND, FLASH_LESS_SEEN} <==> exists k :: 0 <= k < |readings| && ShowsAlive(readings[k])
  {
    hide Pass, ShowsAlive, LifeCycle, StateFits;
    if readings != [] {
      var front, r := readings[..|readings| - 1], readings[|readings| - 1];
      FirstAliveLearned(front);
      RunKeeps(front);
      LearnStep(Run(front), r);
      AliveInFront(readings);
    }
  }

  lemma LearnStep(m: Manager, r: Reading)
    requires Learned(m)
    ensures Pass(m, r).flashLess in {NAND, FLASH_LESS_SEEN} <==> m.flashLess in {NAND, FLASH_LESS_SEEN} || ShowsAlive(r)
  {
    hide React;
  }

  lemma AliveInFront(readings: seq<Reading>)
    requires readings != []
    ensures var n := |readings| - 1;
            (exists k :: 0 <= k < |readings| && ShowsAlive(readings[k]))
            <==> (exists k :: 0 <= k < n && ShowsAlive(readings[..n][k])) || ShowsAlive(readings[n])
  {
    hide ShowsAlive;
    var n := |readings| - 1;
    assert forall k :: 0 <= k < n ==> readings[..n][k] == readings[k];
  }

  /** INIT and SHUTDOWN are never entered again: a run that is in INIT has been there all along. */
  lemma {:induction false} InitIsNeverReentered(readings: seq<Reading>, k: nat)
    requires k <= |readings|
    ensures Run(readings).state != Shutdown
    ensures Run(readings).state == Init ==> Run(readings[..k]).state == Init
    decreases |readings|
  {
    hide Run, Pass, AtHead;
    RunKeeps(readings);
    HeadStates(Run(readings));
    if k == |readings| {
      assert readings[..k] == readings;
    } else {
      var front := readings[..|readings| - 1];
      RunKeeps(front);
      LastPass(readings);
      PassKeeps(Run(front), readings[|readings| - 1]);
      InitIsNeverReentered(front, k);
      assert front[..k] == readings[..k];
    }
  }

  // ---- What the life cycle means ----

  /** Every boot is answered by one Alive broadcast, except perhaps the last. */
  lemma {:induction false} BootsAreAnswered(events: seq<Event>)
    requires LifeCycle(events)
    ensures Number(events, ModemBoot)
            == Number(events, AliveBroadcast) + if events != [] && events[|events| - 1] == ModemBoot then 1 else 0
  {
    if events != [] {
      var front := events[..|events| - 1];
      assert forall i :: 0 <= i < |front| ==> front[..i] == events[..i];
      BootsAreAnswered(front);
      assert MayFollow(events[..|events| - 1], events[|events| - 1]);
    }
  }

  /** So at a loop head the calls of modem_boot outnumber the Alive broadcasts exactly in BOOTCOMP. */
  lemma BootsMatchAlives(readings: seq<Reading>)
    ensures var m := Run(readings);
            Number(m.events, ModemBoot)
            == Number(m.events, AliveBroadcast) + if m.state == BootComp then 1 else 0
  {
    RunKeeps(readings);
    BootsAreAnswered(Run(readings).events);
  }

  /** Any two assert broadcasts have an Alive broadcast between them, indeed right before the second. */
  lemma AssertsAreSeparated(readings: seq<Reading>, i: nat, j: nat)
    requires i < j < |Run(readings).events|
    requires Run(readings).events[i] == Run(readings).events[j] == AssertBroadcast
    ensures i < j - 1 && Run(readings).events[j - 1] == AliveBroadcast
  {
    hide Run;
    RunKeeps(readings);
    var events := Run(readings).events;
    assert MayFollow(events[..j], events[j]);
    assert events[..j][j - 1] == events[j - 1];
  }

  // ---- The life cycle is complete: every sequence of events that obeys it is produced by some run ----

  /** How the messages bring about the next event. A running modem asserts with 0 and resets with 2 or 3. */
  function Provoke(m: Manager, e: Event): seq<Reading> {
    match e
    case ModemBoot => [Mask(if m.state == Init then 0 else if m.state == Assert then 2 else 3)]
    case AliveBroadcast => [Mask(1)]
    case AssertBroadcast => if m.state == Init then [Mask(1), Mask(0)] else [Mask(0)]
  }

  lemma RunAppend(readings: seq<Reading>, r: Reading)
    ensures Run(readings + [r]) == Pass(Run(readings), r)
  {
    assert (readings + [r])[..|readings|] == readings;
  }

  /** One message more, or two from INIT. */
  lemma ProvokedStep(m: Manager, e: Event)
    requires StateFits(m.state, m.events) && m.state != Boot && MayFollow(m.events, e)
    requires m.events == [] ==> m.state == Init
    ensures var p := Provoke(m, e);
            |p| == 1 || |p| == 2
    ensures var p := Provoke(m, e);
            (if |p| == 1 then Pass(m, p[0]) else Pass(Pass(m, p[0]), p[1])).events == m.events + [e]
  {
  }

  /** No run is stuck: after any event, and at the start, every event the life cycle allows can come next. */
  lemma Provoked(readings: seq<Reading>, e: Event)
    requires MayFollow(Run(readings).events, e)
    requires Run(readings).events == [] ==> Run(readings).state == Init
    ensures Run(readings + Provoke(Run(readings), e)).events == Run(readings).events + [e]
  {
    RunKeeps(readings);
    hide LifeCycle, Pass, Run, MayFollow, Provoke;
    var p := Provoke(Run(readings), e);
    ProvokedStep(Run(readings), e);
    RunAppend(readings, p[0]);
    if |p| == 2 {
      RunAppend(readings + [p[0]], p[1]);
      assert readings + [p[0]] + [p[1]] == readings + p;
    } else {
      assert [p[0]] == p;
    }
  }

  /** The event sequences of runs are exactly the life cycles. */
  lemma {:induction false} EveryLifeCycleHappens(events: seq<Event>) returns (readings: seq<Reading>)
    requires LifeCycle(events)
    ensures Run(readings).events == events
    ensures events == [] ==> readings == []
  {
    if events == [] {
      readings := [];
    } else {
      var front := events[..|events| - 1];
      assert forall i :: 0 <= i < |front| ==> front[..i] == events[..i];
      readings := EveryLifeCycleHappens(front);
      assert MayFollow(events[..|events| - 1], events[|events| - 1]);
      Provoked(readings, events[|events| - 1]);
      readings := readings + Provoke(Run(readings), events[|events| - 1]);
      assert events == front + [events[|events| - 1]];
    }
  }

  lemma EventsOfRuns(events: seq<Event>)
    ensures LifeCycle(events) <==> exists readings :: Run(readings).events == events
  {
    if LifeCycle(events) {
      var readings := EveryLifeCycleHappens(events);
    }
    forall readings | Run(readings).events == events ensures LifeCycle(events) {
      RunKeeps(readings);
    }
  }

  // ---- The program ----

  class ModemControl {
    var modemState: State
    var flashLessFlag: int
    ghost var events: seq<Event>
    ghost var firstAlives: nat

    ghost function View(): Manager
      reads this
    {
      Manager(modemState, flashLessFlag, events, firstAlives)
    }

    /** main up to its loop. */
    constructor ()
      ensures View() == START
    {
      modemState, flashLessFlag := Init, UNKNOWN;
      events, firstAlives := [], 0;
    }

    ghost method Emit(e: Event)
      modifies this`events
      ensures events == old(events) + [e]
    {
      events := events + [e];
    }

    method ProcessModemStateMessage(ret: int)
      modifies this
      ensures View() == Handle(old(View()), ret)
    {
      if ret < 0 {
        return;
      }
      var aliveStatus, resetStatus := ret % 2, ret / 2;
      if flashLessFlag == UNKNOWN {
        if aliveStatus == 1 {
          flashLessFlag := NAND;
          firstAlives := firstAlives + 1;
        } else {
          flashLessFlag := FLASH_LESS;
        }
      } else if flashLessFlag == FLASH_LESS {
        if aliveStatus == 1 {
          flashLessFlag := FLASH_LESS_SEEN;
          firstAlives := firstAlives + 1;
        }
      }
      match modemState {
        case Shutdown =>
        case Init =>
          if resetStatus == 0 {
            if aliveStatus == 1 {
              modemState := Alive;
            } else {
              modemState := Boot;
            }
          }
        case Assert =>
          if resetStatus == 1 {
            modemState := Boot;
          }
        case BootComp =>
          if resetStatus == 0 {
            if aliveStatus == 1 {
              modemState := Alive;
              Emit(AliveBroadcast);
            }
          }
        case Alive =>
          if aliveStatus == 0 {
            modemState := Assert;
            Emit(AssertBroadcast);
          }
          if resetStatus == 1 {
            modemState := Boot;
          }
        case Boot =>
      }
    }

    /** The loop of main, over any finite run of readings. */
    method Loop(readings: seq<Reading>)
      requires View() == START
      modifies this
      ensures View() == Run(readings)
    {
      var n := 0;
      while n < |readings|
        invariant 0 <= n <= |readings|
        invariant View() == Run(readings[..n])
      {
        assert readings[..n + 1][..n] == readings[..n];
        match readings[n] {
          case Nothing =>
          case Mask(mask) => ProcessModemStateMessage(mask);
        }
        if modemState == Boot {
          Emit(ModemBoot);
          modemState := BootComp;
        }
        n := n + 1;
      }
      assert readings[..n] == readings;
    }
  }
}
