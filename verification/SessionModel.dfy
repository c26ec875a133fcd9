/**
 The life of a session as a step system: starting, event sources coming and going, the idle check that
 ends a run. The state holds the session's fields, the main loop's side of them, and a log of events
 that the promises about whole runs are stated on.
 */
module SessionModel {
  import opened Wrappers
  import TriggerSearch
  import opened Datafeed
  import opened ReturnCodes

  type Key = nat

  /** An event source: the key it is known by, and a number that tells it from all others. */
  datatype Source = Source(key: Key, serial: nat)

  datatype Event =
    | Started                      // sr_session_start succeeded
    | Stopped                      // the idle check ended the run
    | StartCalled(device: nat)     // a driver's start callback was invoked
    | StopCalled(device: nat)
    | Added(source: Source)        // adding a source succeeded
    | Finalized(source: Source)    // a source's last reference was dropped

  datatype State = State(
    running: bool,
    context: bool,               // main_context is set
    stopCheckId: nat,            // 0 when no check is installed
    sources: map<Key, Source>,   // event_sources
    idle: seq<nat>,              // the idle checks that the main loop has queued
    nextId: nat,                 // the id that the main loop gives to the next source
    attached: set<Source>,       // sources that the main loop holds
    live: set<Source>,           // sources that are not finalized
    nextSerial: nat,
    events: seq<Event>)

  const Initial := State(false, false, 0, map[], [], 1, {}, {}, 0, [])

  // ----- Event sources -----

  /** What driver code and the main loop do to event sources. */
  datatype Action =
    | Add(key: Key)            // sr_session_fd_source_add
    | Remove(key: Key)         // sr_session_source_remove_internal
    | Destroy(source: Source)  // a source's callback asked for its removal
    | Finalize(source: Source) // the last reference to a destroyed source goes

  function Log(s: State, e: Event): State {
    s.(events := s.events + [e])
  }

  /** A check is queued unless there is one, or no main context to queue it in. */
  function WithCheck(s: State): State {
    if s.stopCheckId != 0 || !s.context then s
    else s.(stopCheckId := s.nextId, idle := s.idle + [s.nextId], nextId := s.nextId + 1)
  }

  function Unregistered(s: State, source: Source): State {
    if source.key !in s.sources || s.sources[source.key] != source then s
    else
      var t := s.(sources := s.sources - {source.key});
      if t.sources == map[] then WithCheck(t) else t
  }

  /** A source that is added, or one that is turned away and finalized without a trace in the table. */
  function AddSource(s: State, key: Key): (State, int) {
    var source := Source(key, s.nextSerial);
    var t := s.(nextSerial := s.nextSerial + 1);
    if key in s.sources then
      (Log(t, Finalized(source)), SR_ERR_BUG)
    else if !s.context then
      (Log(t, Finalized(source)), SR_ERR)
    else
      (Log(t.(sources := t.sources[key := source], nextId := t.nextId + 1,
              attached := t.attached + {source}, live := t.live + {source}), Added(source)), SR_OK)
  }

  function Act(s: State, action: Action): State {
    match action
    case Add(key) => AddSource(s, key).0
    case Remove(key) => if key in s.sources then s.(attached := s.attached - {s.sources[key]}) else s
    case Destroy(source) => s.(attached := s.attached - {source})
    case Finalize(source) =>
      if source !in s.live || source in s.attached then s
      else Unregistered(Log(s.(live := s.live - {source}), Finalized(source)), source)
  }

  /** The actions of one driver callback, in order. */
  function ActAll(s: State, actions: seq<Action>): State
    decreases |actions|
  {
    if actions == [] then s else ActAll(Act(s, actions[0]), actions[1..])
  }

  // ----- Devices -----

  /** A device, and what its driver's callbacks will return and do when they are called. */
  datatype Device = Device(
    name: nat, hasDriver: bool, active: bool, channelsEnabled: seq<bool>,
    commitRc: Option<int>, startRc: int, onStart: seq<Action>, onStop: seq<Action>)

  predicate CallsBack(d: Device) {
    d.hasDriver && d.active
  }

  /** The devices of a list whose drivers are called. */
  function Called(devs: seq<Device>): seq<nat> {
    if devs == [] then []
    else (if CallsBack(devs[0]) then [devs[0].name] else []) + Called(devs[1..])
  }

  /** sr_dev_acquisition_start */
  function StartDevice(s: State, d: Device): (State, int) {
    if !d.hasDriver then (s, SR_ERR_ARG)
    else if !d.active then (s, SR_ERR_DEV_CLOSED)
    else (ActAll(Log(s, StartCalled(d.name)), d.onStart), d.startRc)
  }

  /** sr_dev_acquisition_stop */
  function StopDevice(s: State, d: Device): State {
    if CallsBack(d) then ActAll(Log(s, StopCalled(d.name)), d.onStop) else s
  }

  /** Devices are started in order up to the first that fails; the last part says how many were tried. */
  function StartDevices(s: State, devs: seq<Device>): (State, int, nat)
    decreases |devs|
  {
    if devs == [] then
      (s, SR_OK, 0)
    else
      var (t, rc) := StartDevice(s, devs[0]);
      if rc != SR_OK then (t, rc, 1)
      else
        var (u, last, n) := StartDevices(t, devs[1..]);
        (u, last, n + 1)
  }

  lemma {:induction false} TriedBound(s: State, devs: seq<Device>)
    ensures StartDevices(s, devs).2 <= |devs|
    ensures StartDevices(s, devs).1 != SR_OK ==> StartDevices(s, devs).2 > 0
    decreases |devs|
  {
    if devs != [] && StartDevice(s, devs[0]).1 == SR_OK {
      TriedBound(StartDevice(s, devs[0]).0, devs[1..]);
    }
  }

  function StopDevices(s: State, devs: seq<Device>): State
    decreases |devs|
  {
    if devs == [] then s else StopDevices(StopDevice(s, devs[0]), devs[1..])
  }

  // ----- Triggers -----

  /** A match of a trigger as the client built it; its channel or its kind may be missing. */
  datatype TriggerMatch = TriggerMatch(channel: Option<Channel>, kind: Option<TriggerSearch.MatchKind>)
  type TriggerStage = seq<TriggerMatch>

  predicate IsComplete(m: TriggerMatch) {
    m.channel.Some? && m.kind.Some?
  }

  predicate StageIsComplete(stage: TriggerStage) {
    stage != [] && forall m <- stage :: IsComplete(m)
  }

  /** What verify_trigger accepts. */
  predicate TriggerIsComplete(trigger: seq<TriggerStage>) {
    trigger != [] && forall stage <- trigger :: StageIsComplete(stage)
  }

  /** The stages that the software trigger is created with. */
  function StageOf(stage: TriggerStage): TriggerSearch.Stage
    requires StageIsComplete(stage)
  {
    seq(|stage|, i requires 0 <= i < |stage| =>
      assert IsComplete(stage[i]);
      TriggerSearch.Match(stage[i].channel.value, stage[i].kind.value))
  }

  function StagesOf(trigger: seq<TriggerStage>): seq<TriggerSearch.Stage>
    requires TriggerIsComplete(trigger)
  {
    seq(|trigger|, i requires 0 <= i < |trigger| => assert StageIsComplete(trigger[i]); StageOf(trigger[i]))
  }

  predicate SameStage(ms: TriggerStage, stage: TriggerSearch.Stage) {
    && |stage| == |ms|
    && forall j :: 0 <= j < |stage| ==> ms[j] == TriggerMatch(Some(stage[j].channel), Some(stage[j].kind))
  }

  /** Stage for stage and match for match, the stages are those of the trigger. */
  predicate SameTrigger(trigger: seq<TriggerStage>, stages: seq<TriggerSearch.Stage>) {
    && |stages| == |trigger|
    && forall i :: 0 <= i < |stages| ==> SameStage(trigger[i], stages[i])
  }

  /** A session that starts with a trigger gives the software trigger what its search relies on. */
  lemma CompleteIsVerified(trigger: seq<TriggerStage>)
    requires TriggerIsComplete(trigger)
    ensures TriggerSearch.Verified(StagesOf(trigger)) && SameTrigger(trigger, StagesOf(trigger))
  {
    forall i | 0 <= i < |trigger| ensures SameStage(trigger[i], StagesOf(trigger)[i]) {
      assert StageIsComplete(trigger[i]);
      forall j | 0 <= j < |trigger[i]|
        ensures trigger[i][j] == TriggerMatch(Some(StageOf(trigger[i])[j].channel), Some(StageOf(trigger[i])[j].kind))
      {
        assert IsComplete(trigger[i][j]);
      }
    }
    forall stage | stage in StagesOf(trigger) ensures stage != [] {
      var i :| 0 <= i < |trigger| && stage == StagesOf(trigger)[i];
      assert StageIsComplete(trigger[i]);
      assert |stage| == |trigger[i]|;
    }
  }

  // ----- Starting and stopping -----

  function Commit(d: Device): int {
    if !d.hasDriver then SR_ERR
    else if d.commitRc.None? then SR_OK
    else if !d.active then SR_ERR_DEV_CLOSED
    else d.commitRc.value
  }

  /** Whether a device may take part in a run. */
  function DeviceCheck(d: Device): int {
    if true !in d.channelsEnabled then SR_ERR else Commit(d)
  }

  function DeviceChecks(devs: seq<Device>): int {
    if devs == [] then SR_OK
    else if DeviceCheck(devs[0]) != SR_OK then DeviceCheck(devs[0])
    else DeviceChecks(devs[1..])
  }

  /** What a start is refused for before anything changes. */
  function StartChecks(s: State, trigger: Option<seq<TriggerStage>>, devs: seq<Device>): int {
    if devs == [] then SR_ERR_ARG
    else if s.running then SR_ERR
    else if trigger.Some? && !TriggerIsComplete(trigger.value) then SR_ERR
    else if DeviceChecks(devs) != SR_OK then DeviceChecks(devs)
    else if s.context then SR_ERR
    else SR_OK
  }

  function Start(s: State, trigger: Option<seq<TriggerStage>>, devs: seq<Device>): (State, int) {
    if StartChecks(s, trigger, devs) != SR_OK then
      (s, StartChecks(s, trigger, devs))
    else
      var begun := s.(running := true, context := true);
      TriedBound(begun, devs);
      var (t, rc, tried) := StartDevices(begun, devs);
      if rc != SR_OK then
        (StopDevices(t, devs[..tried]).(running := false, context := false), rc)
      else
        (Log(if t.sources == map[] then WithCheck(t) else t, Started), SR_OK)
  }

  /** session_stop_sync */
  function StopSync(s: State, devs: seq<Device>): State {
    if s.running then StopDevices(s, devs) else s
  }

  /** The main loop runs the oldest idle check, if there is one: delayed_stop_check. */
  function DispatchCheck(s: State): State {
    if s.idle == [] then s
    else
      var t := s.(idle := s.idle[1..], stopCheckId := 0);
      if s.running && s.sources == map[] then Log(t.(running := false, context := false), Stopped) else t
  }

  // ----- Runs -----

  datatype Step =
    | DoStart(trigger: Option<seq<TriggerStage>>, devices: seq<Device>)
    | DoStop(devices: seq<Device>)
    | DoAct(action: Action)
    | DoCheck

  function Next(s: State, step: Step): State {
    match step
    case DoStart(trigger, devs) => Start(s, trigger, devs).0
    case DoStop(devs) => StopSync(s, devs)
    case DoAct(action) => Act(s, action)
    case DoCheck => DispatchCheck(s)
  }

  function Run(s: State, steps: seq<Step>): State
    decreases |steps|
  {
    if steps == [] then s else Run(Next(s, steps[0]), steps[1..])
  }

  // ----- What the log says -----

  /** Starts and stops alternate, beginning with a start; `running` tells which of them came last. */
  predicate Alternates(events: seq<Event>, running: bool) {
    if events == [] then !running
    else
      var init := events[..|events| - 1];
      match events[|events| - 1]
      case Started => running && Alternates(init, false)
      case Stopped => !running && Alternates(init, true)
      case _ => Alternates(init, running)
  }

  /** The source was added and is not finalized yet. */
  predicate Registered(events: seq<Event>, source: Source) {
    Added(source) in events && Finalized(source) !in events
  }

  function StartCalls(events: seq<Event>): seq<nat> {
    if events == [] then [] else
      var last := events[|events| - 1];
      StartCalls(events[..|events| - 1]) + if last.StartCalled? then [last.device] else []
  }

  function StopCalls(events: seq<Event>): seq<nat> {
    if events == [] then [] else
      var last := events[|events| - 1];
      StopCalls(events[..|events| - 1]) + if last.StopCalled? then [last.device] else []
  }

  // ----- The invariant -----

  ghost predicate CheckIsQueued(s: State) {
    && s.stopCheckId < s.nextId
    && s.idle == if s.stopCheckId == 0 then [] else [s.stopCheckId]
  }

  /** The table holds a source under its key exactly while the source is registered. */
  ghost predicate TableIsRegistry(s: State) {
    && (forall k :: k in s.sources ==> s.sources[k].key == k)
    && (forall x: Source :: Registered(s.events, x) <==> x.key in s.sources && s.sources[x.key] == x)
  }

  ghost predicate SourcesAreKnown(s: State) {
    && s.attached <= s.live
    && (forall x: Source :: x in s.live ==> Registered(s.events, x))
    && (forall x: Source :: Registered(s.events, x) ==> x in s.live)
    && (forall x: Source :: Added(x) in s.events || Finalized(x) in s.events ==> x.serial < s.nextSerial)
  }

  /** A run without event sources has a check coming. */
  ghost predicate EndIsNear(s: State) {
    s.running && s.sources == map[] ==> s.stopCheckId != 0
  }

  ghost predicate Sound(s: State) {
    CheckIsQueued(s) && TableIsRegistry(s) && SourcesAreKnown(s)
  }

  ghost predicate Inv(s: State) {
    && Sound(s) && EndIsNear(s)
    && s.running == s.context
    && Alternates(s.events, s.running)
  }

  // ----- Every action keeps the registry and the queued check sound -----

  lemma RegisteredAfter(events: seq<Event>, e: Event, x: Source)
    ensures Registered(events + [e], x) <==>
      if e == Finalized(x) then false
      else if e == Added(x) then Finalized(x) !in events
      else Registered(events, x)
  {
  }

  lemma WithCheckSound(s: State)
    requires Sound(s)
    ensures Sound(WithCheck(s))
    ensures s.running && s.context ==> WithCheck(s).stopCheckId != 0
  {
  }

  lemma RejectedSound(s: State, source: Source)
    requires Sound(s) && source.serial == s.nextSerial
    ensures Sound(Log(s.(nextSerial := s.nextSerial + 1), Finalized(source)))
  {
    forall x: Source
      ensures Registered(s.events + [Finalized(source)], x) <==> Registered(s.events, x)
    {
      RegisteredAfter(s.events, Finalized(source), x);
    }
  }

  lemma AcceptedSound(s: State, source: Source)
    requires Sound(s) && source.serial == s.nextSerial && source.key !in s.sources
    ensures Sound(Log(s.(sources := s.sources[source.key := source], nextId := s.nextId + 1, nextSerial := s.nextSerial + 1,
                         attached := s.attached + {source}, live := s.live + {source}), Added(source)))
  {
    forall x: Source
      ensures Registered(s.events + [Added(source)], x) <==> Registered(s.events, x) || x == source
    {
      RegisteredAfter(s.events, Added(source), x);
    }
  }

  lemma AddSound(s: State, key: Key)
    requires Sound(s)
    ensures Sound(AddSource(s, key).0)
  {
    var source := Source(key, s.nextSerial);
    RejectedSound(s, source);
    if key !in s.sources {
      AcceptedSound(s, source);
    }
  }

  /** Of the session only the entry of this source is gone, and a check may have been queued. */
  ghost predicate FinalizedAlone(s: State, t: State, source: Source) {
    && source.key in s.sources && s.sources[source.key] == source
    && t.sources == s.sources - {source.key} && t.live == s.live - {source}
    && t.attached == s.attached && t.running == s.running && t.context == s.context
    && t.nextSerial == s.nextSerial && t.events == s.events + [Finalized(source)]
    && (t.sources == map[] && s.context ==> t.stopCheckId != 0)
    && (t.sources != map[] || !s.context ==> t.stopCheckId == s.stopCheckId && t.idle == s.idle)
  }

  /** A finalizer takes exactly its own source out of the table, and has a check queued when the table is then empty. */
  lemma FinalizeSound(s: State, source: Source)
    requires Sound(s)
    ensures var t := Act(s, Finalize(source));
      && Sound(t)
      && (if source in s.live && source !in s.attached then FinalizedAlone(s, t, source) else t == s)
  {
    if source in s.live && source !in s.attached {
      var logged := Log(s.(live := s.live - {source}), Finalized(source));
      var t := logged.(sources := s.sources - {source.key});
      forall x: Source
        ensures Registered(t.events, x) <==> Registered(s.events, x) && x != source
      {
        RegisteredAfter(s.events, Finalized(source), x);
      }
      assert Registered(s.events, source);
      assert Sound(t);
      WithCheckSound(t);
    }
  }

  lemma ActSound(s: State, action: Action)
    requires Sound(s)
    ensures Sound(Act(s, action))
  {
    match action
    case Add(key) => AddSound(s, key);
    case Remove(_) =>
    case Destroy(_) =>
    case Finalize(source) => FinalizeSound(s, source);
  }

  // ----- What an action leaves alone -----

  ghost predicate EventCalls(before: seq<Event>, after: seq<Event>, starts: seq<nat>, stops: seq<nat>) {
    && Alternates(after, true) == Alternates(before, true) && Alternates(after, false) == Alternates(before, false)
    && StartCalls(after) == StartCalls(before) + starts && StopCalls(after) == StopCalls(before) + stops
  }

  /**
   Between the two states nothing happened to the run itself, and these drivers were told to start
   and to stop.
   */
  ghost predicate Calls(s: State, t: State, starts: seq<nat>, stops: seq<nat>) {
    t.running == s.running && t.context == s.context && EventCalls(s.events, t.events, starts, stops)
  }

  lemma CallsCompose(a: State, b: State, c: State, starts1: seq<nat>, stops1: seq<nat>, starts2: seq<nat>, stops2: seq<nat>)
    requires Calls(a, b, starts1, stops1) && Calls(b, c, starts2, stops2)
    ensures Calls(a, c, starts1 + starts2, stops1 + stops2)
  {
  }

  lemma EventIsCall(events: seq<Event>, e: Event)
    requires !e.Started? && !e.Stopped?
    ensures EventCalls(events, events + [e],
                       if e.StartCalled? then [e.device] else [], if e.StopCalled? then [e.device] else [])
  {
    assert (events + [e])[..|events|] == events;
  }

  lemma SameEventsQuiet(s: State, t: State)
    requires t.running == s.running && t.context == s.context && t.events == s.events
    ensures Calls(s, t, [], [])
  {
  }

  lemma SourceEventQuiet(s: State, t: State, e: Event)
    requires t.running == s.running && t.context == s.context && t.events == s.events + [e]
    requires e.Added? || e.Finalized?
    ensures Calls(s, t, [], [])
  {
    EventIsCall(s.events, e);
  }

  lemma ActQuiet(s: State, action: Action)
    ensures Calls(s, Act(s, action), [], [])
  {
    var t := Act(s, action);
    if t.events == s.events {
      SameEventsQuiet(s, t);
    } else {
      SourceEventQuiet(s, t, t.events[|s.events|]);
    }
  }

  lemma ActNearsEnd(s: State, action: Action)
    requires Sound(s) && EndIsNear(s) && (s.running ==> s.context)
    ensures EndIsNear(Act(s, action))
  {
    match action
    case Add(key) =>
      if key !in s.sources && s.context {
        assert key in AddSource(s, key).0.sources;
      }
    case Remove(_) =>
    case Destroy(_) =>
    case Finalize(source) =>
  }

  /** The actions of a callback, taken together. */
  lemma {:induction false} ActAllKeeps(s: State, actions: seq<Action>)
    requires Sound(s)
    ensures Sound(ActAll(s, actions)) && Calls(s, ActAll(s, actions), [], [])
    ensures EndIsNear(s) && (s.running ==> s.context) ==> EndIsNear(ActAll(s, actions))
    decreases |actions|
  {
    if actions != [] {
      var t := Act(s, actions[0]);
      ActSound(s, actions[0]);
      ActQuiet(s, actions[0]);
      if EndIsNear(s) && (s.running ==> s.context) {
        ActNearsEnd(s, actions[0]);
      }
      ActAllKeeps(t, actions[1..]);
      CallsCompose(s, t, ActAll(s, actions), [], [], [], []);
    }
  }

  // ----- Starting and stopping devices -----

  function NameIfCalled(d: Device): seq<nat> {
    if CallsBack(d) then [d.name] else []
  }

  lemma LogKeeps(s: State, e: Event)
    requires Sound(s) && (e.StartCalled? || e.StopCalled?)
    ensures Sound(Log(s, e))
    ensures Calls(s, Log(s, e), if e.StartCalled? then [e.device] else [], if e.StopCalled? then [e.device] else [])
  {
    EventIsCall(s.events, e);
    forall x: Source ensures Registered(s.events + [e], x) <==> Registered(s.events, x) {
      RegisteredAfter(s.events, e, x);
    }
  }

  lemma StartDeviceKeeps(s: State, d: Device)
    requires Sound(s)
    ensures Sound(StartDevice(s, d).0) && Calls(s, StartDevice(s, d).0, NameIfCalled(d), [])
    ensures StartDevice(s, d).1 == SR_OK ==> CallsBack(d)
  {
    if CallsBack(d) {
      var t := Log(s, StartCalled(d.name));
      LogKeeps(s, StartCalled(d.name));
      ActAllKeeps(t, d.onStart);
      CallsCompose(s, t, ActAll(t, d.onStart), [d.name], [], [], []);
    }
  }

  lemma CalledStep(devs: seq<Device>, n: nat)
    requires n < |devs|
    ensures Called(devs[..n + 1]) == NameIfCalled(devs[0]) + Called(devs[1..][..n])
  {
    assert devs[..n + 1][1..] == devs[1..][..n];
  }

  lemma {:induction false} StartDevicesKeeps(s: State, devs: seq<Device>)
    requires Sound(s)
    ensures var (t, rc, tried) := StartDevices(s, devs);
      tried <= |devs| && Sound(t) && Calls(s, t, Called(devs[..tried]), [])
    decreases |devs|
  {
    if devs != [] {
      var (t, rc) := StartDevice(s, devs[0]);
      StartDeviceKeeps(s, devs[0]);
      if rc == SR_OK {
        var (u, last, n) := StartDevices(t, devs[1..]);
        StartDevicesKeeps(t, devs[1..]);
        CalledStep(devs, n);
        CallsCompose(s, t, u, NameIfCalled(devs[0]), [], Called(devs[1..][..n]), []);
      } else {
        CalledStep(devs, 0);
      }
    }
  }

  lemma StopDeviceKeeps(s: State, d: Device)
    requires Sound(s)
    ensures Sound(StopDevice(s, d)) && Calls(s, StopDevice(s, d), [], NameIfCalled(d))
    ensures EndIsNear(s) && (s.running ==> s.context) ==> EndIsNear(StopDevice(s, d))
  {
    if CallsBack(d) {
      var t := Log(s, StopCalled(d.name));
      LogKeeps(s, StopCalled(d.name));
      ActAllKeeps(t, d.onStop);
      CallsCompose(s, t, ActAll(t, d.onStop), [], [d.name], [], []);
    }
  }

  lemma {:induction false} StopDevicesKeeps(s: State, devs: seq<Device>)
    requires Sound(s)
    ensures Sound(StopDevices(s, devs)) && Calls(s, StopDevices(s, devs), [], Called(devs))
    ensures EndIsNear(s) && (s.running ==> s.context) ==> EndIsNear(StopDevices(s, devs))
    decreases |devs|
  {
    if devs != [] {
      var t := StopDevice(s, devs[0]);
      StopDeviceKeeps(s, devs[0]);
      StopDevicesKeeps(t, devs[1..]);
      CallsCompose(s, t, StopDevices(s, devs), [], NameIfCalled(devs[0]), [], Called(devs[1..]));
    }
  }

  // ----- What the steps keep -----

  lemma RunEventSound(s: State, e: Event)
    requires Sound(s) && (e.Started? || e.Stopped?)
    ensures Sound(Log(s, e))
    ensures Alternates(s.events, e.Stopped?) ==> Alternates(Log(s, e).events, e.Started?)
    ensures StartCalls(Log(s, e).events) == StartCalls(s.events) && StopCalls(Log(s, e).events) == StopCalls(s.events)
  {
    assert (s.events + [e])[..|s.events|] == s.events;
    forall x: Source ensures Registered(s.events + [e], x) <==> Registered(s.events, x) {
      RegisteredAfter(s.events, e, x);
    }
  }

  /** A start that is let through calls the drivers up to the first that fails. */
  lemma StartKeeps(s: State, trigger: Option<seq<TriggerStage>>, devs: seq<Device>)
    requires Inv(s)
    ensures Inv(Start(s, trigger, devs).0)
    ensures Start(s, trigger, devs).1 == SR_OK ==> Start(s, trigger, devs).0.running
    ensures Start(s, trigger, devs).1 != SR_OK ==> Start(s, trigger, devs).0.running == s.running
  {
    if StartChecks(s, trigger, devs) == SR_OK {
      var begun := s.(running := true, context := true);
      var (t, rc, tried) := StartDevices(begun, devs);
      StartDevicesKeeps(begun, devs);
      if rc != SR_OK {
        StopDevicesKeeps(t, devs[..tried]);
      } else {
        WithCheckSound(t);
        var u := if t.sources == map[] then WithCheck(t) else t;
        RunEventSound(u, Started);
      }
    }
  }

  lemma StartThenStop(s: State, devs: seq<Device>)
    requires Sound(s)
    ensures var (t, rc, tried) := StartDevices(s, devs);
      tried <= |devs| && Calls(s, StopDevices(t, devs[..tried]), Called(devs[..tried]), Called(devs[..tried]))
  {
    var (t, rc, tried) := StartDevices(s, devs);
    StartDevicesKeeps(s, devs);
    StopDevicesKeeps(t, devs[..tried]);
    var names := Called(devs[..tried]);
    CallsCompose(s, t, StopDevices(t, devs[..tried]), names, [], [], names);
    assert names + [] == names && [] + names == names;
  }

  /** In the log, the first n devices were called to start and then called to stop. */
  ghost predicate StartedAndStopped(before: seq<Event>, after: seq<Event>, devs: seq<Device>, n: nat) {
    && n <= |devs|
    && StartCalls(after) == StartCalls(before) + Called(devs[..n])
    && StopCalls(after) == StopCalls(before) + Called(devs[..n])
  }

  /** A start that fails has every driver stop whose start callback was invoked, the failing one included. */
  lemma FailedStartStopsAll(s: State, trigger: Option<seq<TriggerStage>>, devs: seq<Device>)
    requires Inv(s) && Start(s, trigger, devs).1 != SR_OK
    ensures exists n :: StartedAndStopped(s.events, Start(s, trigger, devs).0.events, devs, n)
  {
    if StartChecks(s, trigger, devs) == SR_OK {
      var begun := s.(running := true, context := true);
      StartThenStop(begun, devs);
      assert StartedAndStopped(s.events, Start(s, trigger, devs).0.events, devs, StartDevices(begun, devs).2);
    } else {
      assert StartedAndStopped(s.events, s.events, devs, 0);
    }
  }

  lemma {:induction false} DeviceChecksIff(devs: seq<Device>)
    ensures DeviceChecks(devs) == SR_OK <==> forall d <- devs :: DeviceCheck(d) == SR_OK
  {
    if devs != [] {
      DeviceChecksIff(devs[1..]);
      assert devs == [devs[0]] + devs[1..];
    }
  }

  lemma {:induction false} StartDevicesIff(s: State, devs: seq<Device>)
    ensures StartDevices(s, devs).1 == SR_OK <==> forall d <- devs :: CallsBack(d) && d.startRc == SR_OK
    ensures StartDevices(s, devs).1 == SR_OK ==> StartDevices(s, devs).2 == |devs|
    decreases |devs|
  {
    if devs != [] {
      assert devs == [devs[0]] + devs[1..];
      StartDevicesIff(StartDevice(s, devs[0]).0, devs[1..]);
    }
  }

  predicate HasMatches(stage: TriggerStage) {
    |stage| > 0 && forall j :: 0 <= j < |stage| ==> stage[j].channel != None && stage[j].kind != None
  }

  /** No stage missing, none empty, no match without a channel or a kind. */
  predicate NothingMissing(trigger: seq<TriggerStage>) {
    |trigger| > 0 && forall i :: 0 <= i < |trigger| ==> HasMatches(trigger[i])
  }

  lemma StageCompleteIff(stage: TriggerStage)
    ensures StageIsComplete(stage) <==> HasMatches(stage)
  {
    if StageIsComplete(stage) {
      forall j | 0 <= j < |stage| ensures stage[j].channel != None && stage[j].kind != None {
        assert IsComplete(stage[j]);
      }
    }
  }

  lemma CompleteIff(trigger: seq<TriggerStage>)
    ensures TriggerIsComplete(trigger) <==> NothingMissing(trigger)
  {
    forall i | 0 <= i < |trigger| ensures StageIsComplete(trigger[i]) <==> HasMatches(trigger[i]) {
      StageCompleteIff(trigger[i]);
    }
  }

  /** A channel is enabled, there is a driver, and committing the settings works or is not needed. */
  predicate PassesCheck(d: Device) {
    && (exists k :: 0 <= k < |d.channelsEnabled| && d.channelsEnabled[k])
    && d.hasDriver && (d.commitRc == None || (d.active && d.commitRc == Some(SR_OK)))
  }

  /** Why a device does not pass. */
  ghost function RefusalCode(d: Device): int
    requires !PassesCheck(d)
  {
    if forall k :: 0 <= k < |d.channelsEnabled| ==> !d.channelsEnabled[k] then SR_ERR
    else if !d.hasDriver then SR_ERR
    else if !d.active then SR_ERR_DEV_CLOSED
    else d.commitRc.value
  }

  lemma DeviceCheckIff(d: Device)
    ensures DeviceCheck(d) == SR_OK <==> PassesCheck(d)
    ensures !PassesCheck(d) ==> DeviceCheck(d) == RefusalCode(d)
  {
    assert true in d.channelsEnabled <==> exists k :: 0 <= k < |d.channelsEnabled| && d.channelsEnabled[k];
  }

  /** The start callback is called and reports success. */
  predicate StartsUp(d: Device) {
    d.hasDriver && d.active && d.startRc == SR_OK
  }

  /** When a session starts: exactly if nothing is in the way, whatever the callbacks do to event sources. */
  lemma StartSucceedsIff(s: State, trigger: Option<seq<TriggerStage>>, devs: seq<Device>)
    requires Inv(s)
    ensures Start(s, trigger, devs).1 == SR_OK <==>
      && devs != [] && !s.running && (trigger.Some? ==> NothingMissing(trigger.value))
      && (forall d <- devs :: PassesCheck(d)) && (forall d <- devs :: StartsUp(d))
  {
    if trigger.Some? {
      CompleteIff(trigger.value);
    }
    forall d <- devs ensures DeviceCheck(d) == SR_OK <==> PassesCheck(d) {
      DeviceCheckIff(d);
    }
    DeviceChecksIff(devs);
    StartDevicesIff(s.(running := true, context := true), devs);
  }

  lemma {:induction false} FirstCheckFails(devs: seq<Device>, i: nat)
    requires i < |devs| && DeviceCheck(devs[i]) != SR_OK && forall j :: 0 <= j < i ==> DeviceCheck(devs[j]) == SR_OK
    ensures DeviceChecks(devs) == DeviceCheck(devs[i])
    decreases i
  {
    if i > 0 {
      FirstCheckFails(devs[1..], i - 1);
    }
  }

  /** A start that is refused reports the first reason, and changes nothing. */
  lemma StartRefused(s: State, trigger: Option<seq<TriggerStage>>, devs: seq<Device>)
    requires Inv(s)
    ensures devs == [] ==> Start(s, trigger, devs) == (s, SR_ERR_ARG)
    ensures devs != [] && (s.running || (trigger.Some? && !NothingMissing(trigger.value))) ==>
      Start(s, trigger, devs) == (s, SR_ERR)
  {
    if trigger.Some? {
      CompleteIff(trigger.value);
    }
  }

  /** The same for the first device that does not pass its check. */
  lemma StartRefusedByDevice(s: State, trigger: Option<seq<TriggerStage>>, devs: seq<Device>, i: nat)
    requires Inv(s) && !s.running && (trigger.Some? ==> NothingMissing(trigger.value))
    requires i < |devs| && !PassesCheck(devs[i]) && forall j :: 0 <= j < i ==> PassesCheck(devs[j])
    ensures Start(s, trigger, devs) == (s, RefusalCode(devs[i])) && RefusalCode(devs[i]) != SR_OK
  {
    if trigger.Some? {
      CompleteIff(trigger.value);
    }
    forall j | 0 <= j <= i ensures DeviceCheck(devs[j]) == SR_OK <==> PassesCheck(devs[j]) {
      DeviceCheckIff(devs[j]);
    }
    FirstCheckFails(devs, i);
  }

  lemma {:induction false} TriedUpTo(s: State, devs: seq<Device>, i: nat)
    requires i < |devs| && !StartsUp(devs[i]) && forall j :: 0 <= j < i ==> StartsUp(devs[j])
    ensures StartDevices(s, devs).2 == i + 1
    ensures StartDevices(s, devs).1 ==
      if !devs[i].hasDriver then SR_ERR_ARG else if !devs[i].active then SR_ERR_DEV_CLOSED else devs[i].startRc
    decreases i
  {
    if i > 0 {
      TriedUpTo(StartDevice(s, devs[0]).0, devs[1..], i - 1);
    }
  }

  /**
   A start that is let through and fails: the first device that does not start up decides. It and the devices
   before it were called to start and then to stop, none behind it was, and its return code is reported.
   */
  lemma FailedStartAt(s: State, trigger: Option<seq<TriggerStage>>, devs: seq<Device>, i: nat)
    requires Inv(s) && !s.running && (trigger.Some? ==> NothingMissing(trigger.value))
    requires forall d <- devs :: PassesCheck(d)
    requires i < |devs| && !StartsUp(devs[i]) && forall j :: 0 <= j < i ==> StartsUp(devs[j])
    ensures var (t, rc) := Start(s, trigger, devs);
      && rc == (if devs[i].active then devs[i].startRc else SR_ERR_DEV_CLOSED) && rc != SR_OK
      && StartedAndStopped(s.events, t.events, devs, i + 1) && !t.running && !t.context
  {
    if trigger.Some? {
      CompleteIff(trigger.value);
    }
    forall d <- devs ensures DeviceCheck(d) == SR_OK {
      DeviceCheckIff(d);
    }
    DeviceChecksIff(devs);
    var begun := s.(running := true, context := true);
    assert devs[i] in devs;
    TriedUpTo(begun, devs, i);
    StartThenStop(begun, devs);
  }

  /** A start that succeeds has called every driver once, in order, and stopped none. */
  lemma StartCallsAll(s: State, trigger: Option<seq<TriggerStage>>, devs: seq<Device>)
    requires Inv(s) && Start(s, trigger, devs).1 == SR_OK
    ensures var t := Start(s, trigger, devs).0;
      StartCalls(t.events) == StartCalls(s.events) + Called(devs) && StopCalls(t.events) == StopCalls(s.events)
  {
    var begun := s.(running := true, context := true);
    StartDevicesIff(begun, devs);
    StartDevicesKeeps(begun, devs);
    assert devs[..|devs|] == devs;
    var t := StartDevices(begun, devs).0;
    WithCheckSound(t);
    RunEventSound(if t.sources == map[] then WithCheck(t) else t, Started);
  }

  // ----- What callbacks do takes effect -----

  lemma {:induction false} ActAllAppend(s: State, a: seq<Action>, b: seq<Action>)
    ensures ActAll(s, a + b) == ActAll(ActAll(s, a), b)
    decreases |a|
  {
    if a == [] {
      assert a + b == b;
    } else {
      assert (a + b)[1..] == a[1..] + b;
      ActAllAppend(Act(s, a[0]), a[1..], b);
    }
  }

  lemma ActAllOne(s: State, action: Action)
    ensures ActAll(s, [action]) == Act(s, action)
  {
    assert ActAll(Act(s, action), []) == Act(s, action);
  }

  /** The two states differ in nothing but the log. */
  predicate SameButLog(s: State, t: State) {
    s.(events := t.events) == t
  }

  lemma ActIgnoresLog(s: State, t: State, action: Action)
    requires SameButLog(s, t)
    ensures SameButLog(Act(s, action), Act(t, action))
  {
  }

  lemma {:induction false} ActAllIgnoresLog(s: State, t: State, actions: seq<Action>)
    requires SameButLog(s, t)
    ensures SameButLog(ActAll(s, actions), ActAll(t, actions))
    decreases |actions|
  {
    if actions != [] {
      ActIgnoresLog(s, t, actions[0]);
      ActAllIgnoresLog(Act(s, actions[0]), Act(t, actions[0]), actions[1..]);
    }
  }

  /** What the start callbacks of these devices do, one after the other. */
  function OnStart(devs: seq<Device>): seq<Action> {
    if devs == [] then []
    else (if CallsBack(devs[0]) then devs[0].onStart else []) + OnStart(devs[1..])
  }

  function OnStop(devs: seq<Device>): seq<Action> {
    if devs == [] then []
    else (if CallsBack(devs[0]) then devs[0].onStop else []) + OnStop(devs[1..])
  }

  lemma OnStartStep(devs: seq<Device>, n: nat)
    requires n < |devs|
    ensures OnStart(devs[..n + 1]) == (if CallsBack(devs[0]) then devs[0].onStart else []) + OnStart(devs[1..][..n])
  {
    assert devs[..n + 1][1..] == devs[1..][..n];
  }

  lemma StartDevicePerforms(s: State, d: Device)
    ensures SameButLog(StartDevice(s, d).0, ActAll(s, if CallsBack(d) then d.onStart else []))
  {
    ActAllIgnoresLog(Log(s, StartCalled(d.name)), s, d.onStart);
  }

  /** Starting devices does to event sources what the callbacks of the devices that were tried do. */
  lemma {:induction false} StartDevicesPerform(s: State, devs: seq<Device>)
    ensures StartDevices(s, devs).2 <= |devs|
    ensures SameButLog(StartDevices(s, devs).0, ActAll(s, OnStart(devs[..StartDevices(s, devs).2])))
    decreases |devs|
  {
    if devs != [] {
      var own := if CallsBack(devs[0]) then devs[0].onStart else [];
      var (t, rc) := StartDevice(s, devs[0]);
      StartDevicePerforms(s, devs[0]);
      var n := if rc == SR_OK then StartDevices(t, devs[1..]).2 else 0;
      if rc == SR_OK {
        StartDevicesPerform(t, devs[1..]);
        ActAllIgnoresLog(t, ActAll(s, own), OnStart(devs[1..][..n]));
      }
      OnStartStep(devs, n);
      ActAllAppend(s, own, OnStart(devs[1..][..n]));
    }
  }

  lemma {:induction false} StopDevicesPerform(s: State, devs: seq<Device>)
    ensures SameButLog(StopDevices(s, devs), ActAll(s, OnStop(devs)))
    decreases |devs|
  {
    if devs != [] {
      var own := if CallsBack(devs[0]) then devs[0].onStop else [];
      var t := StopDevice(s, devs[0]);
      ActAllIgnoresLog(Log(s, StopCalled(devs[0].name)), s, devs[0].onStop);
      StopDevicesPerform(t, devs[1..]);
      ActAllIgnoresLog(t, ActAll(s, own), OnStop(devs[1..]));
      ActAllAppend(s, own, OnStop(devs[1..]));
    }
  }

  /** A session that was started has the event sources that its devices' start callbacks left it. */
  lemma StartPerforms(s: State, trigger: Option<seq<TriggerStage>>, devs: seq<Device>)
    requires Inv(s) && Start(s, trigger, devs).1 == SR_OK
    ensures var (t, u) := (Start(s, trigger, devs).0, ActAll(s.(running := true, context := true), OnStart(devs)));
      t.sources == u.sources && t.attached == u.attached && t.live == u.live
  {
    var begun := s.(running := true, context := true);
    StartDevicesIff(begun, devs);
    StartDevicesPerform(begun, devs);
    assert devs[..|devs|] == devs;
  }

  /** Stopping a running session calls the stop callback of every device, once and in order, and these take effect. */
  lemma StopCallsAll(s: State, devs: seq<Device>)
    requires Inv(s)
    ensures var t := StopSync(s, devs);
      if s.running then
        && StopCalls(t.events) == StopCalls(s.events) + Called(devs) && StartCalls(t.events) == StartCalls(s.events)
        && SameButLog(t, ActAll(s, OnStop(devs)))
      else t == s
  {
    StopDevicesKeeps(s, devs);
    StopDevicesPerform(s, devs);
  }

  lemma StopSyncKeeps(s: State, devs: seq<Device>)
    requires Inv(s)
    ensures Inv(StopSync(s, devs)) && StopSync(s, devs).running == s.running
  {
    StopDevicesKeeps(s, devs);
  }

  lemma ActKeeps(s: State, action: Action)
    requires Inv(s)
    ensures Inv(Act(s, action)) && Act(s, action).running == s.running
  {
    ActSound(s, action);
    ActQuiet(s, action);
    ActNearsEnd(s, action);
  }

  /** The check that is queued is taken off, and ends the run when there is nothing left to wait for. */
  lemma DispatchKeeps(s: State)
    requires Inv(s)
    ensures Inv(DispatchCheck(s)) && DispatchCheck(s).idle == []
    ensures DispatchCheck(s).running == (s.running && s.sources != map[])
    ensures var t := DispatchCheck(s);
      && t.sources == s.sources && t.attached == s.attached && t.live == s.live
      && t.nextId == s.nextId && t.nextSerial == s.nextSerial
      && t.events == if s.running && !t.running then s.events + [Stopped] else s.events
  {
    if s.idle != [] {
      var t := s.(idle := s.idle[1..], stopCheckId := 0);
      assert Sound(t);
      if s.running && s.sources == map[] {
        RunEventSound(t.(running := false, context := false), Stopped);
      }
    }
  }

  lemma StepKeeps(s: State, step: Step)
    requires Inv(s)
    ensures Inv(Next(s, step))
  {
    match step
    case DoStart(trigger, devs) => StartKeeps(s, trigger, devs);
    case DoStop(devs) => StopSyncKeeps(s, devs);
    case DoAct(action) => ActKeeps(s, action);
    case DoCheck => DispatchKeeps(s);
  }

  /** The invariant holds throughout every run of steps. */
  lemma {:induction false} RunKeeps(s: State, steps: seq<Step>)
    requires Inv(s)
    ensures Inv(Run(s, steps))
    decreases |steps|
  {
    if steps != [] {
      StepKeeps(s, steps[0]);
      RunKeeps(Next(s, steps[0]), steps[1..]);
    }
  }

  lemma SessionInvariant(steps: seq<Step>)
    ensures Inv(Run(Initial, steps))
  {
    RunKeeps(Initial, steps);
  }

  /** No registered source has this key. */
  ghost predicate KeyIsFree(events: seq<Event>, key: Key) {
    forall x: Source :: Registered(events, x) ==> x.key != key
  }

  /**
   When a source is added: exactly if the session runs and no registered source has its key. A source
   that is turned away is finalized, and leaves everything but the log as it was.
   */
  lemma AddSucceedsIff(s: State, key: Key)
    requires Inv(s)
    ensures var (t, rc) := AddSource(s, key);
      && rc == (if !KeyIsFree(s.events, key) then SR_ERR_BUG else if !s.running then SR_ERR else SR_OK)
      && (rc != SR_OK ==>
        t == s.(nextSerial := s.nextSerial + 1, events := s.events + [Finalized(Source(key, s.nextSerial))]))
  {
    if key in s.sources {
      assert Registered(s.events, s.sources[key]);
    }
  }

  /** A source that is added is in the table under its key, the main loop holds it, and nothing else changes. */
  lemma AddTakesEffect(s: State, key: Key)
    requires Inv(s) && AddSource(s, key).1 == SR_OK
    ensures var (t, x) := (AddSource(s, key).0, Source(key, s.nextSerial));
      && key !in s.sources && t.sources == s.sources[key := x]
      && t.attached == s.attached + {x} && t.live == s.live + {x} && x !in s.live
      && t.events == s.events + [Added(x)] && Registered(t.events, x)
      && t.running == s.running && t.context == s.context && t.idle == s.idle && t.stopCheckId == s.stopCheckId
      && t.nextSerial > s.nextSerial && t.nextId > s.nextId
  {
    var x := Source(key, s.nextSerial);
    assert Finalized(x) !in s.events;
    assert x in s.live ==> Registered(s.events, x);
    RegisteredAfter(s.events, Added(x), x);
  }

  /** Removing a key, or destroying a source, takes that one source from the main loop and changes nothing else. */
  lemma RemoveLetsGo(s: State, key: Key, x: Source)
    requires Inv(s)
    ensures var t := Act(s, Remove(key));
      && (x in t.attached <==> x in s.attached && !(Registered(s.events, x) && x.key == key))
      && t.(attached := s.attached) == s
    ensures var t := Act(s, Destroy(x));
      && x !in t.attached && (forall y :: y in s.attached && y != x ==> y in t.attached)
      && t.attached <= s.attached && t.(attached := s.attached) == s
  {
  }

  /** A removed source keeps its key taken until it is finalized; then only its entry is gone. */
  lemma RemovedUntilFinalized(s: State, key: Key)
    requires Inv(s) && key in s.sources
    ensures var t := Act(s, Remove(key));
      && t.sources == s.sources && AddSource(t, key).1 == SR_ERR_BUG
      && Act(t, Finalize(s.sources[key])).sources == s.sources - {key}
  {
    assert Registered(s.events, s.sources[key]);
  }

  /** Nothing but an idle check with no event source left ends a run. */
  lemma EndsOnlyWhenDone(s: State, step: Step)
    requires Inv(s) && s.running && !Next(s, step).running
    ensures step == DoCheck && s.sources == map[] && Next(s, step).events == s.events + [Stopped]
  {
    match step
    case DoStart(trigger, devs) => StartKeeps(s, trigger, devs);
    case DoStop(devs) => StopSyncKeeps(s, devs);
    case DoAct(action) => ActKeeps(s, action);
    case DoCheck =>
  }

  /** Every source is let go, one after the other. */
  function Drain(sources: seq<Source>): seq<Step> {
    if sources == [] then []
    else [DoAct(Destroy(sources[0])), DoAct(Finalize(sources[0]))] + Drain(sources[1..])
  }

  lemma Drained(s: State, x: Source)
    requires Inv(s) && x.key in s.sources && s.sources[x.key] == x
    ensures var t := Act(Act(s, Destroy(x)), Finalize(x));
      Inv(t) && t.running == s.running && t.sources == s.sources - {x.key}
  {
    ActKeeps(s, Destroy(x));
    ActKeeps(Act(s, Destroy(x)), Finalize(x));
    assert Registered(s.events, x);
  }

  lemma RunAppend(s: State, a: seq<Step>, b: seq<Step>)
    ensures Run(s, a + b) == Run(Run(s, a), b)
    decreases |a|
  {
    if a == [] {
      assert a + b == b;
    } else {
      assert (a + b)[1..] == a[1..] + b;
      RunAppend(Next(s, a[0]), a[1..], b);
    }
  }

  predicate Lists(sources: seq<Source>, table: map<Key, Source>) {
    && (forall x <- sources :: x.key in table && table[x.key] == x)
    && (forall k <- table :: table[k] in sources)
    && (forall i, j :: 0 <= i < j < |sources| ==> sources[i].key != sources[j].key)
  }

  lemma ListsRest(sources: seq<Source>, table: map<Key, Source>)
    requires sources != [] && Lists(sources, table) && (forall k <- table :: table[k].key == k)
    ensures Lists(sources[1..], table - {sources[0].key})
  {
    var rest := table - {sources[0].key};
    forall k <- rest ensures rest[k] in sources[1..] {
      assert table[k] in sources && table[k] != sources[0];
    }
  }

  lemma DrainStep(s: State, sources: seq<Source>)
    requires sources != []
    ensures Run(s, Drain(sources) + [DoCheck]) ==
      Run(Act(Act(s, Destroy(sources[0])), Finalize(sources[0])), Drain(sources[1..]) + [DoCheck])
  {
    var x := sources[0];
    var two := [DoAct(Destroy(x)), DoAct(Finalize(x))];
    assert Drain(sources) + [DoCheck] == two + (Drain(sources[1..]) + [DoCheck]);
    RunAppend(s, two, Drain(sources[1..]) + [DoCheck]);
    assert two[1..] == [DoAct(Finalize(x))];
    assert Run(s, two) == Run(Act(s, Destroy(x)), two[1..]);
  }

  /** However a running session got there: once its sources are gone, the next idle check ends the run. */
  lemma {:induction false} DrainingEndsRun(s: State, sources: seq<Source>)
    requires Inv(s) && s.running && Lists(sources, s.sources)
    ensures !Run(s, Drain(sources) + [DoCheck]).running
    decreases |sources|
  {
    if sources == [] {
      assert s.sources == map[];
      DispatchKeeps(s);
      assert Run(s, [DoCheck]) == Next(s, DoCheck);
    } else {
      var x := sources[0];
      var t := Act(Act(s, Destroy(x)), Finalize(x));
      Drained(s, x);
      ListsRest(sources, s.sources);
      DrainingEndsRun(t, sources[1..]);
      DrainStep(s, sources);
    }
  }

  // ----- One whole session -----

  /** A device that adds one source when it is started and removes it when it is stopped. */
  function OneSourceDevice(name: nat, key: Key): Device {
    Device(name, true, true, [false, true], None, SR_OK, [Add(key)], [Remove(key)])
  }

  lemma OneSourceStart(name: nat, key: Key)
    ensures var (d, x) := (OneSourceDevice(name, key), Source(key, 0));
      Next(Initial, DoStart(None, [d])) ==
        State(true, true, 0, map[key := x], [], 2, {x}, {x}, 1, [StartCalled(name), Added(x), Started])
  {
    var (d, x) := (OneSourceDevice(name, key), Source(key, 0));
    var begun := Initial.(running := true, context := true);
    assert d.channelsEnabled[1] && [d][1..] == [];
    assert DeviceCheck(d) == SR_OK && DeviceChecks([d]) == SR_OK;
    ActAllOne(Log(begun, StartCalled(name)), Add(key));
    var t := StartDevice(begun, d).0;
    assert t.sources == map[key := x] && t.events == [StartCalled(name), Added(x)];
    assert StartDevices(t, []) == (t, SR_OK, 0);
    assert StartDevices(begun, [d]) == (t, SR_OK, 1);
  }

  lemma OneSourceStop(name: nat, key: Key)
    ensures var (d, x) := (OneSourceDevice(name, key), Source(key, 0));
      var a := Next(Initial, DoStart(None, [d]));
      Next(a, DoStop([d])) == a.(attached := {}, events := a.events + [StopCalled(name)])
  {
    OneSourceStart(name, key);
    var (d, x) := (OneSourceDevice(name, key), Source(key, 0));
    var a := Next(Initial, DoStart(None, [d]));
    ActAllOne(Log(a, StopCalled(name)), Remove(key));
    assert [d][1..] == [];
    assert StopDevices(a, [d]) == StopDevices(StopDevice(a, d), []) == StopDevice(a, d);
  }

  lemma RunStep(s: State, step: Step, rest: seq<Step>)
    ensures Run(s, [step] + rest) == Run(Next(s, step), rest)
  {
    assert ([step] + rest)[1..] == rest;
  }

  /**
   Started, the session keeps the source; stopped, it goes on until the source is finalized; then the next
   idle check ends it. A second check finds nothing to do.
   */
  lemma WholeSession(name: nat, key: Key)
    ensures var (d, x) := (OneSourceDevice(name, key), Source(key, 0));
      Run(Initial, [DoStart(None, [d]), DoCheck, DoStop([d]), DoAct(Finalize(x)), DoCheck, DoCheck]).events ==
        [StartCalled(name), Added(x), Started, StopCalled(name), Finalized(x), Stopped]
  {
    var (d, x) := (OneSourceDevice(name, key), Source(key, 0));
    OneSourceStart(name, key);
    OneSourceStop(name, key);
    var a, b := Next(Initial, DoStart(None, [d])), Next(Next(Initial, DoStart(None, [d])), DoStop([d]));
    var c := Next(b, DoAct(Finalize(x)));
    assert c.sources == map[] && c.idle == [2] && c.events == b.events + [Finalized(x)];
    var e := Next(c, DoCheck);
    assert !e.running && e.idle == [] && e.events == c.events + [Stopped];
    assert [DoStart(None, [d])] + [DoCheck, DoStop([d]), DoAct(Finalize(x)), DoCheck, DoCheck]
        == [DoStart(None, [d]), DoCheck, DoStop([d]), DoAct(Finalize(x)), DoCheck, DoCheck];
    RunStep(Initial, DoStart(None, [d]), [DoCheck, DoStop([d]), DoAct(Finalize(x)), DoCheck, DoCheck]);
    RunStep(a, DoCheck, [DoStop([d]), DoAct(Finalize(x)), DoCheck, DoCheck]);
    RunStep(a, DoStop([d]), [DoAct(Finalize(x)), DoCheck, DoCheck]);
    RunStep(b, DoAct(Finalize(x)), [DoCheck, DoCheck]);
    RunStep(c, DoCheck, [DoCheck]);
    RunStep(e, DoCheck, []);
  }
}
