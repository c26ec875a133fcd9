/** The session object: its fields are changed by calls, by driver callbacks and by the main loop. */
module Session {
  import opened Wrappers
  import opened ReturnCodes
  import opened SessionModel

  class Session {
    var running: bool
    var mainContext: bool
    var stopCheckId: nat
    var eventSources: map<Key, Source>

    // The main loop's side: the default context and the sources in it.

    var idle: seq<nat>
    var nextId: nat
    var attached: set<Source>
    var live: set<Source>
    var nextSerial: nat

    ghost var events: seq<Event>

    ghost function Snapshot(): State
      reads this
    {
      State(running, mainContext, stopCheckId, eventSources, idle, nextId, attached, live, nextSerial, events)
    }

    constructor ()
      ensures Snapshot() == Initial
    {
      running, mainContext, stopCheckId, eventSources := false, false, 0, map[];
      idle, nextId, attached, live, nextSerial := [], 1, {}, {}, 0;
      events := [];
    }

    // ----- Main context and idle check -----

    method SetMainContext() returns (rc: int)
      modifies this`mainContext
      ensures rc == if old(mainContext) then SR_ERR else SR_OK
      ensures mainContext
    {
      if mainContext {
        return SR_ERR;
      }
      mainContext := true;
      return SR_OK;
    }

    method UnsetMainContext() returns (rc: int)
      modifies this`mainContext
      ensures rc == if old(mainContext) then SR_OK else SR_ERR
      ensures !mainContext
    {
      if mainContext {
        mainContext := false;
        rc := SR_OK;
      } else {
        rc := SR_ERR;
      }
    }

    /** session_source_attach: 0 without a main context, else the id that the main loop assigns. */
    method SourceAttach() returns (id: nat)
      requires nextId > 0
      modifies this`nextId
      ensures id == if mainContext then old(nextId) else 0
      ensures nextId == if mainContext then old(nextId) + 1 else old(nextId)
    {
      id := 0;
      if mainContext {
        id := nextId;
        nextId := nextId + 1;
      }
    }

    method StopCheckLater() returns (rc: int)
      requires nextId > 0
      modifies this
      ensures Snapshot() == WithCheck(old(Snapshot()))
      ensures rc == if stopCheckId != 0 then SR_OK else SR_ERR
    {
      if stopCheckId != 0 {
        return SR_OK;
      }
      var sourceId := SourceAttach();
      if sourceId != 0 {
        idle := idle + [sourceId];
      }
      stopCheckId := sourceId;
      return if sourceId != 0 then SR_OK else SR_ERR;
    }

    /** The main loop dispatches the oldest idle check: delayed_stop_check. */
    method DelayedStopCheck()
      modifies this
      ensures Snapshot() == DispatchCheck(old(Snapshot()))
    {
      if idle == [] {
        return;
      }
      idle := idle[1..];
      stopCheckId := 0;
      if !running {
        return;
      }
      if |eventSources| != 0 {
        return;
      }
      running := false;
      var _ := UnsetMainContext();
      events := events + [Stopped];
    }

    // ----- Event sources -----

    /** sr_session_source_add_internal, for a source that was just made and is not attached. */
    method AddInternal(key: Key, source: Source) returns (rc: int)
      requires nextId > 0
      modifies this`eventSources, this`attached, this`nextId
      ensures rc == if key in old(eventSources) then SR_ERR_BUG else if mainContext then SR_OK else SR_ERR
      ensures eventSources == if rc == SR_ERR_BUG then old(eventSources) else old(eventSources)[key := source]
      ensures attached == if rc == SR_OK then old(attached) + {source} else old(attached)
      ensures nextId == if rc == SR_OK then old(nextId) + 1 else old(nextId)
    {
      if key in eventSources {
        return SR_ERR_BUG;
      }
      eventSources := eventSources[key := source];
      var id := SourceAttach();
      if id == 0 {
        return SR_ERR;
      }
      attached := attached + {source};
      return SR_OK;
    }

    /** sr_session_source_destroyed */
    method SourceDestroyed(key: Key, source: Source) returns (rc: int)
      requires nextId > 0 && key == source.key
      modifies this
      ensures Snapshot() == Unregistered(old(Snapshot()), source)
      ensures rc == SR_ERR_BUG <==> key !in old(eventSources) || old(eventSources)[key] != source
    {
      if key !in eventSources {
        return SR_ERR_BUG;
      }
      if eventSources[key] != source {
        return SR_ERR_BUG;
      }
      eventSources := eventSources - {key};
      if |eventSources| > 0 {
        return SR_OK;
      }
      rc := StopCheckLater();
    }

    /**
     sr_session_fd_source_add. The caller's reference goes at the end, so a source that the main loop
     did not take is finalized here, and its finalizer calls back into the session.
     */
    method FdSourceAdd(key: Key) returns (rc: int)
      requires nextId > 0
      requires forall x :: x in attached ==> x.serial < nextSerial
      requires forall k :: k in eventSources ==> eventSources[k].serial < nextSerial
      modifies this
      ensures (Snapshot(), rc) == AddSource(old(Snapshot()), key)
    {
      var source := Source(key, nextSerial);
      nextSerial := nextSerial + 1;
      ghost var table := eventSources;
      rc := AddInternal(key, source);
      if source in attached {
        live := live + {source};
        events := events + [Added(source)];
      } else {
        events := events + [Finalized(source)];
        var _ := SourceDestroyed(key, source);
        assert eventSources == table;
      }
    }

    /** sr_session_source_remove_internal: the main loop lets go of the source; the table keeps it for now. */
    method RemoveInternal(key: Key) returns (rc: int)
      modifies this`attached
      ensures rc == if key in eventSources then SR_OK else SR_ERR_BUG
      ensures Snapshot() == Act(old(Snapshot()), Remove(key))
    {
      if key !in eventSources {
        return SR_ERR_BUG;
      }
      attached := attached - {eventSources[key]};
      return SR_OK;
    }

    /** The main loop removes a source whose callback asked for it. */
    method DestroySource(source: Source)
      modifies this`attached
      ensures Snapshot() == Act(old(Snapshot()), Destroy(source))
    {
      attached := attached - {source};
    }

    /** The last reference to a source goes: fd_source_finalize. */
    method FinalizeSource(source: Source)
      requires nextId > 0
      modifies this
      ensures Snapshot() == Act(old(Snapshot()), Finalize(source))
    {
      if source !in live || source in attached {
        return;
      }
      live := live - {source};
      events := events + [Finalized(source)];
      var _ := SourceDestroyed(source.key, source);
    }

    /** What FdSourceAdd needs: source numbers are not used up. */
    ghost predicate Numbered()
      reads this
    {
      && nextId > 0
      && (forall x :: x in attached ==> x.serial < nextSerial)
      && (forall k :: k in eventSources ==> eventSources[k].serial < nextSerial)
    }

    method Perform(action: Action)
      requires Numbered()
      modifies this
      ensures Numbered() && Snapshot() == Act(old(Snapshot()), action)
    {
      match action
      case Add(key) => var _ := FdSourceAdd(key);
      case Remove(key) => var _ := RemoveInternal(key);
      case Destroy(source) => DestroySource(source);
      case Finalize(source) => FinalizeSource(source);
    }

    /** What a driver's callback does to the session. */
    method PerformAll(actions: seq<Action>)
      requires Numbered()
      modifies this
      ensures Numbered() && Snapshot() == ActAll(old(Snapshot()), actions)
    {
      var i := 0;
      while i < |actions|
        invariant 0 <= i <= |actions| && Numbered()
        invariant ActAll(Snapshot(), actions[i..]) == ActAll(old(Snapshot()), actions)
      {
        Perform(actions[i]);
        assert actions[i..][1..] == actions[i + 1..];
        i := i + 1;
      }
    }

    // ----- Starting and stopping -----

    method DevAcquisitionStart(d: Device) returns (rc: int)
      requires Numbered()
      modifies this
      ensures Numbered() && (Snapshot(), rc) == StartDevice(old(Snapshot()), d)
    {
      if !d.hasDriver {
        return SR_ERR_ARG;
      }
      if !d.active {
        return SR_ERR_DEV_CLOSED;
      }
      events := events + [StartCalled(d.name)];
      PerformAll(d.onStart);
      return d.startRc;
    }

    method DevAcquisitionStop(d: Device)
      requires Numbered()
      modifies this
      ensures Numbered() && Snapshot() == StopDevice(old(Snapshot()), d)
    {
      if !d.hasDriver || !d.active {
        return;
      }
      events := events + [StopCalled(d.name)];
      PerformAll(d.onStop);
    }

    method StopAll(devs: seq<Device>, count: nat)
      requires Numbered() && count <= |devs|
      modifies this
      ensures Numbered() && Snapshot() == StopDevices(old(Snapshot()), devs[..count])
    {
      var i := 0;
      while i < count
        invariant 0 <= i <= count && Numbered()
        invariant StopDevices(Snapshot(), devs[i..count]) == StopDevices(old(Snapshot()), devs[..count])
      {
        DevAcquisitionStop(devs[i]);
        assert devs[i..count][1..] == devs[i + 1..count];
        i := i + 1;
      }
    }

    /** The start loop: the devices in order, up to the first that fails. */
    method StartAll(devs: seq<Device>) returns (rc: int, tried: nat)
      requires Numbered()
      modifies this
      ensures Numbered() && (Snapshot(), rc, tried) == StartDevices(old(Snapshot()), devs)
    {
      rc, tried := SR_OK, 0;
      while tried < |devs|
        invariant 0 <= tried <= |devs| && rc == SR_OK && Numbered()
        invariant var (t, last, n) := StartDevices(Snapshot(), devs[tried..]);
          (t, last, tried + n) == StartDevices(old(Snapshot()), devs)
      {
        rc := DevAcquisitionStart(devs[tried]);
        assert devs[tried..][1..] == devs[tried + 1..];
        tried := tried + 1;
        if rc != SR_OK {
          return;
        }
      }
    }

    /** The loop over devices before a start: a channel must be enabled and the settings committed. */
    method CheckDevices(devs: seq<Device>) returns (rc: int)
      ensures rc == DeviceChecks(devs)
    {
      var l := 0;
      while l < |devs|
        invariant 0 <= l <= |devs| && DeviceChecks(devs[l..]) == DeviceChecks(devs)
      {
        var d := devs[l];
        var c := 0;
        while c < |d.channelsEnabled| && !d.channelsEnabled[c]
          invariant 0 <= c <= |d.channelsEnabled| && true !in d.channelsEnabled[..c]
        {
          c := c + 1;
        }
        assert devs[l..][1..] == devs[l + 1..];
        if c == |d.channelsEnabled| {
          assert d.channelsEnabled[..c] == d.channelsEnabled;
          return SR_ERR;
        }
        rc := Commit(d);
        if rc != SR_OK {
          return;
        }
        l := l + 1;
      }
      return SR_OK;
    }

    method VerifyTrigger(trigger: seq<TriggerStage>) returns (rc: int)
      ensures rc == if TriggerIsComplete(trigger) then SR_OK else SR_ERR
      ensures rc == SR_OK <==> NothingMissing(trigger)
    {
      CompleteIff(trigger);
      if trigger == [] {
        return SR_ERR;
      }
      for l := 0 to |trigger|
        invariant forall k :: 0 <= k < l ==> StageIsComplete(trigger[k])
      {
        var stage := trigger[l];
        if stage == [] {
          assert !StageIsComplete(stage);
          return SR_ERR;
        }
        for m := 0 to |stage|
          invariant forall k :: 0 <= k < m ==> IsComplete(stage[k])
        {
          if stage[m].channel.None? || stage[m].kind.None? {
            assert !IsComplete(stage[m]) && !StageIsComplete(stage);
            return SR_ERR;
          }
        }
      }
      return SR_OK;
    }

    /** sr_session_start */
    method Start(trigger: Option<seq<TriggerStage>>, devs: seq<Device>) returns (rc: int)
      requires Numbered()
      modifies this
      ensures (Snapshot(), rc) == SessionModel.Start(old(Snapshot()), trigger, devs)
    {
      if devs == [] {
        return SR_ERR_ARG;
      }
      if running {
        return SR_ERR;
      }
      if trigger.Some? {
        rc := VerifyTrigger(trigger.value);
        if rc != SR_OK {
          return;
        }
      }
      rc := CheckDevices(devs);
      if rc != SR_OK {
        return;
      }
      rc := SetMainContext();
      if rc != SR_OK {
        return;
      }
      running := true;
      var tried;
      rc, tried := StartAll(devs);
      if rc != SR_OK {
        TriedBound(old(Snapshot()).(running := true, context := true), devs);
        StopAll(devs, tried);
        running := false;
        var _ := UnsetMainContext();
        return;
      }
      if |eventSources| == 0 {
        var _ := StopCheckLater();
      }
      events := events + [Started];
    }

    /** session_stop_sync */
    method StopSync(devs: seq<Device>)
      requires Numbered()
      modifies this
      ensures Snapshot() == SessionModel.StopSync(old(Snapshot()), devs)
    {
      if !running {
        return;
      }
      assert devs[..|devs|] == devs;
      StopAll(devs, |devs|);
    }

    /** One step of a run, whichever it is. */
    method Take(step: Step)
      requires Inv(Snapshot())
      modifies this
      ensures Snapshot() == Next(old(Snapshot()), step) && Inv(Snapshot())
    {
      StepKeeps(Snapshot(), step);
      match step
      case DoStart(trigger, devs) => var _ := Start(trigger, devs);
      case DoStop(devs) => StopSync(devs);
      case DoAct(action) => Perform(action);
      case DoCheck => DelayedStopCheck();
    }
  }
}
