/**
 Runs of the bridge: the host stack's callbacks as a sequence of events
 folded through the transitions of HidBridge, and the properties of such
 runs: which interfaces get armed, what an unmount restores, where the
 count-based gate drops reports, and what the bridges remember.
 */
module HidRuns {
  import opened HidTypes
  import opened HidBridge

  /** One callback from the host stack. */
  datatype Event =
    | Mounted(dev: uint8, instance: uint8, protocol: uint8)
    | Unmounted(dev: uint8, instance: uint8)
    | Received(dev: uint8, instance: uint8, protocol: uint8, buffer: ReportBuffer)

  function Apply(s: State, e: Event): (r: Step) {
    match e
    case Mounted(dev, instance, protocol) => Mount(s, dev, instance, protocol)
    case Unmounted(dev, instance) => Unmount(s, dev, instance)
    case Received(dev, instance, protocol, buffer) => ReportReceived(s, dev, instance, protocol, buffer)
  }

  /** The callbacks applied in order; the effects are concatenated. */
  function Run(s: State, evs: seq<Event>): (r: Step)
    decreases |evs|
  {
    if |evs| == 0 then Step(s, [])
    else
      var first := Apply(s, evs[0]);
      var rest := Run(first.state, evs[1..]);
      Step(rest.state, first.out + rest.out)
  }

  /** Running `a + b` is running `a`, then `b` from where `a` left off. */
  /** Running `[e] + rest` is applying `e`, then running `rest`. */
  lemma RunCons(s: State, e: Event, rest: seq<Event>)
    ensures Run(s, [e] + rest) == Step(Run(Apply(s, e).state, rest).state, Apply(s, e).out + Run(Apply(s, e).state, rest).out)
  {
    assert ([e] + rest)[0] == e;
    assert ([e] + rest)[1..] == rest;
  }

  /** Running `a + b` is running `a`, then `b` from where `a` left off. */
  lemma {:induction false} RunAppend(s: State, a: seq<Event>, b: seq<Event>)
    ensures Run(s, a + b) == Step(Run(Run(s, a).state, b).state, Run(s, a).out + Run(Run(s, a).state, b).out)
    decreases |a|
  {
    if |a| == 0 {
      assert a + b == b;
    } else {
      var e, tl := a[0], a[1..];
      assert a == [e] + tl;
      assert a + b == [e] + (tl + b);
      var first := Apply(s, e);
      RunCons(s, e, tl);
      RunCons(s, e, tl + b);
      RunAppend(first.state, tl, b);
      var mid := Run(first.state, tl);
      var tail := Run(mid.state, b);
      assert first.out + (mid.out + tail.out) == (first.out + mid.out) + tail.out;
    }
  }

  // ---------------------------------------------------------------------
  // Interface selection
  // ---------------------------------------------------------------------

  predicate IsMountOf(e: Event, protocol: uint8) {
    e.Mounted? && e.protocol == protocol
  }

  predicate AllMounts(evs: seq<Event>) {
    forall i :: 0 <= i < |evs| ==> evs[i].Mounted?
  }

  /** Number of mounts of `protocol` interfaces in `evs`. */
  function CountMounts(evs: seq<Event>, protocol: uint8): (n: nat)
    decreases |evs|
  {
    if |evs| == 0 then 0
    else (if IsMountOf(evs[0], protocol) then 1 else 0) + CountMounts(evs[1..], protocol)
  }

  /** Position of the first mount of a `protocol` interface, or `|evs|`
      when there is none. */
  function FirstMountIndex(evs: seq<Event>, protocol: uint8): (i: nat)
    ensures i <= |evs|
    ensures i < |evs| ==> IsMountOf(evs[i], protocol)
    ensures forall j :: 0 <= j < i ==> !IsMountOf(evs[j], protocol)
    ensures i == |evs| <==> CountMounts(evs, protocol) == 0
    decreases |evs|
  {
    if |evs| == 0 then 0
    else if IsMountOf(evs[0], protocol) then 0
    else 1 + FirstMountIndex(evs[1..], protocol)
  }

  /** The receive request that arming the first `protocol` mount of `evs`
      issues, unless the role is already claimed. */
  function ArmedFirst(claimed: bool, evs: seq<Event>, protocol: uint8): (armed: multiset<Effect>) {
    var i := FirstMountIndex(evs, protocol);
    if !claimed && i < |evs| then multiset{ReceiveRequest(evs[i].dev, evs[i].instance)} else multiset{}
  }

  /** How the first-mount request of `evs` relates to that of its tail. */
  lemma ArmedFirstCons(claimed: bool, evs: seq<Event>, protocol: uint8)
    requires |evs| > 0
    ensures IsMountOf(evs[0], protocol) ==>
      ArmedFirst(claimed, evs, protocol)
      == if claimed then multiset{} else multiset{ReceiveRequest(evs[0].dev, evs[0].instance)}
    ensures !IsMountOf(evs[0], protocol) ==>
      ArmedFirst(claimed, evs, protocol) == ArmedFirst(claimed, evs[1..], protocol)
  {
    if !IsMountOf(evs[0], protocol) {
      var i := FirstMountIndex(evs[1..], protocol);
      if i < |evs[1..]| {
        assert evs[1..][i] == evs[i + 1];
      }
    }
  }

  /** Applying the first mount of `evs` (giving `first`) adds its count to
      the counters and moves the pending first-mount requests of `evs` into
      `first.out`: together with those still pending in the tail they are
      the requests that were pending before. */
  ghost predicate MountStepped(s: State, evs: seq<Event>, first: Step)
    requires |evs| > 0
  {
    && first.state.kbdCount as int + CountMounts(evs[1..], ProtocolKeyboard) == s.kbdCount as int + CountMounts(evs, ProtocolKeyboard)
    && first.state.mouseCount as int + CountMounts(evs[1..], ProtocolMouse) == s.mouseCount as int + CountMounts(evs, ProtocolMouse)
    && first.state.lastMouse == s.lastMouse && first.state.prevKeyboard == s.prevKeyboard
    && multiset(first.out) + ArmedFirst(first.state.kbdCount != 0, evs[1..], ProtocolKeyboard)
         + ArmedFirst(first.state.mouseCount != 0, evs[1..], ProtocolMouse)
       == ArmedFirst(s.kbdCount != 0, evs, ProtocolKeyboard) + ArmedFirst(s.mouseCount != 0, evs, ProtocolMouse)
  }

  lemma KeyboardMountStep(s: State, evs: seq<Event>)
    requires |evs| > 0 && IsMountOf(evs[0], ProtocolKeyboard)
    requires s.kbdCount as int + CountMounts(evs, ProtocolKeyboard) < 256
    ensures MountStepped(s, evs, Apply(s, evs[0]))
  {
    ArmedFirstCons(s.kbdCount != 0, evs, ProtocolKeyboard);
    ArmedFirstCons(s.mouseCount != 0, evs, ProtocolMouse);
    assert ArmedFirst(true, evs[1..], ProtocolKeyboard) == multiset{};
  }

  lemma MouseMountStep(s: State, evs: seq<Event>)
    requires |evs| > 0 && IsMountOf(evs[0], ProtocolMouse)
    requires s.mouseCount as int + CountMounts(evs, ProtocolMouse) < 256
    ensures MountStepped(s, evs, Apply(s, evs[0]))
  {
    ArmedFirstCons(s.kbdCount != 0, evs, ProtocolKeyboard);
    ArmedFirstCons(s.mouseCount != 0, evs, ProtocolMouse);
    assert ArmedFirst(true, evs[1..], ProtocolMouse) == multiset{};
  }

  lemma OtherMountStep(s: State, evs: seq<Event>)
    requires |evs| > 0 && evs[0].Mounted?
    requires evs[0].protocol != ProtocolKeyboard && evs[0].protocol != ProtocolMouse
    ensures MountStepped(s, evs, Apply(s, evs[0]))
  {
    ArmedFirstCons(s.kbdCount != 0, evs, ProtocolKeyboard);
    ArmedFirstCons(s.mouseCount != 0, evs, ProtocolMouse);
  }

  lemma MountStep(s: State, evs: seq<Event>)
    requires |evs| > 0 && evs[0].Mounted?
    requires s.kbdCount as int + CountMounts(evs, ProtocolKeyboard) < 256
    requires s.mouseCount as int + CountMounts(evs, ProtocolMouse) < 256
    ensures MountStepped(s, evs, Apply(s, evs[0]))
    ensures AllMounts(evs) ==> AllMounts(evs[1..])
  {
    if evs[0].protocol == ProtocolKeyboard {
      KeyboardMountStep(s, evs);
    } else if evs[0].protocol == ProtocolMouse {
      MouseMountStep(s, evs);
    } else {
      OtherMountStep(s, evs);
    }
    if AllMounts(evs) {
      var tl := evs[1..];
      forall i | 0 <= i < |tl| ensures tl[i].Mounted? {
        assert tl[i] == evs[i + 1];
      }
    }
  }

  /** Mounting a batch of interfaces (no counter reaching 256): each counter
      grows by the number of mounts of its role, and the only interfaces
      armed are the first keyboard and the first mouse, each only when its
      role was unclaimed beforehand. */
  lemma {:induction false} MountsArmFirstOfEachRole(s: State, evs: seq<Event>)
    requires AllMounts(evs)
    requires s.kbdCount as int + CountMounts(evs, ProtocolKeyboard) < 256
    requires s.mouseCount as int + CountMounts(evs, ProtocolMouse) < 256
    ensures Run(s, evs).state.kbdCount as int == s.kbdCount as int + CountMounts(evs, ProtocolKeyboard)
    ensures Run(s, evs).state.mouseCount as int == s.mouseCount as int + CountMounts(evs, ProtocolMouse)
    ensures Run(s, evs).state.lastMouse == s.lastMouse
    ensures Run(s, evs).state.prevKeyboard == s.prevKeyboard
    ensures multiset(Run(s, evs).out)
         == ArmedFirst(s.kbdCount != 0, evs, ProtocolKeyboard) + ArmedFirst(s.mouseCount != 0, evs, ProtocolMouse)
    decreases |evs|
  {
    if |evs| > 0 {
      var tl := evs[1..];
      var first := Apply(s, evs[0]);
      MountStep(s, evs);
      MountsArmFirstOfEachRole(first.state, tl);
      var rest := Run(first.state, tl);
      assert Run(s, evs) == Step(rest.state, first.out + rest.out);
      assert multiset(first.out + rest.out) == multiset(first.out) + multiset(rest.out);
    }
  }

  function Min1(n: nat): (m: nat) {
    if n == 0 then 0 else 1
  }

  /** From unclaimed counters, K keyboard and M mouse mounts (K, M < 256)
      arm exactly min(K, 1) + min(M, 1) interfaces, each through a receive
      request for an interface that was mounted. */
  lemma ArmedCountFromReset(s: State, evs: seq<Event>)
    requires AllMounts(evs)
    requires s.kbdCount == 0 && s.mouseCount == 0
    requires CountMounts(evs, ProtocolKeyboard) < 256 && CountMounts(evs, ProtocolMouse) < 256
    ensures |Run(s, evs).out| == Min1(CountMounts(evs, ProtocolKeyboard)) + Min1(CountMounts(evs, ProtocolMouse))
    ensures forall e :: e in Run(s, evs).out ==> exists i :: 0 <= i < |evs| && e == ReceiveRequest(evs[i].dev, evs[i].instance)
  {
    MountsArmFirstOfEachRole(s, evs);
    var out := Run(s, evs).out;
    assert |multiset(out)| == |out|;
    forall e | e in out
      ensures exists i :: 0 <= i < |evs| && e == ReceiveRequest(evs[i].dev, evs[i].instance)
    {
      assert e in multiset(out);
    }
  }

  /** A mouse mount while the mouse role is claimed (and the counter does
      not pass 256) arms nothing; the counter just advances, modulo 256. */
  lemma {:induction false} ClaimedMouseMountsArmNothing(s: State, evs: seq<Event>)
    requires forall i :: 0 <= i < |evs| ==> IsMountOf(evs[i], ProtocolMouse)
    requires 1 <= s.mouseCount && s.mouseCount as int + |evs| <= 256
    ensures Run(s, evs).out == []
    ensures Run(s, evs).state.mouseCount as int == (s.mouseCount as int + |evs|) % 256
    ensures Run(s, evs).state.kbdCount == s.kbdCount
    decreases |evs|
  {
    if |evs| > 0 {
      var first := Apply(s, evs[0]);
      if |evs| > 1 {
        var tl := evs[1..];
        assert forall i :: 0 <= i < |tl| ==> tl[i] == evs[i + 1];
        ClaimedMouseMountsArmNothing(first.state, tl);
      }
    }
  }

  /** The counters are `uint8_t`: the 256th mouse mount of one connection
      wraps the counter to 0, so the 257th mount arms a second mouse
      interface although none was unmounted. */
  lemma CounterWrapArmsSecondMouse(s: State, evs: seq<Event>)
    requires s.mouseCount == 0
    requires |evs| == 257
    requires forall i :: 0 <= i < |evs| ==> IsMountOf(evs[i], ProtocolMouse)
    ensures Run(s, evs).out == [ReceiveRequest(evs[0].dev, evs[0].instance), ReceiveRequest(evs[256].dev, evs[256].instance)]
    ensures Run(s, evs).state.mouseCount == 1
  {
    var head, mid, last := evs[..1], evs[1..256], evs[256..];
    assert evs == head + mid + last;
    RunAppend(s, head + mid, last);
    RunAppend(s, head, mid);
    var s1 := Run(s, head);
    assert s1 == Step(s.(mouseCount := 1), [ReceiveRequest(evs[0].dev, evs[0].instance)]);
    assert forall i :: 0 <= i < |mid| ==> mid[i] == evs[i + 1];
    ClaimedMouseMountsArmNothing(s1.state, mid);
    var s2 := Run(s1.state, mid);
    assert s2.state.mouseCount == 0;
    assert last == [evs[256]];
  }

  /** After any unmount, a keyboard and a mouse mount are both armed again:
      no role stays locked out. */
  lemma NoLockoutAfterUnmount(s: State, dev: uint8, instance: uint8, kbd: Event, mouse: Event)
    requires IsMountOf(kbd, ProtocolKeyboard) && IsMountOf(mouse, ProtocolMouse)
    ensures Run(s, [Unmounted(dev, instance), kbd, mouse]).out
         == [ReceiveRequest(kbd.dev, kbd.instance), ReceiveRequest(mouse.dev, mouse.instance)]
    ensures Run(s, [Unmounted(dev, instance), kbd, mouse]).state.kbdCount == 1
    ensures Run(s, [Unmounted(dev, instance), kbd, mouse]).state.mouseCount == 1
  {
    var evs := [Unmounted(dev, instance), kbd, mouse];
    var s1 := Unmount(s, dev, instance).state;
    var s2 := Mount(s1, kbd.dev, kbd.instance, ProtocolKeyboard).state;
    assert evs[1..] == [kbd, mouse] && evs[1..][1..] == [mouse];
    assert Run(s2, [mouse]).out == [ReceiveRequest(mouse.dev, mouse.instance)];
  }

  // ---------------------------------------------------------------------
  // The count-based report gate
  // ---------------------------------------------------------------------

  /** The gate counts interfaces instead of remembering which one was
      selected: once a second mouse interface has mounted, reports from the
      first, armed, mouse interface are dropped too; only the re-arm remains. */
  lemma SecondMouseSilencesFirst(s: State, dev: uint8, a: uint8, b: uint8, buffer: ReportBuffer)
    requires s.mouseCount == 0
    ensures Run(s, [Mounted(dev, a, ProtocolMouse), Mounted(dev, b, ProtocolMouse), Received(dev, a, ProtocolMouse, buffer)]).out
         == [ReceiveRequest(dev, a), ReceiveRequest(dev, a)]
  {
    var e1, e2, e3 := Mounted(dev, a, ProtocolMouse), Mounted(dev, b, ProtocolMouse), Received(dev, a, ProtocolMouse, buffer);
    var t1 := Apply(s, e1);
    var t2 := Apply(t1.state, e2);
    var t3 := Apply(t2.state, e3);
    assert t2.state.mouseCount == 2;
    RunCons(t2.state, e3, []);
    RunCons(t1.state, e2, [e3]);
    RunCons(s, e1, [e2, e3]);
  }

  /** `last_mouse_report` starts as all zeros, so a motionless report with
      no button held, arriving first after power-on from the selected mouse,
      is suppressed: only the re-arm request is issued. */
  lemma PowerOnStillMouseSuppressed(dev: uint8, instance: uint8, buffer: ReportBuffer)
    requires buffer.asMouse == MouseReport(0, 0, 0, 0)
    ensures Run(Initial, [Mounted(dev, instance, ProtocolMouse), Received(dev, instance, ProtocolMouse, buffer)]).out
         == [ReceiveRequest(dev, instance), ReceiveRequest(dev, instance)]
    ensures Run(Initial, [Mounted(dev, instance, ProtocolMouse), Received(dev, instance, ProtocolMouse, buffer)]).state.lastMouse
         == MouseReport(0, 0, 0, 0)
  {
    var e1, e2 := Mounted(dev, instance, ProtocolMouse), Received(dev, instance, ProtocolMouse, buffer);
    var t1 := Apply(Initial, e1);
    assert t1.state.mouseCount == 1 && t1.state.lastMouse == ZeroMouse;
    RunCons(t1.state, e2, []);
    RunCons(Initial, e1, [e2]);
  }

  /** A composite device exposing a relative mouse (instance 0), an absolute
      mouse (instance 1) and a keyboard (instance 2): the first mouse and the
      keyboard are armed, the keyboard's report is forwarded verbatim, and
      the first mouse's report is dropped because two mice have mounted. */
  lemma CompositeDeviceScenario(s: State, dev: uint8, mouseBuffer: ReportBuffer, kbdBuffer: ReportBuffer)
    requires s.kbdCount == 0 && s.mouseCount == 0
    ensures
      var k := kbdBuffer.asKeyboard;
      Run(s, [Mounted(dev, 0, ProtocolMouse), Mounted(dev, 1, ProtocolMouse), Mounted(dev, 2, ProtocolKeyboard),
              Received(dev, 0, ProtocolMouse, mouseBuffer), Received(dev, 2, ProtocolKeyboard, kbdBuffer)]).out
      == [ReceiveRequest(dev, 0), ReceiveRequest(dev, 2),
          ReceiveRequest(dev, 0),
          KeyboardOut(0, k.modifier, k.keycodes), ReceiveRequest(dev, 2)]
  {
    var e1, e2, e3 := Mounted(dev, 0, ProtocolMouse), Mounted(dev, 1, ProtocolMouse), Mounted(dev, 2, ProtocolKeyboard);
    var e4, e5 := Received(dev, 0, ProtocolMouse, mouseBuffer), Received(dev, 2, ProtocolKeyboard, kbdBuffer);
    var t1 := Apply(s, e1);
    var t2 := Apply(t1.state, e2);
    var t3 := Apply(t2.state, e3);
    var t4 := Apply(t3.state, e4);
    var t5 := Apply(t4.state, e5);
    assert t1.out == [ReceiveRequest(dev, 0)] && t2.out == [] && t3.out == [ReceiveRequest(dev, 2)];
    assert t3.state.kbdCount == 1 && t3.state.mouseCount == 2;
    assert t4.out == [ReceiveRequest(dev, 0)];
    assert t5.out == [KeyboardOut(0, kbdBuffer.asKeyboard.modifier, kbdBuffer.asKeyboard.keycodes), ReceiveRequest(dev, 2)];
    RunCons(t4.state, e5, []);
    RunCons(t3.state, e4, [e5]);
    RunCons(t2.state, e3, [e4, e5]);
    RunCons(t1.state, e2, [e3, e4, e5]);
    RunCons(s, e1, [e2, e3, e4, e5]);
  }

  // ---------------------------------------------------------------------
  // What the bridges remember
  // ---------------------------------------------------------------------

  /** The last mouse (`mouse`) or keyboard (`!mouse`) report call in `out`. */
  function LastEmitted(out: seq<Effect>, mouse: bool): (r: Option<Effect>)
    ensures r.Some? ==> r.value in out && (if mouse then r.value.MouseOut? else r.value.KeyboardOut?)
    decreases |out|
  {
    if |out| == 0 then None
    else
      var e := out[|out| - 1];
      if (if mouse then e.MouseOut? else e.KeyboardOut?) then Some(e)
      else LastEmitted(out[..|out| - 1], mouse)
  }

  lemma {:induction false} LastEmittedAppend(a: seq<Effect>, b: seq<Effect>, mouse: bool)
    ensures LastEmitted(a + b, mouse) == if LastEmitted(b, mouse).Some? then LastEmitted(b, mouse) else LastEmitted(a, mouse)
    decreases |b|
  {
    if |b| == 0 {
      assert a + b == a;
    } else {
      assert (a + b)[..|a + b| - 1] == a + b[..|b| - 1];
      LastEmittedAppend(a, b[..|b| - 1], mouse);
    }
  }

  /** `last_mouse_report` is the last mouse report forwarded downstream, and
      `prev_report` agrees with the last keyboard report forwarded. */
  predicate RemembersLastForwarded(start: State, r: Step) {
    && (match LastEmitted(r.out, true)
        case None => r.state.lastMouse == start.lastMouse
        case Some(e) => r.state.lastMouse == MouseReport(e.buttons, e.x, e.y, e.wheel))
    && (match LastEmitted(r.out, false)
        case None => r.state.prevKeyboard == start.prevKeyboard
        case Some(e) => r.state.prevKeyboard.modifier == e.modifier && r.state.prevKeyboard.keycodes == e.keycodes)
  }

  lemma {:induction false} LastEmittedOfRequests(out: seq<Effect>, mouse: bool)
    requires forall i :: 0 <= i < |out| ==> !out[i].IsEmitted()
    ensures LastEmitted(out, mouse) == None
    decreases |out|
  {
    if |out| > 0 {
      var init := out[..|out| - 1];
      assert forall i :: 0 <= i < |init| ==> init[i] == out[i];
      LastEmittedOfRequests(init, mouse);
    }
  }

  lemma LastEmittedOfPair(x: Effect, y: Effect, mouse: bool)
    requires !y.IsEmitted()
    ensures LastEmitted([x, y], mouse) == if (if mouse then x.MouseOut? else x.KeyboardOut?) then Some(x) else None
  {
  }

  lemma DroppedReportRemembers(s: State, r: Step)
    requires |r.out| == 1 && !r.out[0].IsEmitted() && r.state == s
    ensures RemembersLastForwarded(s, r)
  {
  }

  lemma KeyboardReportRemembers(s: State, dev: uint8, instance: uint8, buffer: ReportBuffer)
    ensures RemembersLastForwarded(s, ReportReceived(s, dev, instance, ProtocolKeyboard, buffer))
  {
    var r := ReportReceived(s, dev, instance, ProtocolKeyboard, buffer);
    if |r.out| == 1 {
      DroppedReportRemembers(s, r);
    } else {
      assert r.out == [r.out[0], r.out[1]];
      LastEmittedOfPair(r.out[0], r.out[1], true);
      LastEmittedOfPair(r.out[0], r.out[1], false);
    }
  }

  lemma MouseReportRemembers(s: State, dev: uint8, instance: uint8, buffer: ReportBuffer)
    ensures RemembersLastForwarded(s, ReportReceived(s, dev, instance, ProtocolMouse, buffer))
  {
    var r := ReportReceived(s, dev, instance, ProtocolMouse, buffer);
    if |r.out| == 1 {
      DroppedReportRemembers(s, r);
    } else {
      assert r.out == [r.out[0], r.out[1]];
      LastEmittedOfPair(r.out[0], r.out[1], true);
      LastEmittedOfPair(r.out[0], r.out[1], false);
    }
  }

  lemma ApplyRemembersLastForwarded(s: State, e: Event)
    ensures RemembersLastForwarded(s, Apply(s, e))
  {
    var r := Apply(s, e);
    match e
    case Mounted(dev, instance, protocol) =>
      LastEmittedOfRequests(r.out, true);
      LastEmittedOfRequests(r.out, false);
    case Unmounted(dev, instance) =>
      LastEmittedOfRequests(r.out, true);
      LastEmittedOfRequests(r.out, false);
    case Received(dev, instance, protocol, buffer) =>
      if protocol == ProtocolKeyboard {
        KeyboardReportRemembers(s, dev, instance, buffer);
      } else if protocol == ProtocolMouse {
        MouseReportRemembers(s, dev, instance, buffer);
      } else {
        DroppedReportRemembers(s, r);
      }
  }

  /** Over any run of callbacks, the mouse bridge's stored report is the last
      mouse report it forwarded (suppressed candidates never overwrite it),
      and likewise for the keyboard bridge's previous report. */
  lemma {:induction false} BridgesRememberLastForwarded(s: State, evs: seq<Event>)
    ensures RemembersLastForwarded(s, Run(s, evs))
    decreases |evs|
  {
    if |evs| > 0 {
      var init, e := evs[..|evs| - 1], evs[|evs| - 1];
      assert evs == init + [e];
      RunAppend(s, init, [e]);
      BridgesRememberLastForwarded(s, init);
      var mid := Run(s, init);
      var step := Apply(mid.state, e);
      assert Run(mid.state, [e]) == Step(step.state, step.out + []) by {
        assert [e][1..] == [];
      }
      assert step.out + [] == step.out;
      ApplyRemembersLastForwarded(mid.state, e);
      LastEmittedAppend(mid.out, step.out, true);
      LastEmittedAppend(mid.out, step.out, false);
    }
  }

  /** Number of downstream report calls in `out`. */
  function CountEmitted(out: seq<Effect>): (n: nat)
    decreases |out|
  {
    if |out| == 0 then 0 else (if out[0].IsEmitted() then 1 else 0) + CountEmitted(out[1..])
  }

  lemma {:induction false} CountEmittedAppend(a: seq<Effect>, b: seq<Effect>)
    ensures CountEmitted(a + b) == CountEmitted(a) + CountEmitted(b)
    decreases |a|
  {
    if |a| == 0 {
      assert a + b == b;
    } else {
      assert (a + b)[1..] == a[1..] + b;
      CountEmittedAppend(a[1..], b);
    }
  }

  /** The same motionless mouse report delivered `n` times to the selected
      mouse interface is forwarded at most once: on the first delivery, and
      only if its buttons differ from the last forwarded report. */
  lemma {:induction false} RepeatedStillMouseForwardedAtMostOnce(s: State, dev: uint8, instance: uint8, buffer: ReportBuffer, n: nat)
    requires s.mouseCount == 1
    requires buffer.asMouse.x == 0 && buffer.asMouse.y == 0 && buffer.asMouse.wheel == 0
    ensures CountEmitted(Run(s, seq(n, _ => Received(dev, instance, ProtocolMouse, buffer))).out)
         == if n > 0 && buffer.asMouse.buttons != s.lastMouse.buttons then 1 else 0
    ensures |Run(s, seq(n, _ => Received(dev, instance, ProtocolMouse, buffer))).out|
         == n + if n > 0 && buffer.asMouse.buttons != s.lastMouse.buttons then 1 else 0
    ensures n > 0 && buffer.asMouse.buttons != s.lastMouse.buttons ==>
      var m := buffer.asMouse;
      Run(s, seq(n, _ => Received(dev, instance, ProtocolMouse, buffer))).out[0] == MouseOut(0, m.buttons, m.x, m.y, m.wheel)
    decreases n
  {
    if n > 0 {
      var evs := seq(n, _ => Received(dev, instance, ProtocolMouse, buffer));
      var rest := seq(n - 1, _ => Received(dev, instance, ProtocolMouse, buffer));
      assert evs[1..] == rest;
      var first := Apply(s, evs[0]);
      assert first.state.lastMouse.buttons == buffer.asMouse.buttons;
      RepeatedStillMouseForwardedAtMostOnce(first.state, dev, instance, buffer, n - 1);
      CountEmittedAppend(first.out, Run(first.state, rest).out);
      assert Run(s, evs).out == first.out + Run(first.state, rest).out;
      if |first.out| == 2 {
        assert first.out[1..] == [first.out[1]];
      }
    }
  }
}
