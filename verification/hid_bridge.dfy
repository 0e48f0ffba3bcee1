/**
 The bridging state machine of the host-HID-to-device example: the mount and
 unmount callbacks that select one keyboard and one mouse interface by
 counting, the report callback that routes by those counts and re-arms the
 interface, and the keyboard and mouse bridges that forward to the device
 side. Each callback is a pure transition from a State to a Step, which
 carries the next State and the collaborator calls issued, in order.
 */
module HidBridge {
  import opened HidTypes

  /** The statics of the example: the two 8-bit interface counters, the
      last mouse report forwarded downstream, and the keyboard bridge's
      previous report. */
  datatype State = State(
    kbdCount: uint8,
    mouseCount: uint8,
    lastMouse: MouseReport,
    prevKeyboard: KeyboardReport)

  datatype Step = Step(state: State, out: seq<Effect>)

  const ZeroMouse: MouseReport := MouseReport(0, 0, 0, 0)
  const ZeroKeyboard: KeyboardReport := KeyboardReport(0, 0, [0, 0, 0, 0, 0, 0])

  /** Power-on values of the statics. */
  const Initial: State := State(0, 0, ZeroMouse, ZeroKeyboard)

  /** `uint8_t` increment, wrapping from 255 to 0. */
  function Inc8(c: uint8): (r: uint8)
    ensures r as int == (c as int + 1) % 256
  {
    if c == 255 then 0 else c + 1
  }

  /** Mount callback: a keyboard (mouse) interface bumps the keyboard (mouse)
      counter and is armed with a receive request only when that counter
      becomes 1; an interface of any other protocol changes nothing. */
  function Mount(s: State, dev: uint8, instance: uint8, protocol: uint8): (r: Step)
    ensures protocol == ProtocolKeyboard ==>
      && r.state.kbdCount as int == (s.kbdCount as int + 1) % 256
      && r.state == s.(kbdCount := r.state.kbdCount)
      && (r.state.kbdCount == 1 ==> r.out == [ReceiveRequest(dev, instance)])
      && (r.state.kbdCount != 1 ==> r.out == [])
    ensures protocol == ProtocolMouse ==>
      && r.state.mouseCount as int == (s.mouseCount as int + 1) % 256
      && r.state == s.(mouseCount := r.state.mouseCount)
      && (r.state.mouseCount == 1 ==> r.out == [ReceiveRequest(dev, instance)])
      && (r.state.mouseCount != 1 ==> r.out == [])
    ensures protocol != ProtocolKeyboard && protocol != ProtocolMouse ==> r == Step(s, [])
  {
    if protocol == ProtocolKeyboard then
      var count := Inc8(s.kbdCount);
      Step(s.(kbdCount := count), if count == 1 then [ReceiveRequest(dev, instance)] else [])
    else if protocol == ProtocolMouse then
      var count := Inc8(s.mouseCount);
      Step(s.(mouseCount := count), if count == 1 then [ReceiveRequest(dev, instance)] else [])
    else
      Step(s, [])
  }

  /** Unmount callback: whichever interface goes away, both counters return
      to zero; the bridges' stored reports are kept. */
  function Unmount(s: State, dev: uint8, instance: uint8): (r: Step)
    ensures r.state.kbdCount == 0 && r.state.mouseCount == 0
    ensures r.state.lastMouse == s.lastMouse && r.state.prevKeyboard == s.prevKeyboard
    ensures r.out == []
  {
    Step(s.(kbdCount := 0, mouseCount := 0), [])
  }

  /** Whether `keycode` occupies one of the six slots of `report`. */
  method FindKeyInReport(report: KeyboardReport, keycode: uint8) returns (found: bool)
    ensures found <==> keycode in report.keycodes
  {
    var i := 0;
    while i < 6
      invariant 0 <= i <= 6
      invariant keycode !in report.keycodes[..i]
    {
      if report.keycodes[i] == keycode {
        return true;
      }
      i := i + 1;
    }
    assert report.keycodes[..i] == report.keycodes;
    return false;
  }

  /** Keyboard bridge: every routed report goes downstream unchanged, and
      becomes the previous report. */
  function ProcessKbdReport(s: State, report: KeyboardReport): (r: Step)
    ensures |r.out| == 1 && r.out[0].KeyboardOut? && r.out[0].reportId == 0
    ensures r.out[0].modifier == report.modifier && r.out[0].keycodes == report.keycodes
    ensures r.state.prevKeyboard == report
    ensures r.state.(prevKeyboard := s.prevKeyboard) == s
  {
    Step(s.(prevKeyboard := report), [KeyboardOut(0, report.modifier, report.keycodes)])
  }

  /** The mouse bridge's law: a report goes downstream iff it moves, scrolls,
      or changes the buttons relative to the last forwarded report. */
  predicate MouseForwards(last: MouseReport, c: MouseReport) {
    c.x != 0 || c.y != 0 || c.wheel != 0 || c.buttons != last.buttons
  }

  /** Mouse bridge: suppresses a report with no motion and unchanged buttons;
      otherwise forwards it field for field and remembers it. */
  function ProcessMouseReport(s: State, report: MouseReport): (r: Step)
    ensures MouseForwards(s.lastMouse, report) ==>
      && r.out == [MouseOut(0, report.buttons, report.x, report.y, report.wheel)]
      && r.state == s.(lastMouse := report)
    ensures !MouseForwards(s.lastMouse, report) ==> r == Step(s, [])
  {
    if report.x == 0 && report.y == 0 && report.wheel == 0 && report.buttons == s.lastMouse.buttons then
      Step(s, [])
    else
      Step(s.(lastMouse := report), [MouseOut(0, report.buttons, report.x, report.y, report.wheel)])
  }

  /** Report callback: a keyboard report is handed to the keyboard bridge iff
      the keyboard counter is exactly 1, a mouse report to the mouse bridge
      iff the mouse counter is exactly 1, any other protocol is dropped; in
      every case the same interface is then asked for its next report. */
  function ReportReceived(s: State, dev: uint8, instance: uint8, protocol: uint8, buffer: ReportBuffer): (r: Step)
    // exactly one receive request, the last call, for the reporting interface
    ensures 1 <= |r.out| <= 2 && r.out[|r.out| - 1] == ReceiveRequest(dev, instance)
    ensures forall i :: 0 <= i < |r.out| - 1 ==> r.out[i].IsEmitted()
    // routing never changes the counters, and a drop changes nothing at all
    ensures r.state.kbdCount == s.kbdCount && r.state.mouseCount == s.mouseCount
    ensures |r.out| == 1 ==> r.state == s
    ensures protocol == ProtocolKeyboard ==>
      && (|r.out| == 2 <==> s.kbdCount == 1)
      && (s.kbdCount == 1 ==>
            r.out[0] == KeyboardOut(0, buffer.asKeyboard.modifier, buffer.asKeyboard.keycodes)
            && r.state == s.(prevKeyboard := buffer.asKeyboard))
    ensures protocol == ProtocolMouse ==>
      && (|r.out| == 2 <==> s.mouseCount == 1 && MouseForwards(s.lastMouse, buffer.asMouse))
      && (|r.out| == 2 ==>
            var m := buffer.asMouse;
            r.out[0] == MouseOut(0, m.buttons, m.x, m.y, m.wheel) && r.state == s.(lastMouse := m))
    ensures protocol != ProtocolKeyboard && protocol != ProtocolMouse ==>
      r == Step(s, [ReceiveRequest(dev, instance)])
  {
    var routed :=
      if protocol == ProtocolKeyboard then
        (if s.kbdCount == 1 then ProcessKbdReport(s, buffer.asKeyboard) else Step(s, []))
      else if protocol == ProtocolMouse then
        (if s.mouseCount == 1 then ProcessMouseReport(s, buffer.asMouse) else Step(s, []))
      else
        Step(s, []);
    Step(routed.state, routed.out + [ReceiveRequest(dev, instance)])
  }
}
