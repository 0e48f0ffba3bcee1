/**
 Value types shared by the HID bridge: the fixed-width integers of the C
 source, the two boot-protocol report records, the interface protocol tags,
 and the effects the bridge issues towards the USB host and device stacks.
 */
module HidTypes {

  /** C `uint8_t`. */
  newtype uint8 = x: int | 0 <= x < 256

  /** C `int8_t`. */
  newtype int8 = x: int | -128 <= x < 128

  /** The six keycode slots of a boot keyboard report. */
  type Keycodes = s: seq<uint8> | |s| == 6 witness [0, 0, 0, 0, 0, 0]

  /** Interface protocol tags as the host stack reports them (0 is none).
      The bridge's decisions treat every byte other than these two alike:
      no counter, no receive request, no forwarding. (The mount callback's
      log line indexes a three-entry name table with the tag; that logging
      is not part of this model.) */
  const ProtocolKeyboard: uint8 := 1
  const ProtocolMouse: uint8 := 2

  /** `hid_keyboard_report_t`: modifier mask, a reserved byte, six keycodes. */
  datatype KeyboardReport = KeyboardReport(modifier: uint8, reserved: uint8, keycodes: Keycodes)

  /** `hid_mouse_report_t` as the bridge uses it: button mask and three signed deltas. */
  datatype MouseReport = MouseReport(buttons: uint8, x: int8, y: int8, wheel: int8)

  /** One received report buffer, read through either of the two casts the
      callback can apply to it; the interface protocol decides which is read. */
  datatype ReportBuffer = ReportBuffer(asKeyboard: KeyboardReport, asMouse: MouseReport)

  /** Calls the bridge makes into its collaborators, recorded in order:
      a request for the next report of an upstream interface, and the two
      downstream report emitters. */
  datatype Effect =
    | ReceiveRequest(dev: uint8, instance: uint8)
    | KeyboardOut(reportId: uint8, modifier: uint8, keycodes: Keycodes)
    | MouseOut(reportId: uint8, buttons: uint8, x: int8, y: int8, wheel: int8)
  {
    /** True of the two emitter calls, false of a receive request. */
    predicate IsEmitted() {
      KeyboardOut? || MouseOut?
    }
  }

  datatype Option<+T> = None | Some(value: T)
}
