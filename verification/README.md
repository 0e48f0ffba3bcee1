# HID keyboard/mouse bridge — Dafny model

This project models the bridging logic of the `host_hid_to_device_cdc` example. A
microcontroller is USB host to a composite keyboard+mouse device. It is also a USB
device to a downstream computer. The bridge picks one keyboard interface and one
mouse interface of the upstream device and forwards their boot-protocol reports
downstream.

The C statics `hid_kbd_count`, `hid_mouse_count`, `last_mouse_report` and the
keyboard bridge's `prev_report` become one immutable `State`. Each callback is a
pure transition that returns a `Step`: the next state, plus the calls the callback
makes into the USB stacks, in order, as a list of `Effect`s:

- `ReceiveRequest(dev, instance)` stands for `tuh_hid_receive_report`.
- `KeyboardOut` stands for `tud_hid_keyboard_report`.
- `MouseOut` stands for `tud_hid_mouse_report`.

Modules:

- `HidTypes` (`hid_types.dfy`): the `uint8`/`int8` widths of the C code, the keyboard
  and mouse report records, the protocol tags (1 keyboard, 2 mouse, any other byte
  ignored) and the effects.
- `HidBridge` (`hid_bridge.dfy`): the mount and unmount callbacks, the report
  callback, the two bridges and `find_key_in_report`.
- `HidRuns` (`hid_runs.dfy`): a sequence of host-stack callbacks (`Event`s) folded
  through the transitions, and the properties of such runs.

The counters are 8-bit and wrap, as the C `uint8_t` does. The report gate is the
source's count test (`count == 1`), not a check of which interface was selected.

The comments in the source state an intent the code does not fully keep. They say
that only the first mouse interface is selected and later ones ignored (lines
109-111), and that the report gate checks for the first selected interface (lines
196, 203). The model follows the code, and two lemmas show where it departs from
that intent:

- With interfaces [mouse 0, mouse 1, keyboard 2], the second mouse mount brings
  `hid_mouse_count` to 2. From then on every mouse report is dropped, including
  those of mouse 0, the selected interface (`SecondMouseSilencesFirst`,
  `CompositeDeviceScenario`).
- The counter wraps at 256, so the 257th mouse mount of one connection is armed as
  well (`CounterWrapArmsSecondMouse`).

## Model

| member | source | states |
|---|---|---|
| `HidBridge.Inc8` | examples/host_hid_to_device_cdc/host_hid_to_device_cdc.c:17-18 | the counters are `uint8_t`: an increment is taken modulo 256 |
| `HidBridge.Mount` | examples/host_hid_to_device_cdc/host_hid_to_device_cdc.c:95-118 | a keyboard (mouse) mount raises only the keyboard (mouse) counter, by one modulo 256. It issues exactly one receive request, for that interface, iff the new count is 1, and none otherwise. A mount of any other protocol changes no state and issues no request |
| `HidBridge.Unmount` | examples/host_hid_to_device_cdc/host_hid_to_device_cdc.c:122-126 | any unmount, whatever its device address or instance, sets both counters to 0. It keeps the stored reports and calls no emitter |
| `HidBridge.FindKeyInReport` | examples/host_hid_to_device_cdc/host_hid_to_device_cdc.c:135-143 | the result is true iff the keycode occupies one of the report's six slots |
| `HidBridge.ProcessKbdReport` | examples/host_hid_to_device_cdc/host_hid_to_device_cdc.c:146-159 | every routed keyboard report produces exactly one keyboard emission, report id 0, with the input's modifier and all six keycodes unchanged. The previous report becomes the input and nothing else changes |
| `HidBridge.ProcessMouseReport` | examples/host_hid_to_device_cdc/host_hid_to_device_cdc.c:163-176 | suppression law: a candidate is emitted iff x, y or wheel is nonzero or its buttons differ from the last forwarded report. When it is emitted, all four fields pass unchanged and it becomes the stored report. A suppressed candidate changes nothing and emits nothing |
| `HidBridge.ReportReceived` | examples/host_hid_to_device_cdc/host_hid_to_device_cdc.c:191-218 | a keyboard report is forwarded iff the keyboard count is 1. A mouse report is forwarded iff the mouse count is 1 and the suppression law lets it through. Other protocols are never forwarded. The counters never change, and a dropped report changes no state. Every call ends with exactly one receive request, for the same (device, instance), whatever the outcome |
| `HidRuns.MountsArmFirstOfEachRole` | examples/host_hid_to_device_cdc/host_hid_to_device_cdc.c:95-118 | over a batch of mounts where no counter reaches 256, each counter grows by the number of mounts of its role. The requests issued are exactly one for the first keyboard mount and one for the first mouse mount, each only if that role was unclaimed before the batch |
| `HidRuns.ArmedCountFromReset` | examples/host_hid_to_device_cdc/host_hid_to_device_cdc.c:95-118 | from zero counters, K keyboard and M mouse mounts (K, M < 256) arm exactly min(K,1) + min(M,1) interfaces, each one that was mounted |
| `HidRuns.ClaimedMouseMountsArmNothing` | examples/host_hid_to_device_cdc/host_hid_to_device_cdc.c:106-118 | while the mouse role is claimed and the counter stays at or below 256, more mouse mounts arm nothing. The counter advances modulo 256 |
| `HidRuns.CounterWrapArmsSecondMouse` | examples/host_hid_to_device_cdc/host_hid_to_device_cdc.c:106-118 | starting from a zero mouse counter, 257 mouse mounts with no unmount arm two interfaces, the 1st and the 257th, because the 8-bit counter wraps back to 0 |
| `HidRuns.NoLockoutAfterUnmount` | examples/host_hid_to_device_cdc/host_hid_to_device_cdc.c:122-126 | from any state, an unmount followed by a keyboard mount and a mouse mount arms both, and leaves both counters at 1 |
| `HidRuns.SecondMouseSilencesFirst` | examples/host_hid_to_device_cdc/host_hid_to_device_cdc.c:202-207 | once a second mouse interface mounts, a report from the first, armed mouse is not forwarded, whatever its contents. Only the re-arm request is issued |
| `HidRuns.PowerOnStillMouseSuppressed` | examples/host_hid_to_device_cdc/host_hid_to_device_cdc.c:21 | `last_mouse_report` starts at all zeros, so the first report after power-on from the selected mouse is suppressed when it has no motion and no button held. Only the re-arm is issued and the stored report stays zero |
| `HidRuns.CompositeDeviceScenario` | examples/host_hid_to_device_cdc/host_hid_to_device_cdc.c:193-218 | for a device with a relative mouse, an absolute mouse and a keyboard: the first mouse and the keyboard are armed, the keyboard report goes out verbatim, and the first mouse's report is dropped |
| `HidRuns.BridgesRememberLastForwarded` | examples/host_hid_to_device_cdc/host_hid_to_device_cdc.c:146-176 | over any run of callbacks, `last_mouse_report` equals the last mouse report emitted, or its old value if none was emitted. Suppressed reports never overwrite it. `prev_report` agrees with the last keyboard report emitted |
| `HidRuns.RepeatedStillMouseForwardedAtMostOnce` | examples/host_hid_to_device_cdc/host_hid_to_device_cdc.c:167-176 | the same motionless mouse report delivered n times to the selected mouse is emitted at most once. It is emitted exactly once iff n > 0 and its buttons differ from the last forwarded report, and then as the first call, on the first delivery. Every delivery is re-armed |

## Left out

- `main` and `core1_main` (clock setup, second-core launch, the `tuh_task`/`tud_task` polling loops): board bring-up and two-core concurrency, not bridging logic.
- The CDC diagnostics (`sprintf`, `tud_cdc_write*`, `tud_cdc_write_flush`) and the `tuh_vid_pid_get` lookup: output only, with no effect on control flow for tags 0, 1 and 2.
- Mount of an interface whose protocol tag is 3 or more: the model treats it as a no-op (no counter, no request). The source builds its log line first, indexing the three-entry `protocol_str` table (line 82) with the tag (line 89). For such a tag that is an out-of-bounds read passed to `sprintf`, which is undefined behaviour the model does not represent.
- The boolean returned by `tuh_hid_receive_report`: it only selects a log line, so the model records the request and drops the result.
- The TinyUSB host and device stacks: `tuh_hid_interface_protocol` becomes a protocol argument of each callback. The receive request and the two emitters become recorded effects.
- Raw report bytes: the C code casts the byte pointer to a keyboard or a mouse report without checking `len`. The model passes a `ReportBuffer` holding both typed views, and the protocol selects which one is read. Short or malformed buffers are not modelled.
- The report descriptor bytes passed to the mount callback: the code ignores them.
- The `pan` field of TinyUSB's mouse report: the bridge copies it into `last_mouse_report` but never reads or emits it, so the model's mouse report keeps only buttons, x, y and wheel.
- The unused `dev_addr` parameter of the two bridges is dropped.
- HidRuns.MountsArmFirstOfEachRole: stated only for batches in which no counter reaches 256. The wrapping case is covered separately by `CounterWrapArmsSecondMouse`.
