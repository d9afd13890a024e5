# Mumble Ping indicator: a verified model

The GNOME Shell extension "Mumble Ping" puts a small indicator in the top
panel. The indicator shows how many users are connected to a Mumble server
and its capacity (`users/maxUsers`). To get these numbers it sends the
server a UDP ping of 12 bytes and decodes the 24-byte reply on a repeating
timer. It shows a red icon when a poll fails and `...` while it waits after a
settings change. In the newer TypeScript version it can also be switched off.

This project models the two pieces of the extension that have logic of their
own. It models each in both of its versions: the newer TypeScript files and
the older GJS JavaScript files.

- **The ping codec** (`mumblePing.ts`, `mumblePing.js`): the fixed request,
  the big-endian word reader `_readUInt32BE` and the reply decoder
  `_parseResponseBytes`. They are modelled with JavaScript's own semantics:
  - a missing Uint8Array element is `undefined`;
  - `<<` wraps to a signed 32-bit result;
  - `Number(undefined)` is NaN and prints as `NaN`;
  - `Uint8Array.from` turns a digit string into digit values.
- **The indicator** (`MumbleIndicatorButton` in `extension.ts`, `Indicator`
  in `extension.js`): its status record, label, icon, enabled flag, timer,
  cached connection and the one cancellation-token slot, together with the
  poll cycle `#mainLoop` that feeds them.

## Structure

| file | module | contents |
|---|---|---|
| `wrappers.dfy` | `Wrappers` | `Option` |
| `js_runtime.dfy` | `JsRuntime` | JavaScript primitives from ECMA-262: element access, ToInt32 (ECMA-262 section 7.1.6), `<<` (ECMA-262 section 13.9.1), Number::toString, `Array.prototype.join`, `Uint8Array.from` on a string. `ElementAt` (a Uint8Array index: the byte inside the array, `undefined` outside it) and `Uint8ArrayFrom` (one byte per character: a digit's value, 0 otherwise) are plain definitions of these primitives; what the codec relies on is proved about their uses (`ShiftLeftOctet`, `PingBodyBytes`) |
| `mumble_ping_ts.dfy` | `MumblePingTs` | the codec of `mumblePing.ts`: `ReadUInt32BE` and `ParseResponseBytes` as loop methods proved equal to the pure functions `Int32BE` and `ParseResponse`, the request constants, and the decoder's properties |
| `mumble_ping_js.dfy` | `MumblePingJs` | what `mumblePing.js` does differently: the request body as the string `'000012345678'` and the reply passed on without a null fallback. Its `_readUInt32BE` and `_parseResponseBytes` are the same code as the TypeScript file and reuse the `MumblePingTs` members |
| `poll_cycle.dfy` | `PollCycle` | the poll state shared by both indicators (`PollState`): timer, connection, token slot, cancelled tokens and suspended cycles; the pure step functions of `#mainLoop`; and the invariant `PollValid` with its lemmas |
| `extension_ts.dfy` | `ExtensionTs` | the display transitions as pure functions on `View`, their lemmas, and `class MumbleIndicatorButton` |
| `extension_js.dfy` | `ExtensionJs` | the same for `class Indicator` of `extension.js` |

How the asynchronous poll cycle is represented:

- **A cycle.** Each call of `#mainLoop` creates a fresh `Gio.Cancellable`.
  The model names the call by that cancellable's `Token`. The synchronous
  part of the call is the method `MainLoop`.
- **Suspension.** The call then waits at an `await`. While it waits, it is
  an entry in `pending`, which records whether it waits on `createClient` or
  on `pingMumble`.
- **Completion.** When the awaited Gio operation settles, one of the event
  methods `ConnectDone` or `PingDone` runs. It receives the cycle's token and
  an `Outcome`: `Done(value)`, `Cancelled` (the `Gio.IOErrorEnum.CANCELLED`
  rejection) or `Failed` (any other rejection).
- **What Gio promises.** An operation whose cancellable has been cancelled
  settles as CANCELLED. The model takes this promise about the environment
  as the precondition `PollCycle.HonoursCancel` of the event methods.

The display specification is a pure `View` (status, last response, label,
icon) with one transition function per method:

- `AfterUpdate`, `AfterError` and `AfterWaiting` for the three status
  methods;
- `AfterDisable` for the disabling branch of `toggleEnableDisable`.

Each class method is tied to its function by an `ensures Display() ==
AfterX(old(Display()))` clause and states its poll state exactly. The lemmas
about the transition functions carry the properties.

The model follows the code as written. In these places the code behaves
differently from what one might expect of such a poller:

- **No length check.** The decoder never rejects a reply, whatever its
  length. Missing bytes read as `undefined`, which `<<` turns into 0 and
  `Number` into NaN.
- **Signed words.** `_readUInt32BE` is named unsigned, but it returns the
  signed two's-complement reading: `b << 24` is a signed 32-bit value. So a
  word with its top bit set comes out as the word minus 2^32.
- **CANCELLED is an error.** A CANCELLED rejection goes to ERROR, just like
  any other failure (`extension.ts:218-220`, `extension.js:176-178`). A
  superseded cycle therefore does change the display when it finishes.
- **Disabled stays disabled.** ERROR is suppressed while DISABLED, because
  the guard is `!status` and `Status.DISABLED` is 0 (`extension.ts:260`).
  So the cancelled completions that follow a disable leave the state
  DISABLED.
- **Construction while disabled.** A `MumbleIndicatorButton` built with
  'enabled' off starts NEUTRAL, not DISABLED. It runs no cycle and arms no
  timer.
- **Disabling keeps the last response.** Disabling clears the label and sets
  DISABLED, but `lastResponse` stays as it was.
- **Stop does not cancel.** `#stopMainLoop` disarms the timer and forgets
  the connection, but it does not cancel the cycle in flight. A settings
  change therefore lets a suspended `createClient` complete. That completion
  re-caches its connection.
- **Failures and the connection.** In `extension.ts` a non-cancel failure
  drops the cached connection. In `extension.js` only `_stopMainLoop` clears
  it.
- **The JS restart.** The `restart` closure of `extension.js` shows `...`
  unconditionally and then stops and re-arms the timer. The TypeScript one
  stops first and only re-arms when enabled.
- **The first JS reply.** In `extension.js` `lastResponse` starts out null.
  The optional chains then yield `undefined`, so the first reply always
  counts as a change. In `extension.ts` it starts as 0 of 0, so a first
  reply of 0 users of 0 changes nothing and the label stays empty.

## Model

| member | source | states |
|---|---|---|
| JsRuntime.ToInt32 | mumblePing.ts:21 | the left operand of `<<` is brought into [-2^31, 2^31); `undefined`, through NaN, becomes 0 |
| JsRuntime.ShiftLeft | mumblePing.ts:21 | `x << s` is always a signed 32-bit value |
| JsRuntime.Pow2Add | mumblePing.ts:19-23 | shifting by a + b positions multiplies by 2^a times 2^b; this gives the weights 16777216, 65536, 256 and 1 of the reader's shifts by 24, 16, 8 and 0 |
| JsRuntime.ShiftLeftOctet | mumblePing.ts:21 | a byte (0 when missing) shifted by 0, 8, 16 or 24 is the byte times 2^s, except that a shift by 24 of a byte >= 128 wraps to that value minus 2^32 |
| JsRuntime.Decimal | mumblePing.ts:31 | the string of a natural number is a non-empty run of decimal digits |
| JsRuntime.DecimalRoundTrip | mumblePing.ts:29-31 | reading the decimal string of a number back gives the number |
| MumblePingTs.ReadUInt32BE | mumblePing.ts:17-25 | the loop returns `Int32BE`: the big-endian value of the four bytes at the start position (missing bytes count as 0), less 2^32 when the first byte is >= 128 (the reader at mumblePing.js:17-25 is the same code) |
| MumblePingTs.Int32BEIsTwosComplement | mumblePing.ts:17-25 | the reader's result is the two's-complement reading of the unsigned big-endian word; it lies in [-2^31, 2^31) and is negative exactly when the first byte is >= 128 |
| MumblePingTs.Int32BERoundTrip | mumblePing.ts:17-25 | a word v < 2^32 written as four big-endian bytes reads back as v when v < 2^31 and as v - 2^32 otherwise |
| MumblePingTs.ParseResponseBytes | mumblePing.ts:27-42 | the decoder's loop and reads compute `ParseResponse`: version from `Number` of bytes 1..3 joined by '.', users, maxUsers and bandwidth read at offsets 12, 16 and 20 (the decoder at mumblePing.js:27-43 is the same code) |
| MumblePingTs.PingMumble | mumblePing.ts:107-118 | one exchange writes exactly the 12 bytes 0,0,0,0,1,2,3,4,5,6,7,8 and asks for exactly 24 bytes; whatever arrives, the result has a version and a bandwidth, users, maximum users and bandwidth are signed 32-bit values, a reply of at least four bytes gives the version as bytes 1.2.3 in decimal, and a null `get_data()` gives version "NaN.NaN.NaN" with 0 users of 0 and bandwidth 0 |
| MumblePingTs.DecodeIsTotal | mumblePing.ts:27-42 | decoding a reply of any length never fails: it yields a version string and three counters in [-2^31, 2^31), and for a reply of at least four bytes the version is the dotted decimal of bytes 1, 2 and 3 |
| MumblePingTs.ParseReadsOnlyItsOffsets | mumblePing.ts:28-40 | two replies that agree at bytes 1..3 and 12..23 decode alike: byte 0, bytes 4..11 and bytes past 23 never matter |
| MumblePingTs.ShortReplyReadsAsZeroPadded | mumblePing.ts:27-42 | there is no length check: a reply of 4 to 23 bytes decodes as if padded with zeros to 24, and a longer one as its first 24 bytes |
| MumblePingTs.ShortReplyReportsNoUsers | mumblePing.ts:32-34 | a reply of at most 12 bytes decodes to 0 users of 0 with bandwidth 0 |
| MumblePingTs.EmptyReplyDecoded | mumblePing.ts:27-42 | the empty reply, which is also what a null `get_data()` falls back to (mumblePing.ts:117), decodes to version "NaN.NaN.NaN", 0 users of 0 and bandwidth 0 |
| MumblePingTs.ParseRoundTrip | mumblePing.ts:27-42 | a 24-byte reply built from version bytes, 8 echoed bytes and three counters below 2^31 decodes to the dotted version bytes 1..3 and exactly those counters |
| MumblePingTs.ExampleReply | mumblePing.ts:27-42 | the reply of a 1.2.3 server with 12 of 100 users and 72000 bit/s decodes to exactly those values |
| MumblePingTs.VersionStringRoundTrip | mumblePing.ts:28-31 | the version string is the decimal values of bytes 1, 2 and 3 joined by '.', and splitting it at '.' gives those three bytes back |
| MumblePingJs.PingBodyBytes | mumblePing.js:3 | the body '000012345678' passed through `Uint8Array.from` is 12 bytes long and identical to 0,0,0,0,1,2,3,4,5,6,7,8 |
| MumblePingJs.PingMumble | mumblePing.js:73-85 | the JS exchange writes the same 12 bytes, asks for exactly 24, and decodes whatever arrives without a length check, exactly as the TS exchange does |
| PollCycle.AtMostOneLiveCycle | extension.ts:191-199 | at any time at most one suspended cycle has an uncancelled operation, and it is the one whose token is in the slot |
| PollCycle.BeginCycleSupersedes | extension.ts:196-209 | starting a cycle cancels every earlier suspended cycle and leaves the new one as the only live cycle; it connects only when no connection is cached and otherwise pings at once with its own token |
| PollCycle.CancelPendingKeepsValid | extension.ts:191-194 | cancelling the pending requests empties the slot and leaves no live cycle |
| PollCycle.StopStartKeepValid | extension.ts:151-171 | arming or disarming the timer and forgetting the connection keep the poll invariant |
| PollCycle.SupersededCycleIsCancelled | extension.ts:204-220 | an operation of a superseded cycle can only settle as CANCELLED; an operation that succeeds or fails otherwise belongs to the cycle whose token is in the slot |
| PollCycle.SettlingKeepsValid | extension.ts:196-226 | every way a suspended cycle can settle (connected, pinged, rejected with or without dropping the connection) keeps the poll invariant |
| ExtensionTs.FalsyStatusIsDisabled | extension.ts:22-27 | DISABLED is the only status whose code is 0, so it is the only one the `!status` guard stops |
| ExtensionTs.ChangeDetectionExact | extension.ts:274-285 | once something has been shown, `#hasStatusChanged` holds exactly when the panel does not already show the reply as NEUTRAL with its count |
| ExtensionTs.UpdateShowsReply | extension.ts:246-257 | a changed reply is shown as `users/maxUsers` with the neutral icon, becomes `lastResponse` and makes the status NEUTRAL; an unchanged or null reply changes nothing |
| ExtensionTs.UpdateIdempotent | extension.ts:246-285 | applying the same reply twice in a row: the second update is a no-op |
| ExtensionTs.FirstZeroReplyKeepsBlank | extension.ts:67-73 | from the initial NEUTRAL 0/0 state, a first reply of 0 users of 0 is no change, so the label stays empty |
| ExtensionTs.ErrorTransition | extension.ts:259-267 | the error transition does nothing while DISABLED or ERROR; otherwise it sets ERROR, clears the label and shows the red icon; it keeps `lastResponse` and a second call changes nothing |
| ExtensionTs.WaitingTransition | extension.ts:122-127 | the waiting transition leads to WAITING with '...', changes nothing when already WAITING, and is idempotent |
| ExtensionTs.TransitionsKeepConsistent | extension.ts:246-267 | the update, error, waiting and disable transitions keep the label and icon in agreement with the status |
| ExtensionTs.MumbleIndicatorButton.constructor | extension.ts:61-85 | the indicator starts NEUTRAL with 0 of 0 users, an empty label and the neutral icon; only when 'enabled' is set does it start one cycle and arm the timer |
| ExtensionTs.MumbleIndicatorButton.SetIndicatorToWaiting | extension.ts:122-127 | the new display is `AfterWaiting` of the old one; nothing else changes |
| ExtensionTs.MumbleIndicatorButton.UpdateIndicator | extension.ts:246-257 | the new display is `AfterUpdate` of the old one and the reply; nothing else changes |
| ExtensionTs.MumbleIndicatorButton.SetIndicatorToError | extension.ts:259-267 | the new display is `AfterError` of the old one; nothing else changes |
| ExtensionTs.MumbleIndicatorButton.CancelPendingRequests | extension.ts:191-194 | the slot's token, if any, is cancelled and the slot emptied |
| ExtensionTs.MumbleIndicatorButton.StartMainLoop | extension.ts:151-160 | the timer is armed; nothing else changes |
| ExtensionTs.MumbleIndicatorButton.StopMainLoop | extension.ts:165-171 | the timer is disarmed and the connection forgotten; nothing else changes |
| ExtensionTs.MumbleIndicatorButton.MainLoop | extension.ts:196-209 | the previous token is cancelled, a fresh token fills the slot, and the new cycle waits on `createClient` or, with a cached connection, on `pingMumble` |
| ExtensionTs.MumbleIndicatorButton.TimerFired | extension.ts:154-157 | a timer tick starts exactly one cycle |
| ExtensionTs.MumbleIndicatorButton.ConnectDone | extension.ts:204-225 | a connection is cached and the ping sent with the slot's token; CANCELLED goes to ERROR; another failure also drops the connection; a superseded cycle can at most go to ERROR, and nothing changes the display while DISABLED |
| ExtensionTs.MumbleIndicatorButton.PingDone | extension.ts:211-225 | a reply clears the slot and updates the display with the decoded reply; CANCELLED goes to ERROR; another failure also drops the connection; a superseded cycle can at most go to ERROR, and nothing changes the display while DISABLED |
| ExtensionTs.MumbleIndicatorButton.ToggleEnableDisable | extension.ts:173-189 | 'enabled' flips and the timer stops with the connection forgotten; enabling shows '...', starts one cycle and arms the timer; disabling cancels the slot's token, clears the label and sets DISABLED |
| ExtensionTs.MumbleIndicatorButton.SettingsChanged | extension.ts:107-113 | the loop stops; only when enabled does the indicator show '...' and re-arm the timer; no immediate cycle starts and no cycle is cancelled |
| ExtensionJs.ErrorGuardNeverFires | extension.js:211-219 | for every view, the status code is at least 1, so the `!status` guard never fires and the error transition always reaches ERROR |
| ExtensionJs.FirstReplyAlwaysShown | extension.js:226-237 | with no last response, every reply counts as a change and is then shown and remembered |
| ExtensionJs.ChangeDetectionExact | extension.js:226-237 | in every consistent state, `_hasStatusChanged` holds exactly when the panel does not already show the reply as NEUTRAL with its count |
| ExtensionJs.UpdateShowsReply | extension.js:197-209 | after an update the reply is shown, whether or not it was a change; an unchanged or null reply changes nothing |
| ExtensionJs.UpdateIdempotent | extension.js:197-237 | applying the same reply twice in a row: the second update is a no-op |
| ExtensionJs.ErrorTransition | extension.js:211-219 | the error transition always ends in ERROR with no label and the red icon, keeps the last response, and is idempotent |
| ExtensionJs.WaitingTransition | extension.js:87-92 | the waiting transition leads to WAITING with '...', changes nothing when already WAITING, and is idempotent |
| ExtensionJs.TransitionsKeepConsistent | extension.js:197-219 | the update, error and waiting transitions keep the label and icon in agreement with the status |
| ExtensionJs.Indicator.constructor | extension.js:34-53 | the indicator starts NEUTRAL with no last response, always starts one cycle and arms the timer |
| ExtensionJs.Indicator.SetIndicatorToWaiting | extension.js:87-92 | the new display is `AfterWaiting` of the old one; nothing else changes |
| ExtensionJs.Indicator.UpdateIndicator | extension.js:197-209 | the new display is `AfterUpdate` of the old one and the reply; nothing else changes |
| ExtensionJs.Indicator.SetIndicatorToError | extension.js:211-219 | the new display is `AfterError` of the old one; nothing else changes |
| ExtensionJs.Indicator.CancelPreviousIteration | extension.js:145-150 | the slot's token is cancelled and the slot emptied only when a token is present |
| ExtensionJs.Indicator.StartMainLoop | extension.js:115-124 | the timer is armed; nothing else changes |
| ExtensionJs.Indicator.StopMainLoop | extension.js:129-135 | the timer is disarmed and the connection forgotten; nothing else changes |
| ExtensionJs.Indicator.MainLoop | extension.js:152-167 | the previous token is cancelled, a fresh token fills the slot, and the new cycle waits on `createClient` or, with a cached connection, on `pingMumble` |
| ExtensionJs.Indicator.TimerFired | extension.js:119-122 | a timer tick starts exactly one cycle |
| ExtensionJs.Indicator.ConnectDone | extension.js:162-182 | a connection is cached and the ping sent with the slot's token; any rejection goes to ERROR and keeps the cached connection; a superseded cycle can at most go to ERROR |
| ExtensionJs.Indicator.PingDone | extension.js:169-182 | a reply clears the slot and updates the display with the decoded reply; any rejection goes to ERROR and keeps the cached connection; a superseded cycle can at most go to ERROR |
| ExtensionJs.Indicator.SettingsChanged | extension.js:73-78 | the indicator shows '...' unconditionally, then the timer is stopped with the connection forgotten and re-armed; no immediate cycle starts |

## Left out

- The preference windows (`prefs.ts`, `prefs.js`) are widget code bound to settings keys and are not modelled.
- Socket I/O (`createClient`, `_writeByteString` / `writeByteStringToConnectionAsync`, `read_bytes_async`, `Gio._promisify`) is foreign Gio code. Its results enter as the `Outcome` of the event methods `ConnectDone` and `PingDone`, and a connection is an opaque number.
- Gio's cancellation promise is an assumption, not a proof: `HonoursCancel` requires that an operation whose cancellable was cancelled settles as CANCELLED.
- The GLib timer (`timeout_add_seconds`, `source_remove`) is the boolean `timerArmed`. The refresh interval and real time are not modelled. A tick is the event method `TimerFired`.
- Concurrency as such is not modelled. The GNOME Shell main loop runs one completion at a time, and each completion is one call of an event method.
- The settings store is not modelled. Host, port and refresh timeout are only read by the left-out I/O and timer code. The 'enabled' key is the field `enabled`, which only `toggleEnableDisable` writes. A settings-change signal is the method `SettingsChanged`.
- Widgets, icon file paths, gettext, the popup menu, `_onDestroy` with its signal disconnection, debug logging and the `Extension` enable/disable lifecycle are not modelled. The label is the datatype `Label`; the icon is `Icon`.
- The `_handleError` / `#handleError` helpers only log and then call the error transition. They are inlined into `ConnectDone` and `PingDone`.
- JsRuntime.ToInt32: covers only the numbers the codec meets (integers and NaN), not general floating-point values. Its contract states the range and the NaN case. The reduction modulo 2^32 is left to its body, and ToInt32OfWord proves it for 32-bit words.
- JsRuntime.ShiftLeft: its contract states only the signed 32-bit range. The exact value for the shifts the reader uses is the contract of ShiftLeftOctet.
- MumblePingTs.PingMumble: `get_data()` is taken as an input, so the model does not state how many bytes a datagram delivers.
