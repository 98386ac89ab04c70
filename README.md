# USSD transaction layer of Samsung-RIL, modelled in Dafny

This project models the Supplementary-Services USSD layer of Samsung-RIL
(`ss.c`). The layer sits between the Android radio interface (requests
carrying a token) and the modem's IPC channel (frames carrying a sequence
number). It has four handlers:

- **send USSD** (`ril_request_send_ussd`). It picks an outbound dialect from
  the session state byte `global_ussd_state` and fills a zeroed 192-byte
  frame: header (state, dcs `0x0f`, length), then the payload. It registers
  the acknowledgement callback and transmits the frame.
- **cancel USSD** (`ril_request_cancel_ussd`). Once the radio is ready, it
  sets the session to "terminated by network" before registering a bare
  completion, and transmits a header-only frame.
- **the acknowledgement callback** (`ipc_ss_ussd_callback`). It completes the
  send request and, only when that completion succeeds, resets the session
  to 0.
- **the notification handler** (`ipc_ss_ussd`). For a frame at least a
  header long, it overwrites the session with the frame's state byte and
  maps that byte to the reported code (`ipc2ril_ussd_state`): "0".."5" for
  the six named states, NULL otherwise. It decodes the payload by coding
  scheme (GSM 7-bit, UCS2 pairs to UTF-8, or ASCII) and emits exactly one
  "on USSD" notification. A NULL or shorter frame only gets one
  generic-failure completion.

Layout:

- `wrappers.dfy`: `Option`; `None` stands for a NULL pointer.
- `bytes.dfy`: byte/number conversion.
- `platform.dfy`: what the layer uses without defining it.
  - `Config` holds the unseen constants: the `IPC_SS_USSD_*` codes and the
    sizes of the header, of the generic response and of a pointer. Its
    `Valid()` makes the seven case labels of the send switch pairwise
    distinct, because C forbids duplicate labels. So the initial 0 is a
    state of its own.
  - `Collaborators` holds the pure helpers defined elsewhere: the GSM 7-bit
    packer and unpacker, `utf8_write`, `sms_get_coding_scheme`,
    `ipc_gen_phone_res_check`, and the token/sequence-number maps.
  - C-string and little-endian helpers.
- `ussd_state.dfy`: the state-to-code map and its inverse; the dialect choice.
- `ussd_frame.dfy`: the header and frame layout; the frame builders over
  arrays; the overflow check.
- `ucs2.dfy`: the UCS2 unit computation (as written and corrected) and the
  pair-to-UTF-8 decoding loop over an array.
- `ss.dfy`: the event log, one specification function per handler, and the
  class `UssdLayer`. The class holds `ussdState` (`global_ussd_state`) and
  `events`. Its four methods are verified against those functions.
- `ss_properties.dfy`: what the handlers promise, proved of the
  specification functions.

Every collaborator call is appended to `events`: `Complete`,
`ExpectCallback`, `ExpectComplete`, `Send`, `Unsolicited`. The results that
depend on the outside world are boolean inputs: the radio-state check, the
registration of a bare completion, the transmission, and the return value
of `ril_request_complete`.

In these places the model follows the code as written:

- A state byte outside the case list takes the ASCII branch through
  `default`. This includes an unknown byte left by a notification.
- The overflow check compares against the whole frame, not against
  `192 - sizeof(header)`. The model runs that check. A payload that passes
  it but does not fit behind the header is copied as far as the frame
  reaches, and the send reports the overrun. See Findings.
- The UCS2 pair is combined through plain `char`, as written. Whether
  `char` is signed is `Config.charIsSigned`. With unsigned `char` (the ARM
  ABI) the result is the big-endian code point. See Findings.
- The decoder decodes `size - sizeof(header)` bytes. The declared length
  only decides whether any decoding happens.
- A notification with declared length 0 carries a NULL text, not an empty
  string.
- The state code comes from a C `switch`, so the initial 0 has no code.

## Model

| member | source | states |
|---|---|---|
| Platform.CString | ss.c:111 | `"%s"` reads the bytes before the first NUL, or the whole buffer when it has no NUL |
| Platform.CStringWhole | ss.c:274 | a buffer without NUL reads back whole as a C string |
| Platform.LittleEndianRoundTrip | ss.c:100 | a length stored into a header field that can hold it is read back unchanged |
| Platform.LittleEndianSmall | ss.c:128 | a length below 256 is stored as its low byte followed by zero bytes |
| UssdState.Ipc2RilUssdState | ss.c:194-219 | a reported code is one digit "0".."5"; the initial state 0 has no code (NULL) |
| UssdState.StateCodesInOrder | ss.c:199-218 | the k-th named state (no action, action, terminated, other client, not supported, timeout) is reported as digit k; exactly the six named states have a code |
| UssdState.StateCodeRoundTrip | ss.c:199-218 | a state's code read back gives the state |
| UssdState.CodeStateRoundTrip | ss.c:199-218 | each code "0".."5" is reported for exactly the state it names |
| UssdState.DialectChoice | ss.c:75-135 | the send is a continuation (ASCII, header state "action required") exactly when the session awaits an action or holds a byte that is neither 0 nor a named state; otherwise it is a fresh GSM 7-bit request |
| UssdFrame.HeaderRoundTrip | ss.c:232-243 | a header written with a length below 256 parses back to the same state, dcs and length |
| UssdFrame.AsWrittenCheckAdmitsOverrun | ss.c:85-102 | every encoded length from `192 - sizeof(header) + 1` to 192 passes the written check, and its copy runs past the frame |
| UssdFrame.AsWrittenOverrunExample | ss.c:113-130 | a 192-byte encoding passes the written check and overruns the frame |
| UssdFrame.CorrectedCheck | ss.c:85 | the corrected check rejects all the written one rejects, admits only copies inside the frame, and differs exactly on the overrunning lengths |
| UssdFrame.InFrame | ss.c:102 | the payload bytes of the copy that land inside the frame: all of them exactly when the copy stays inside it |
| UssdFrame.FrameLayout | ss.c:94-102 | frame bytes: state at 0, dcs at 1, length at 2 with the rest of the field zero, the payload at `sizeof(header)` as far as the frame reaches, zero elsewhere |
| UssdFrame.FrameRoundTrip | ss.c:122-130 | a send frame read as a received frame gives back the header fields written (the length being the whole payload's) and the payload bytes that fit; the whole payload when the copy stays inside the frame |
| UssdFrame.BuildFrame | ss.c:94-102 | the zeroed 192-byte array, with header stores and payload copy, equals the frame layout for every length the written check admits; the overrun flag is set exactly when the copy runs past the frame |
| UssdFrame.BuildCancelFrame | ss.c:170-172 | the zeroed header array with state "terminated by network" is the header with dcs 0 and length 0 |
| UssdFrame.CancelFrameShape | ss.c:170-179 | the cancel frame parses as state "terminated by network", dcs 0, length 0 |
| Ucs2.Unit | ss.c:264 | a UCS2 code unit is below 0x10000 |
| Ucs2.UnitBigEndian | ss.c:264 | the unit's high byte is the first byte of the pair and its low byte the second |
| Ucs2.UnitInjective | ss.c:264 | distinct byte pairs give distinct code points |
| Ucs2.UnitAsWrittenMatches | ss.c:262-264 | the written shift-and-or of the two `char` bytes equals `hi*256+lo` when `char` is unsigned or both bytes are below 0x80 |
| Ucs2.UnitAsWrittenSignExtends | ss.c:262-264 | with signed `char` and a low byte of at least 0x80, the written expression gives `lo - 256`: negative, and the high byte is lost |
| Ucs2.SignExtensionExample | ss.c:264 | the pair 0x00 0xE9 gives -23 as written, where the code point is 0xE9 |
| Ucs2.UnitAsWrittenHighSign | ss.c:262-264 | with signed `char`, a high byte of at least 0x80 and a low byte below 0x80 give the code point less 0x10000 |
| Ucs2.UnitAsWrittenLowByte | ss.c:262-264 | as written, the value modulo 256 is always the pair's low byte, signed `char` or not |
| Ucs2.UnitAsWrittenLowInjective | ss.c:262-264 | as written, pairs with the same high byte and different low bytes give different values |
| Ucs2.CodePoints | ss.c:263-264 | an n-byte payload stands for ⌈n/2⌉ code points |
| Ucs2.Units | ss.c:263 | the loop computes ⌈n/2⌉ values from an n-byte payload |
| Ucs2.UnitsUnsigned | ss.c:262-264 | with unsigned `char` the values the loop computes are exactly the payload's code points |
| Ucs2.UnitsOverread | ss.c:263-264 | an even payload decodes from its own bytes; for an odd one the last pair takes its low byte from past the payload, and that byte changes the result, signed `char` or not |
| Ucs2.Utf8ConcatBound | ss.c:259-265 | UTF-8 output has between one and four bytes per code point |
| Ucs2.Utf8Write | ss.c:265 | `utf8_write` stores the code point's one to four bytes at the offset, returns their count, and leaves the bytes before and after them untouched |
| Ucs2.DecodeUcs2 | ss.c:258-267 | every store of the loop, including the final NUL, lies inside the `n*4+1` buffer; the text is the UTF-8 of the values the loop computes from the pairs and has at most 4⌈n/2⌉ bytes |
| Ss.TerminatorOutsideIff | ss.c:251-252 | the `'\0'` store at `data_dec_len` falls outside the `asprintf` string exactly when the decoded bytes hold a NUL |
| Ss.UssdLayer.constructor | ss.c:27 | the session state starts at 0 and no call has been made |
| Ss.UssdLayer.SendUssd | ss.c:59-159 | result, frame-overrun flag, appended calls and state are those of the send specification; the frame is built by the array copy |
| Ss.UssdLayer.CancelUssd | ss.c:161-192 | result, appended calls and state are those of the cancel specification |
| Ss.UssdLayer.OnSendAck | ss.c:29-57 | return value, appended calls and state are those of the acknowledgement specification |
| Ss.UssdLayer.OnUssdNotification | ss.c:221-287 | returns 0; the overrun flag, appended calls and state are those of the notification specification, with the UCS2 text computed by the decoding loop |
| SsProperties.SendGuards | ss.c:68-73 | send never changes the state; NULL or short text gives one generic failure and COMPLETED before the radio check; a radio not ready gives UNHANDLED with no call |
| SsProperties.SendHandledOrCompleted | ss.c:144-158 | HANDLED means one frame sent and no completion; COMPLETED means exactly one generic-failure completion, issued last; UNHANDLED means no call |
| SsProperties.SendOverflowRejected | ss.c:85-92 | the send fails before any registration exactly when the payload is longer than the 192-byte frame; it then gives one generic failure, COMPLETED, no registration and no transmission |
| SsProperties.SendFrameContents | ss.c:94-147 | for every payload of at most 192 bytes: registration comes first, then one 192-byte frame under the token's sequence number; header state follows the dialect, dcs is 0x0f, length is the payload's; the payload is the C string (continuation) or its GSM 7-bit packing, copied as far as the frame reaches; the rest is zero; the copy overruns exactly when the payload is longer than `192 - sizeof(header)`; HANDLED iff the transmission succeeds |
| SsProperties.CancelProperties | ss.c:161-192 | radio not ready: UNHANDLED, nothing changed. Otherwise: state "terminated by network" whatever the calls report; registration first; a header-only frame; HANDLED iff registration and transmission succeed, else one generic failure and COMPLETED |
| SsProperties.AckProperties | ss.c:29-57 | NULL or short: -1 and nothing else. Failed response check: one generic failure. State reset to 0 iff the response succeeds and the success completion goes through. Successful response: the success completion alone when it goes through, else followed by a generic failure for the same token |
| SsProperties.NotifyProperties | ss.c:232-282 | short frame: generic failure for its sequence number's token, nothing emitted, state kept. Otherwise: state = the header's state byte, exactly one notification with that byte's code; text NULL iff the declared length is 0 |
| SsProperties.NotifyUcs2Text | ss.c:255-268 | UCS2 text: the C string of the UTF-8 of the ⌈n/2⌉ values computed from the pairs, the payload's code points when `char` is unsigned, within the `n*4+1` buffer |
| SsProperties.NotifyTerminatorOverrun | ss.c:246-276 | the NUL store overruns in the GSM 7-bit and ASCII branches exactly when the decoded bytes hold a NUL, and never in the UCS2 branch |
| SsProperties.SendThenAck | ss.c:45-49 | a handled send followed by its successful acknowledgement completes with success and returns the session to 0 |
| SsProperties.NotifyDrivesNextSend | ss.c:241 | after a notification, the next send continues the dialogue exactly when the code was "1" or the byte is unknown and nonzero |
| SsProperties.CancelOpensFreshRequest | ss.c:173 | after a cancel that reaches the radio, whatever its calls report, the next send is a fresh GSM 7-bit request |
| SsProperties.AckOpensFreshRequest | ss.c:45-49 | after an acknowledgement whose success completion goes through, the next send is a fresh GSM 7-bit request |
| SsProperties.AsciiNotificationExample | ss.c:269-276 | frame with state "action required" and payload "YES" under an unknown scheme: session awaits action, notification ("1", "YES") |
| SsProperties.TimeoutNotificationExample | ss.c:239-243 | frame with state "timed out" and length 0: session timed out, notification ("5", NULL) |

## Findings

| source | as written | input that shows it | evidently intended | confidence | as-written member | corrected member |
|---|---|---|---|---|---|---|
| ss.c:85 | `data_enc_len > message_size` compares the encoded length with the whole 192-byte frame, but `memcpy` writes it at offset `sizeof(header)` (ss.c:102, also ss.c:113/130) | a continuation reply of 192 non-NUL characters: it passes the check and writes `sizeof(header)` bytes past the frame | reject when `sizeof(header) + data_enc_len > 192` | not executed; high (needs only `sizeof(header) >= 1`) | UssdFrame.AsWrittenOverrunExample | UssdFrame.CorrectedCheck |
| ss.c:262-264 | the shift-and-or of the pair over plain `char` sign-extends bytes of 0x80 and above | the UCS2 pair 0x00 0xE9 ("é") gives c = -23 | c = 0xE9, i.e. `hi * 256 + lo` over unsigned bytes | not executed; holds only where plain `char` is signed (it is unsigned on ARM) | Ucs2.SignExtensionExample | Ucs2.UnitBigEndian |

The handlers follow the code as written, and the corrected definitions sit
beside them:

- `Ss.UssdLayer.SendUssd` runs the `> 192` test. For the overrunning
  lengths it sends the frame with the payload bytes that fit and reports
  the overrun. `UssdFrame.Rejected` is the corrected test;
  `SsProperties.SendFrameContents` shows that the send overruns exactly
  where the corrected test would reject.
- The UCS2 decoder computes the written expression for the target's `char`
  signedness. `Ucs2.Unit` and `Ucs2.CodePoints` are the intended values;
  `Ucs2.UnitsUnsigned` shows that with unsigned `char` the loop computes
  them.

## Left out

- The transport and the pending-response table, which live outside ss.c.
  - Registrations and transmissions are recorded as events.
  - The table itself and the one-record-per-sequence-number rule are not
    modelled.
  - The return value of `ipc_gen_phone_res_expect_callback` is ignored by
    the code (ss.c:144), so the model has no input for it.
- The character codecs (`ascii2gsm7_ussd`, `gsm72ascii`, `utf8_write`,
  `sms_get_coding_scheme`) and `ipc_gen_phone_res_check` are defined outside
  ss.c. They are parameters of the model.
  - The only fact assumed is that `utf8_write` writes one to four bytes.
  - No GSM 7-bit round trip is claimed.
- Negative returns of `ascii2gsm7_ussd` and `asprintf`: encoded lengths are
  the lengths of byte sequences.
- Logging (`RIL_LOG*`).
- Memory management: allocation and freeing, the frame leaked after a send
  (ss.c:147), and the `message == NULL` check (ss.c:137-142), which is
  unreachable because `memset` already dereferenced the buffer.
- A NULL `message` in `ipc_ss_ussd` and `ipc_ss_ussd_callback`.
  - The error path of `ipc_ss_ussd` reads `message->aseq` through the NULL
    pointer (ss.c:285), so a NULL notification message is not modelled.
  - A NULL `message->data` is modelled.
  - A NULL acknowledgement message returns -1 before any dereference, so it
    is modelled.
- The NULL-argument guard of `ipc2ril_ussd_state` (ss.c:196-197): its only
  caller passes non-NULL pointers.
- Reads past a buffer with no NUL by `asprintf("%s")` (ss.c:111, 274). The
  model reads "bytes up to the first NUL or the end".
- The odd-length UCS2 over-read (ss.c:264) is modelled, not left out. The
  byte past the frame is the `trailing` input.
- The send request's size argument is the length of the text buffer. The
  cancel request's unused `data` and `size` arguments are dropped.
- `message->size > 0 && message->data != NULL` (ss.c:243) always holds once
  the guard at ss.c:232 has passed. Only the declared length is tested.
- Layout of `struct ipc_ss_ussd_header`: state at 0, dcs at 1, then the
  length as a little-endian field filling the rest of the header.
- Ss.UssdLayer.SendUssd: the bytes the payload copy writes past the end of
  the 192-byte frame, and whatever memory they overwrite, are not modelled.
  The frame holds the bytes that fit, and the result flags the overrun.
- Concurrency: there is none. Handlers run one at a time, each to completion.
