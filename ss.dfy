/**
 * The USSD transaction layer: the session state byte `global_ussd_state`
 * and the four handlers that read and write it — the "send USSD" and
 * "cancel USSD" requests, the acknowledgement callback of a send, and the
 * handler of USSD notifications pushed by the modem. Every call into a
 * collaborator is recorded as an `Event`; the results of the calls whose
 * outcome depends on the world outside (radio state, transport, request
 * completion) are inputs.
 */
module Ss {
  import opened Wrappers
  import opened Platform
  import opened UssdState
  import opened UssdFrame
  import Ucs2

  /** The completion status handed to `ril_request_complete`. */
  datatype Status = Success | GenericFailure

  /** `RIL_REQUEST_HANDLED`, `RIL_REQUEST_COMPLETED`, `RIL_REQUEST_UNHANDLED`. */
  datatype RequestResult = Handled | Completed | Unhandled

  /** The calls the layer makes into its collaborators. */
  datatype Event =
    | Complete(token: nat, status: Status)
      // ril_request_complete(token, status, NULL, 0)
    | ExpectCallback(seqNo: nat)
      // ipc_gen_phone_res_expect_callback(seq, IPC_SS_USSD, ipc_ss_ussd_callback)
    | ExpectComplete(seqNo: nat)
      // ipc_gen_phone_res_expect_complete(seq, IPC_SS_USSD)
    | Send(seqNo: nat, size: nat, bytes: seq<bv8>)
      // ipc_fmt_send(seq, IPC_SS_USSD, IPC_TYPE_EXEC, bytes, size)
    | Unsolicited(stateCode: Option<string>, text: Option<seq<bv8>>)
      // ril_request_unsolicited(RIL_UNSOL_ON_USSD, {stateCode, text}, …)

  /**
   * What the send request returns, and whether its payload copy ran past
   * the end of the 192-byte frame.
   */
  datatype SendResult = SendResult(request: RequestResult, frameOverrun: bool)

  /** What one handler does: its return value, the calls it makes, the state byte it leaves. */
  datatype Step<R> = Step(result: R, events: seq<Event>, state: bv8)

  /** A generic acknowledgement as the transport delivers it. */
  datatype AckMessage = AckMessage(aseq: nat, data: Option<seq<bv8>>)

  /** The number of completions a handler issues for `token`. */
  function Completions(events: seq<Event>, token: nat): nat {
    if events == [] then 0
    else Completions(events[..|events| - 1], token)
         + (if events[|events| - 1].Complete? && events[|events| - 1].token == token then 1 else 0)
  }

  /** The number of frames a handler transmits. */
  function Sends(events: seq<Event>): nat {
    if events == [] then 0
    else Sends(events[..|events| - 1]) + (if events[|events| - 1].Send? then 1 else 0)
  }

  // ---------------------------------------------------------------- send

  /** The payload the send request encodes from the caller's text in each dialect. */
  function EncodePayload(env: Collaborators, d: Dialect, data: seq<bv8>): seq<bv8> {
    match d
    case Gsm7Dialect => env.gsm7Pack(data)
    case AsciiDialect => CString(data)
  }

  /**
   * `ril_request_send_ussd` on the text `data` (NULL as `None`; its size is
   * its length) with the session in `state`: the result, the calls, and
   * the state afterwards. The length test is the one the code runs,
   * against the whole frame, so a payload that passes it may still not
   * fit behind the header; the frame then holds what fits and the result
   * flags the overrun.
   */
  function SendUssdSpec(cfg: Config, env: Collaborators, state: bv8, data: Option<seq<bv8>>,
                        token: nat, radioOk: bool, sendOk: bool): Step<SendResult>
    requires cfg.Valid()
  {
    if data.None? || |data.value| < cfg.pointerSize then
      Step(SendResult(Completed, false), [Complete(token, GenericFailure)], state)
    else if !radioOk then
      Step(SendResult(Unhandled, false), [], state)
    else
      var d := DialectFor(cfg, state);
      var payload := EncodePayload(env, d, data.value);
      if RejectedAsWritten(|payload|) then
        Step(SendResult(Completed, false), [Complete(token, GenericFailure)], state)
      else
        var s := env.requestSeq(token);
        var overrun := !CopyInFrame(cfg, |payload|);
        var sent := [ExpectCallback(s), Send(s, MessageSize, FrameBytes(cfg, RequestedState(cfg, d), UssdDcs, payload))];
        if sendOk then Step(SendResult(Handled, overrun), sent, state)
        else Step(SendResult(Completed, overrun), sent + [Complete(token, GenericFailure)], state)
  }

  // -------------------------------------------------------------- cancel

  /** `ril_request_cancel_ussd`: the result, the calls, and the state afterwards. */
  function CancelUssdSpec(cfg: Config, env: Collaborators, state: bv8, token: nat,
                          radioOk: bool, expectOk: bool, sendOk: bool): Step<RequestResult>
    requires cfg.Valid()
  {
    if !radioOk then Step(Unhandled, [], state)
    else
      var s := env.requestSeq(token);
      var registered := [ExpectComplete(s)];
      if !expectOk then
        Step(Completed, registered + [Complete(token, GenericFailure)], cfg.terminatedByNet)
      else
        var sent := registered + [Send(s, cfg.headerSize, HeaderBytes(cfg, cfg.terminatedByNet, 0, 0))];
        if sendOk then Step(Handled, sent, cfg.terminatedByNet)
        else Step(Completed, sent + [Complete(token, GenericFailure)], cfg.terminatedByNet)
  }

  // ----------------------------------------------------- acknowledgement

  /** `ipc_ss_ussd_callback`: the return value, the calls, and the state afterwards. */
  function AckSpec(cfg: Config, env: Collaborators, state: bv8, msg: Option<AckMessage>,
                   completeOk: bool): Step<int>
  {
    if msg.None? || msg.value.data.None? || |msg.value.data.value| < cfg.genResSize then
      Step(-1, [], state)
    else
      var token := env.requestToken(msg.value.aseq);
      if !env.genPhoneResOk(msg.value.data.value) then
        Step(0, [Complete(token, GenericFailure)], state)
      else if !completeOk then
        Step(0, [Complete(token, Success), Complete(token, GenericFailure)], state)
      else
        Step(0, [Complete(token, Success)], 0)
  }

  // -------------------------------------------------------- notification

  /**
   * `ussd_message[1][data_dec_len] = '\0'` after `asprintf("%s", …)` of
   * `decoded`: the store lands outside the `strlen + 1` bytes `asprintf`
   * allocated.
   */
  predicate TerminatorOutside(decoded: seq<bv8>) {
    |decoded| >= |CString(decoded)| + 1
  }

  /** The terminator store overruns exactly when the decoded bytes hold a NUL. */
  lemma TerminatorOutsideIff(decoded: seq<bv8>)
    ensures TerminatorOutside(decoded) <==> 0 in decoded
  {
    if 0 !in decoded {
      CStringWhole(decoded);
    }
  }

  /** The text of a notification payload, and whether its terminator store overruns. */
  datatype Decoded = Decoded(text: seq<bv8>, terminatorOverrun: bool)

  /**
   * The payload decoded by the coding scheme of its dcs byte: GSM 7-bit
   * unpacked, UCS2 pairs to UTF-8, anything else taken as ASCII. The text
   * is what a reader of the C string sees.
   */
  function DecodePayload(cfg: Config, env: Collaborators, dcs: bv8, payload: seq<bv8>, trailing: bv8): Decoded {
    match env.codingScheme(dcs)
    case Gsm7 =>
      var dec := env.gsm7Unpack(payload);
      Decoded(CString(dec), TerminatorOutside(dec))
    case Ucs2 =>
      Decoded(CString(Ucs2.Utf8Concat(env, Ucs2.Units(payload, trailing, cfg.charIsSigned))), false)
    case OtherScheme =>
      Decoded(CString(payload), TerminatorOutside(payload))
  }

  /**
   * `ipc_ss_ussd` on a received frame (`data`, NULL as `None`; its size is
   * its length; `trailing` the byte after it in memory): whether the
   * terminator store overruns, the calls, and the state afterwards.
   */
  function NotifySpec(cfg: Config, env: Collaborators, state: bv8, aseq: nat,
                      data: Option<seq<bv8>>, trailing: bv8): Step<bool>
    requires cfg.Valid()
  {
    if data.None? || |data.value| < cfg.headerSize then
      Step(false, [Complete(env.requestToken(aseq), GenericFailure)], state)
    else
      var header := ParseHeader(cfg, data.value).value;
      var payload := data.value[cfg.headerSize..];
      var code := Ipc2RilUssdState(cfg, header.state);
      if header.length > 0 then
        var decoded := DecodePayload(cfg, env, header.dcs, payload, trailing);
        Step(decoded.terminatorOverrun, [Unsolicited(code, Some(decoded.text))], header.state)
      else
        Step(false, [Unsolicited(code, None)], header.state)
  }

  // ---------------------------------------------------------- the layer

  /** The layer's process-wide state and the log of its collaborator calls. */
  class UssdLayer {
    const cfg: Config
    const env: Collaborators
    /** `global_ussd_state`, zero as a C global is before anything writes it. */
    var ussdState: bv8
    var events: seq<Event>

    constructor (cfg: Config, env: Collaborators)
      ensures this.cfg == cfg && this.env == env
      ensures ussdState == 0 && events == []
    {
      this.cfg := cfg;
      this.env := env;
      ussdState := 0;
      events := [];
    }

    /** `ril_request_send_ussd`; `frameOverrun` flags the payload copy past the frame's end. */
    method SendUssd(data: Option<seq<bv8>>, token: nat, radioOk: bool, sendOk: bool)
      returns (r: RequestResult, frameOverrun: bool)
      requires cfg.Valid()
      modifies this
      ensures var o := SendUssdSpec(cfg, env, old(ussdState), data, token, radioOk, sendOk);
        && r == o.result.request && frameOverrun == o.result.frameOverrun
        && events == old(events) + o.events && ussdState == o.state
    {
      frameOverrun := false;
      if data.None? || |data.value| < cfg.pointerSize {
        events := events + [Complete(token, GenericFailure)];
        return Completed, false;
      }
      if !radioOk {
        return Unhandled, false;
      }
      var d := DialectFor(cfg, ussdState);
      var payload := EncodePayload(env, d, data.value);
      if RejectedAsWritten(|payload|) {
        events := events + [Complete(token, GenericFailure)];
        return Completed, false;
      }
      var frame;
      frame, frameOverrun := BuildFrame(cfg, RequestedState(cfg, d), UssdDcs, payload);
      var s := env.requestSeq(token);
      events := events + [ExpectCallback(s)];
      events := events + [Send(s, MessageSize, frame[..])];
      if !sendOk {
        events := events + [Complete(token, GenericFailure)];
        return Completed, frameOverrun;
      }
      return Handled, frameOverrun;
    }

    /** `ril_request_cancel_ussd`. */
    method CancelUssd(token: nat, radioOk: bool, expectOk: bool, sendOk: bool)
      returns (r: RequestResult)
      requires cfg.Valid()
      modifies this
      ensures var o := CancelUssdSpec(cfg, env, old(ussdState), token, radioOk, expectOk, sendOk);
        r == o.result && events == old(events) + o.events && ussdState == o.state
    {
      if !radioOk {
        return Unhandled;
      }
      var frame := BuildCancelFrame(cfg);
      ussdState := cfg.terminatedByNet;
      var s := env.requestSeq(token);
      events := events + [ExpectComplete(s)];
      if !expectOk {
        events := events + [Complete(token, GenericFailure)];
        return Completed;
      }
      events := events + [Send(s, cfg.headerSize, frame[..])];
      if !sendOk {
        events := events + [Complete(token, GenericFailure)];
        return Completed;
      }
      return Handled;
    }

    /** `ipc_ss_ussd_callback`: `completeOk` is what `ril_request_complete` reports. */
    method OnSendAck(msg: Option<AckMessage>, completeOk: bool) returns (rc: int)
      modifies this
      ensures var o := AckSpec(cfg, env, old(ussdState), msg, completeOk);
        rc == o.result && events == old(events) + o.events && ussdState == o.state
    {
      if msg.None? || msg.value.data.None? || |msg.value.data.value| < cfg.genResSize {
        return -1;
      }
      var token := env.requestToken(msg.value.aseq);
      if env.genPhoneResOk(msg.value.data.value) {
        events := events + [Complete(token, Success)];
        if completeOk {
          ussdState := 0;
          return 0;
        }
      }
      events := events + [Complete(token, GenericFailure)];
      return 0;
    }

    /** `ipc_ss_ussd`: always returns 0; `terminatorOverrun` flags the out-of-bounds NUL store. */
    method OnUssdNotification(aseq: nat, data: Option<seq<bv8>>, trailing: bv8)
      returns (rc: int, terminatorOverrun: bool)
      requires cfg.Valid() && env.Valid()
      modifies this
      ensures rc == 0
      ensures var o := NotifySpec(cfg, env, old(ussdState), aseq, data, trailing);
        terminatorOverrun == o.result && events == old(events) + o.events && ussdState == o.state
    {
      rc, terminatorOverrun := 0, false;
      if data.None? || |data.value| < cfg.headerSize {
        events := events + [Complete(env.requestToken(aseq), GenericFailure)];
        return;
      }
      var header := ParseHeader(cfg, data.value).value;
      var code := Ipc2RilUssdState(cfg, header.state);
      ussdState := header.state;
      var text: Option<seq<bv8>> := None;
      if header.length > 0 {
        var payload := data.value[cfg.headerSize..];
        match env.codingScheme(header.dcs)
        case Gsm7 =>
          var dec := env.gsm7Unpack(payload);
          text := Some(CString(dec));
          terminatorOverrun := TerminatorOutside(dec);
        case Ucs2 =>
          var utf8 := Ucs2.DecodeUcs2(env, payload, trailing, cfg.charIsSigned);
          text := Some(CString(utf8));
        case OtherScheme =>
          text := Some(CString(payload));
          terminatorOverrun := TerminatorOutside(payload);
      }
      events := events + [Unsolicited(code, text)];
    }
  }
}
