/**
 * What the USSD transaction layer promises, proved of the specification
 * functions its handlers are verified against: the guards and outcomes of
 * each handler, the dialect and contents of the frames it sends, how the
 * session state moves, and how the handlers combine into a dialogue.
 */
module SsProperties {
  import opened Wrappers
  import opened Platform
  import opened UssdState
  import opened UssdFrame
  import Ucs2
  import opened Ss

  /** The sender's text is well formed: not NULL and at least a pointer's size long. */
  predicate TextAccepted(cfg: Config, data: Option<seq<bv8>>) {
    data.Some? && |data.value| >= cfg.pointerSize
  }

  /** The payload the send request encodes for `data` in session state `state`. */
  function PayloadFor(cfg: Config, env: Collaborators, state: bv8, data: seq<bv8>): seq<bv8> {
    EncodePayload(env, DialectFor(cfg, state), data)
  }

  lemma CompletionsOfTwo(a: Event, b: Event, token: nat)
    ensures Completions([a, b], token)
         == Completions([a], token) + Completions([b], token)
  {
    assert [a, b][..1] == [a];
  }

  lemma CompletionsOfThree(a: Event, b: Event, c: Event, token: nat)
    ensures Completions([a, b, c], token)
         == Completions([a], token) + Completions([b], token) + Completions([c], token)
  {
    assert [a, b, c][..2] == [a, b];
    CompletionsOfTwo(a, b, token);
  }

  lemma SendsOfTwo(a: Event, b: Event)
    ensures Sends([a, b]) == Sends([a]) + Sends([b])
  {
    assert [a, b][..1] == [a];
  }

  lemma SendsOfThree(a: Event, b: Event, c: Event)
    ensures Sends([a, b, c]) == Sends([a]) + Sends([b]) + Sends([c])
  {
    assert [a, b, c][..2] == [a, b];
    SendsOfTwo(a, b);
  }

  // ---------------------------------------------------------------- send

  /**
   * The send request never writes the session state; a NULL or short text
   * is failed before the radio state is consulted; a radio that is not
   * ready leaves the request unhandled with no call at all.
   */
  lemma SendGuards(cfg: Config, env: Collaborators, state: bv8, data: Option<seq<bv8>>,
                   token: nat, radioOk: bool, sendOk: bool)
    requires cfg.Valid()
    ensures var o := SendUssdSpec(cfg, env, state, data, token, radioOk, sendOk);
      && o.state == state
      && (!TextAccepted(cfg, data) ==>
            o.result == SendResult(Completed, false) && o.events == [Complete(token, GenericFailure)])
      && (TextAccepted(cfg, data) && !radioOk ==> o.result == SendResult(Unhandled, false) && o.events == [])
  {
  }

  /**
   * Every request is either handled (one frame sent, no completion yet),
   * completed (exactly one generic-failure completion, issued last), or
   * unhandled (no call at all); never handled and completed at once.
   */
  lemma SendHandledOrCompleted(cfg: Config, env: Collaborators, state: bv8, data: Option<seq<bv8>>,
                               token: nat, radioOk: bool, sendOk: bool)
    requires cfg.Valid()
    ensures var o := SendUssdSpec(cfg, env, state, data, token, radioOk, sendOk);
      && (o.result.request == Handled ==> Completions(o.events, token) == 0 && Sends(o.events) == 1)
      && (o.result.request == Completed ==>
            Completions(o.events, token) == 1 && o.events[|o.events| - 1] == Complete(token, GenericFailure))
      && (o.result.request == Unhandled ==> o.events == [])
  {
    var o := SendUssdSpec(cfg, env, state, data, token, radioOk, sendOk);
    if TextAccepted(cfg, data) && radioOk {
      var payload := PayloadFor(cfg, env, state, data.value);
      if !RejectedAsWritten(|payload|) {
        var s := env.requestSeq(token);
        var frame := FrameBytes(cfg, RequestedState(cfg, DialectFor(cfg, state)), UssdDcs, payload);
        CompletionsOfTwo(ExpectCallback(s), Send(s, MessageSize, frame), token);
        SendsOfTwo(ExpectCallback(s), Send(s, MessageSize, frame));
        CompletionsOfThree(ExpectCallback(s), Send(s, MessageSize, frame), Complete(token, GenericFailure), token);
      }
    }
  }

  /**
   * The send fails before registering anything exactly when the encoded
   * payload is longer than the whole 192-byte frame: then the request is
   * completed with one generic failure and reaches neither the
   * pending-response table nor the transport.
   */
  lemma SendOverflowRejected(cfg: Config, env: Collaborators, state: bv8, data: Option<seq<bv8>>,
                             token: nat, radioOk: bool, sendOk: bool)
    requires cfg.Valid() && TextAccepted(cfg, data) && radioOk
    ensures var o := SendUssdSpec(cfg, env, state, data, token, radioOk, sendOk);
      var p := PayloadFor(cfg, env, state, data.value);
      && (RejectedAsWritten(|p|) ==> o == Step(SendResult(Completed, false), [Complete(token, GenericFailure)], state))
      && (o.events[0] == Complete(token, GenericFailure) <==> RejectedAsWritten(|p|))
  {
  }

  /**
   * Every payload of at most 192 bytes is sent: the request registers the
   * acknowledgement callback and then transmits one 192-byte frame under
   * the token's sequence number. The frame's header carries the requested
   * state — the continuation state exactly when the session awaits an
   * action or holds a state byte the layer does not know, the
   * fresh-request state otherwise — dcs 0x0f and the payload's length; the
   * payload (the C string of the text in the continuation dialect, its
   * GSM 7-bit packing otherwise) follows the header as far as the frame
   * reaches, and the rest of the frame is zero. The copy runs past the
   * frame exactly when the payload is longer than `192 - sizeof(header)`,
   * which is where the corrected test would have rejected it. The request
   * is handled exactly when the transmission succeeds.
   */
  lemma SendFrameContents(cfg: Config, env: Collaborators, state: bv8, data: Option<seq<bv8>>,
                          token: nat, radioOk: bool, sendOk: bool)
    requires cfg.Valid() && TextAccepted(cfg, data) && radioOk
    requires !RejectedAsWritten(|PayloadFor(cfg, env, state, data.value)|)
    ensures var o := SendUssdSpec(cfg, env, state, data, token, radioOk, sendOk);
      var p := PayloadFor(cfg, env, state, data.value);
      var n := InFrame(cfg, |p|);
      var continuation := state == cfg.actionRequire || (state != 0 && Ipc2RilUssdState(cfg, state).None?);
      && |o.events| >= 2
      && o.events[0] == ExpectCallback(env.requestSeq(token))
      && o.events[1].Send? && o.events[1].seqNo == env.requestSeq(token)
      && o.events[1].size == MessageSize && |o.events[1].bytes| == MessageSize
      && ParseHeader(cfg, o.events[1].bytes)
         == Some(Header(if continuation then cfg.actionRequire else cfg.noActionRequire, UssdDcs, |p|))
      && p == (if continuation then CString(data.value) else env.gsm7Pack(data.value))
      && (o.result.frameOverrun <==> MessageSize - cfg.headerSize < |p|)
      && (o.result.frameOverrun <==> Rejected(cfg, |p|))
      && o.events[1].bytes[cfg.headerSize..cfg.headerSize + n] == p[..n]
      && (!o.result.frameOverrun ==> o.events[1].bytes[cfg.headerSize..cfg.headerSize + |p|] == p)
      && (forall i :: cfg.headerSize + n <= i < MessageSize ==> o.events[1].bytes[i] == 0)
      && (o.result.request == Handled <==> sendOk)
  {
    var d := DialectFor(cfg, state);
    var p := PayloadFor(cfg, env, state, data.value);
    DialectChoice(cfg, state);
    FrameLayout(cfg, RequestedState(cfg, d), UssdDcs, p);
    FrameRoundTrip(cfg, RequestedState(cfg, d), UssdDcs, p);
  }

  // -------------------------------------------------------------- cancel

  /**
   * A cancel with the radio not ready is left unhandled and changes
   * nothing. Otherwise the session is set to "terminated by network" before
   * any call and stays so whatever the calls report; a header-only frame
   * (that state, dcs 0, length 0) is sent after the completion is
   * registered; the request is handled exactly when registration and
   * transmission both succeed, and otherwise completed with one generic
   * failure.
   */
  lemma CancelProperties(cfg: Config, env: Collaborators, state: bv8, token: nat,
                         radioOk: bool, expectOk: bool, sendOk: bool)
    requires cfg.Valid()
    ensures var o := CancelUssdSpec(cfg, env, state, token, radioOk, expectOk, sendOk);
      && (!radioOk ==> o == Step(Unhandled, [], state))
      && (radioOk ==> o.state == cfg.terminatedByNet && o.events[0] == ExpectComplete(env.requestSeq(token)))
      && (radioOk ==> (o.result == Handled <==> expectOk && sendOk))
      && (radioOk && !(expectOk && sendOk) ==>
            o.result == Completed && Completions(o.events, token) == 1
            && o.events[|o.events| - 1] == Complete(token, GenericFailure))
      && (radioOk && expectOk ==>
            o.events[1].Send? && o.events[1].seqNo == env.requestSeq(token)
            && o.events[1].size == cfg.headerSize == |o.events[1].bytes|
            && ParseHeader(cfg, o.events[1].bytes) == Some(Header(cfg.terminatedByNet, 0, 0)))
      && (radioOk && !expectOk ==> Sends(o.events) == 0)
  {
    CancelFrameShape(cfg);
    if radioOk {
      var s := env.requestSeq(token);
      var frame := HeaderBytes(cfg, cfg.terminatedByNet, 0, 0);
      CompletionsOfTwo(ExpectComplete(s), Complete(token, GenericFailure), token);
      SendsOfTwo(ExpectComplete(s), Complete(token, GenericFailure));
      CompletionsOfThree(ExpectComplete(s), Send(s, cfg.headerSize, frame), Complete(token, GenericFailure), token);
    }
  }

  // ----------------------------------------------------- acknowledgement

  /** The acknowledgement carries a generic response of at least the response record's size. */
  predicate AckWellFormed(cfg: Config, msg: Option<AckMessage>) {
    msg.Some? && msg.value.data.Some? && |msg.value.data.value| >= cfg.genResSize
  }

  /**
   * A NULL or short acknowledgement returns -1 and does nothing. A
   * response reporting failure completes the request with one generic
   * failure. The session is reset to 0 exactly when the response reports
   * success and the success completion itself goes through; when that
   * completion fails, a generic failure follows it. Otherwise the state
   * is left as it was.
   */
  lemma AckProperties(cfg: Config, env: Collaborators, state: bv8, msg: Option<AckMessage>, completeOk: bool)
    ensures var o := AckSpec(cfg, env, state, msg, completeOk);
      && (!AckWellFormed(cfg, msg) ==> o == Step(-1, [], state))
      && (AckWellFormed(cfg, msg) ==> o.result == 0)
      && o.state == (if AckWellFormed(cfg, msg) && env.genPhoneResOk(msg.value.data.value) && completeOk
                     then 0 else state)
      && (AckWellFormed(cfg, msg) && !env.genPhoneResOk(msg.value.data.value) ==>
            o.events == [Complete(env.requestToken(msg.value.aseq), GenericFailure)])
      && (AckWellFormed(cfg, msg) && env.genPhoneResOk(msg.value.data.value) ==>
            && (completeOk ==> o.events == [Complete(env.requestToken(msg.value.aseq), Success)])
            && (!completeOk ==> o.events == [Complete(env.requestToken(msg.value.aseq), Success),
                                             Complete(env.requestToken(msg.value.aseq), GenericFailure)]))
  {
  }

  // -------------------------------------------------------- notification

  /**
   * A NULL or short frame completes the request of its sequence number
   * with a generic failure and emits nothing. Any other frame sets the
   * session to its header's state byte, whatever the dcs and payload, and
   * emits exactly one "on USSD" notification whose state code is the
   * byte's reported code and whose text is NULL exactly when the declared
   * length is zero.
   */
  lemma NotifyProperties(cfg: Config, env: Collaborators, state: bv8, aseq: nat,
                         data: Option<seq<bv8>>, trailing: bv8)
    requires cfg.Valid()
    ensures var o := NotifySpec(cfg, env, state, aseq, data, trailing);
      && (data.None? || |data.value| < cfg.headerSize ==>
            o == Step(false, [Complete(env.requestToken(aseq), GenericFailure)], state))
      && (data.Some? && |data.value| >= cfg.headerSize ==>
            && o.state == data.value[0]
            && |o.events| == 1 && o.events[0].Unsolicited?
            && o.events[0].stateCode == Ipc2RilUssdState(cfg, data.value[0])
            && (o.events[0].text.None? <==> LittleEndian(data.value[2..cfg.headerSize]) == 0))
  {
  }

  /**
   * In the UCS2 branch the text is the C string of the UTF-8 of the
   * payload's code points, one per byte pair, ⌈n/2⌉ of them for an n-byte
   * payload, and it fits the `n * 4 + 1`-byte buffer.
   */
  lemma NotifyUcs2Text(cfg: Config, env: Collaborators, state: bv8, aseq: nat,
                       data: Option<seq<bv8>>, trailing: bv8)
    requires cfg.Valid() && env.Valid()
    requires data.Some? && |data.value| >= cfg.headerSize
    requires LittleEndian(data.value[2..cfg.headerSize]) > 0
    requires env.codingScheme(data.value[1]) == Ucs2
    ensures var o := NotifySpec(cfg, env, state, aseq, data, trailing);
      var p := data.value[cfg.headerSize..];
      var utf8 := Ucs2.Utf8Concat(env, Ucs2.Units(p, trailing, cfg.charIsSigned));
      && |Ucs2.Units(p, trailing, cfg.charIsSigned)| == (|p| + 1) / 2
      && o.events[0].text == Some(CString(utf8))
      && (!cfg.charIsSigned ==> utf8 == Ucs2.Utf8Concat(env, Ucs2.CodePoints(p, trailing)))
      && |utf8| < |p| * 4 + 1
      && !o.result
  {
    var p := data.value[cfg.headerSize..];
    Ucs2.Utf8ConcatBound(env, Ucs2.Units(p, trailing, cfg.charIsSigned));
    Ucs2.UnitsUnsigned(p, trailing);
  }

  /**
   * In the GSM 7-bit and ASCII branches the terminating NUL is stored
   * outside the string exactly when the decoded bytes hold a NUL.
   */
  lemma NotifyTerminatorOverrun(cfg: Config, env: Collaborators, state: bv8, aseq: nat,
                                data: Option<seq<bv8>>, trailing: bv8)
    requires cfg.Valid()
    requires data.Some? && |data.value| >= cfg.headerSize
    requires LittleEndian(data.value[2..cfg.headerSize]) > 0
    ensures var o := NotifySpec(cfg, env, state, aseq, data, trailing);
      var p := data.value[cfg.headerSize..];
      match env.codingScheme(data.value[1])
      case Gsm7 => o.result <==> 0 in env.gsm7Unpack(p)
      case Ucs2 => !o.result
      case OtherScheme => o.result <==> 0 in p
  {
    var p := data.value[cfg.headerSize..];
    TerminatorOutsideIff(p);
    TerminatorOutsideIff(env.gsm7Unpack(p));
  }

  // ------------------------------------------------------------ dialogue

  /**
   * A send that was handled, followed by its successful acknowledgement,
   * completes the request with success and returns the session to 0.
   */
  lemma SendThenAck(cfg: Config, env: Collaborators, state: bv8, data: Option<seq<bv8>>,
                    token: nat, radioOk: bool, ack: seq<bv8>)
    requires cfg.Valid()
    requires SendUssdSpec(cfg, env, state, data, token, radioOk, true).result.request == Handled
    requires env.requestToken(env.requestSeq(token)) == token
    requires |ack| >= cfg.genResSize && env.genPhoneResOk(ack)
    ensures var sent := SendUssdSpec(cfg, env, state, data, token, radioOk, true);
      var acked := AckSpec(cfg, env, sent.state, Some(AckMessage(env.requestSeq(token), Some(ack))), true);
      acked.state == 0 && acked.events == [Complete(token, Success)]
  {
  }

  /** The header state the next send request writes from session state `state`. */
  function NextRequestedState(cfg: Config, state: bv8): bv8 {
    RequestedState(cfg, DialectFor(cfg, state))
  }

  /**
   * The session state a notification leaves decides the next send: a
   * notification asking for an action, or carrying a state byte the layer
   * does not know, makes the next send a continuation; any other named
   * state makes it a fresh request.
   */
  lemma NotifyDrivesNextSend(cfg: Config, env: Collaborators, state: bv8, aseq: nat,
                             data: Option<seq<bv8>>, trailing: bv8)
    requires cfg.Valid()
    requires data.Some? && |data.value| >= cfg.headerSize
    ensures var o := NotifySpec(cfg, env, state, aseq, data, trailing);
      NextRequestedState(cfg, o.state) == cfg.actionRequire
      <==> o.events[0].stateCode == Some("1") || (data.value[0] != 0 && o.events[0].stateCode.None?)
  {
    DialectChoice(cfg, data.value[0]);
    StateCodesInOrder(cfg, data.value[0]);
  }

  /** After a cancel that reached the radio, whatever its calls report, the next send is fresh. */
  lemma CancelOpensFreshRequest(cfg: Config, env: Collaborators, state: bv8, token: nat,
                                expectOk: bool, sendOk: bool)
    requires cfg.Valid()
    ensures NextRequestedState(cfg, CancelUssdSpec(cfg, env, state, token, true, expectOk, sendOk).state)
         == cfg.noActionRequire
  {
  }

  /** After an acknowledgement whose success is completed, the next send is fresh. */
  lemma AckOpensFreshRequest(cfg: Config, env: Collaborators, state: bv8, msg: Option<AckMessage>)
    requires cfg.Valid()
    requires AckWellFormed(cfg, msg) && env.genPhoneResOk(msg.value.data.value)
    ensures NextRequestedState(cfg, AckSpec(cfg, env, state, msg, true).state) == cfg.noActionRequire
  {
  }

  /**
   * A notification in the ASCII fallback: state "action required", a
   * three-byte payload "YES" behind the header. The session awaits an
   * action and the notification reads ("1", "YES").
   */
  lemma AsciiNotificationExample(cfg: Config, env: Collaborators, state: bv8, aseq: nat, dcs: bv8, trailing: bv8)
    requires cfg.Valid() && env.codingScheme(dcs) == OtherScheme
    ensures var yes: seq<bv8> := [0x59, 0x45, 0x53];
      var o := NotifySpec(cfg, env, state, aseq, Some(HeaderBytes(cfg, cfg.actionRequire, dcs, 3) + yes), trailing);
      o.state == cfg.actionRequire && o.events == [Unsolicited(Some("1"), Some(yes))] && !o.result
  {
    var yes: seq<bv8> := [0x59, 0x45, 0x53];
    var h := HeaderBytes(cfg, cfg.actionRequire, dcs, 3);
    var data := h + yes;
    HeaderRoundTrip(cfg, cfg.actionRequire, dcs, 3);
    assert data[..cfg.headerSize] == h;
    assert data[2..cfg.headerSize] == h[2..cfg.headerSize];
    assert data[cfg.headerSize..] == yes;
    CStringWhole(yes);
    TerminatorOutsideIff(yes);
  }

  /**
   * A notification with state "timed out" and declared length 0 leaves
   * the session timed out and reads ("5", NULL).
   */
  lemma TimeoutNotificationExample(cfg: Config, env: Collaborators, state: bv8, aseq: nat, dcs: bv8, trailing: bv8)
    requires cfg.Valid()
    ensures var o := NotifySpec(cfg, env, state, aseq, Some(HeaderBytes(cfg, cfg.timeOut, dcs, 0)), trailing);
      o.state == cfg.timeOut && o.events == [Unsolicited(Some("5"), None)]
  {
    HeaderRoundTrip(cfg, cfg.timeOut, dcs, 0);
  }
}
