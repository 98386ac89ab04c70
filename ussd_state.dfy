/**
 * The USSD session state byte (`global_ussd_state`), its translation to the
 * state code reported upward (`ipc2ril_ussd_state`), and the choice of
 * outbound dialect the send request makes from it.
 */
module UssdState {
  import opened Wrappers
  import opened Platform

  /** The six named modem states, in the order of their reported codes 0..5. */
  function NamedStates(cfg: Config): (s: seq<bv8>)
    ensures |s| == 6
  {
    [cfg.noActionRequire, cfg.actionRequire, cfg.terminatedByNet,
     cfg.otherClient, cfg.notSupport, cfg.timeOut]
  }

  /** The one-character decimal code `"%d"` prints for `k` in 0..9. */
  function Digit(k: nat): (d: string)
    requires k < 10
    ensures |d| == 1 && d[0] as int == '0' as int + k
  {
    [('0' as int + k) as char]
  }

  /**
   * `ipc2ril_ussd_state`: the reported state code of a header state byte.
   * Any byte other than the six named codes, the initial `0` among them,
   * leaves the field NULL.
   */
  function Ipc2RilUssdState(cfg: Config, state: bv8): (code: Option<string>)
    requires cfg.Valid()
    ensures code.Some? ==> |code.value| == 1 && '0' <= code.value[0] <= '5'
    ensures state == 0 ==> code == None
  {
    if state == cfg.noActionRequire then Some("0")
    else if state == cfg.actionRequire then Some("1")
    else if state == cfg.terminatedByNet then Some("2")
    else if state == cfg.otherClient then Some("3")
    else if state == cfg.notSupport then Some("4")
    else if state == cfg.timeOut then Some("5")
    else None
  }

  /** The named state a reported code stands for, if any. */
  function StateOfCode(cfg: Config, code: string): (state: Option<bv8>)
  {
    if |code| != 1 || !('0' <= code[0] <= '5') then None
    else Some(NamedStates(cfg)[code[0] as int - '0' as int])
  }

  /**
   * The k-th named state is reported as the digit k, and every other byte
   * as NULL: the codes follow the enumeration order.
   */
  lemma StateCodesInOrder(cfg: Config, state: bv8)
    requires cfg.Valid()
    ensures forall k :: 0 <= k < 6 ==> Ipc2RilUssdState(cfg, NamedStates(cfg)[k]) == Some(Digit(k))
    ensures Ipc2RilUssdState(cfg, state).Some? <==> state in NamedStates(cfg)
  {
  }

  /** Reporting a state and reading the code back gives the state again. */
  lemma StateCodeRoundTrip(cfg: Config, state: bv8)
    requires cfg.Valid()
    requires Ipc2RilUssdState(cfg, state).Some?
    ensures StateOfCode(cfg, Ipc2RilUssdState(cfg, state).value) == Some(state)
  {
  }

  /** Every code in "0".."5" is reported for exactly the state it names. */
  lemma CodeStateRoundTrip(cfg: Config, code: string)
    requires cfg.Valid()
    requires StateOfCode(cfg, code).Some?
    ensures Ipc2RilUssdState(cfg, StateOfCode(cfg, code).value) == Some(code)
  {
    var k := code[0] as int - '0' as int;
    assert code == Digit(k);
    StateCodesInOrder(cfg, 0);
  }

  /**
   * How the send request encodes text: packed GSM 7-bit for a fresh
   * request, the raw C string for a reply inside an open dialogue.
   */
  datatype Dialect = Gsm7Dialect | AsciiDialect

  /** The case labels of the switch on `global_ussd_state` in the send request. */
  function DialectFor(cfg: Config, state: bv8): Dialect {
    if state == 0 || state == cfg.noActionRequire || state == cfg.terminatedByNet
       || state == cfg.otherClient || state == cfg.notSupport || state == cfg.timeOut
    then Gsm7Dialect
    else AsciiDialect
  }

  /** The state field written into the outbound frame of each dialect. */
  function RequestedState(cfg: Config, d: Dialect): bv8 {
    match d
    case Gsm7Dialect => cfg.noActionRequire
    case AsciiDialect => cfg.actionRequire
  }

  /**
   * The send request continues a dialogue (ASCII) exactly when the modem
   * last asked for an action, or when the state byte is none the layer
   * knows (neither the initial 0 nor a reportable code); every other
   * state starts a fresh GSM 7-bit request.
   */
  lemma DialectChoice(cfg: Config, state: bv8)
    requires cfg.Valid()
    ensures DialectFor(cfg, state) == AsciiDialect
        <==> state == cfg.actionRequire || (state != 0 && Ipc2RilUssdState(cfg, state).None?)
    ensures RequestedState(cfg, DialectFor(cfg, state)) == cfg.actionRequire
        <==> DialectFor(cfg, state) == AsciiDialect
  {
  }
}
