/**
 * What the USSD layer of ss.c takes from the rest of the radio interface
 * layer without defining it: the protocol constants of the modem headers,
 * a few pure helper functions, and the byte-level conventions of C strings
 * and little-endian integer fields.
 */
module Platform {
  import opened Bytes

  /** Size of every outbound "send USSD" frame (`message_size = 0xc0`). */
  const MessageSize: nat := 0xc0

  /** The data-coding-scheme byte written into every outbound send frame. */
  const UssdDcs: bv8 := 0x0f

  /**
   * Constants that ss.c uses but whose values live in headers outside it:
   * the `IPC_SS_USSD_*` state codes, `sizeof(struct ipc_ss_ussd_header)`,
   * `sizeof(struct ipc_gen_phone_res_data)` and `sizeof(char *)`; and
   * whether the target's plain `char` is signed, which the C ABI decides.
   */
  datatype Config = Config(
    noActionRequire: bv8,
    actionRequire: bv8,
    terminatedByNet: bv8,
    otherClient: bv8,
    notSupport: bv8,
    timeOut: bv8,
    headerSize: nat,
    genResSize: nat,
    pointerSize: nat,
    charIsSigned: bool)
  {
    /**
     * The send request switches on the state byte with the case labels
     * `0` and the six named codes, and C forbids two equal case labels,
     * so all seven are pairwise distinct. The header holds at least the
     * state byte, the dcs byte and a length field, and leaves room for a
     * payload in the 192-byte frame.
     */
    predicate Valid() {
      && noActionRequire != 0 && actionRequire != 0 && terminatedByNet != 0
      && otherClient != 0 && notSupport != 0 && timeOut != 0
      && noActionRequire != actionRequire && noActionRequire != terminatedByNet
      && noActionRequire != otherClient && noActionRequire != notSupport
      && noActionRequire != timeOut
      && actionRequire != terminatedByNet && actionRequire != otherClient
      && actionRequire != notSupport && actionRequire != timeOut
      && terminatedByNet != otherClient && terminatedByNet != notSupport
      && terminatedByNet != timeOut
      && otherClient != notSupport && otherClient != timeOut
      && notSupport != timeOut
      && 3 <= headerSize < MessageSize
      && pointerSize > 0
    }
  }

  /** The coding schemes `sms_get_coding_scheme` distinguishes for USSD. */
  datatype Scheme = Gsm7 | Ucs2 | OtherScheme

  /**
   * Pure helpers defined outside ss.c, taken as parameters:
   * `ascii2gsm7_ussd` (packs text into GSM 7-bit), `gsm72ascii` (unpacks),
   * `utf8_write` (the UTF-8 bytes of one code point),
   * `sms_get_coding_scheme`, `ipc_gen_phone_res_check` (whether a generic
   * response reports success), and the mapping between request tokens and
   * IPC sequence numbers (`ipc_fmt_request_seq`, `ipc_fmt_request_token`).
   */
  datatype Collaborators = Collaborators(
    gsm7Pack: seq<bv8> -> seq<bv8>,
    gsm7Unpack: seq<bv8> -> seq<bv8>,
    utf8Write: int -> seq<bv8>,
    codingScheme: bv8 -> Scheme,
    genPhoneResOk: seq<bv8> -> bool,
    requestSeq: nat -> nat,
    requestToken: nat -> nat)
  {
    /** `utf8_write` writes one to four bytes for every code point. */
    ghost predicate Valid() {
      forall c :: 1 <= |utf8Write(c)| <= 4
    }
  }

  /**
   * The string that `"%s"` reads from a byte buffer: the bytes before the
   * first NUL, or the whole buffer when it holds none.
   */
  function CString(s: seq<bv8>): (r: seq<bv8>)
    ensures r <= s
    ensures 0 !in r
    ensures |r| < |s| ==> s[|r|] == 0
  {
    if s == [] || s[0] == 0 then [] else [s[0]] + CString(s[1..])
  }

  /** A buffer with no NUL byte reads back whole as a C string. */
  lemma CStringWhole(s: seq<bv8>)
    requires 0 !in s
    ensures CString(s) == s
  {
  }

  /** `n` zero bytes, as `memset(…, 0, n)` leaves them. */
  function Zeros(n: nat): (z: seq<bv8>)
    ensures |z| == n && forall i :: 0 <= i < n ==> z[i] == 0
  {
    seq(n, _ => 0)
  }

  /** 256 to the power `width`: the number of values a `width`-byte field holds. */
  function Pow256(width: nat): (p: nat)
    ensures p >= 1
  {
    if width == 0 then 1 else 256 * Pow256(width - 1)
  }

  /** The value of a little-endian unsigned field. */
  function LittleEndian(bs: seq<bv8>): nat {
    if bs == [] then 0 else bs[0] as nat + 256 * LittleEndian(bs[1..])
  }

  /**
   * The bytes of a little-endian unsigned field of `width` bytes holding
   * `n`, truncated to the field's width as a C store into it is.
   */
  function LittleEndianBytes(n: nat, width: nat): (bs: seq<bv8>)
    ensures |bs| == width
  {
    if width == 0 then [] else [(n % 256) as bv8] + LittleEndianBytes(n / 256, width - 1)
  }

  /** A value that fits the field reads back unchanged. */
  lemma {:induction false} LittleEndianRoundTrip(n: nat, width: nat)
    requires n < Pow256(width)
    ensures LittleEndian(LittleEndianBytes(n, width)) == n
  {
    if width > 0 {
      var bs := LittleEndianBytes(n, width);
      assert bs[1..] == LittleEndianBytes(n / 256, width - 1);
      assert n / 256 < Pow256(width - 1);
      LittleEndianRoundTrip(n / 256, width - 1);
      ByteRoundTrip(n % 256);
      assert LittleEndian(bs) == n % 256 + 256 * (n / 256);
    }
  }

  /** A value below 256 is its low byte followed by zero bytes. */
  lemma {:induction false} LittleEndianSmall(n: nat, width: nat)
    requires n < 256 && width >= 1
    ensures var bs := LittleEndianBytes(n, width);
      bs[0] as int == n && bs[1..] == Zeros(width - 1)
  {
    ByteRoundTrip(n);
    LittleEndianZero(width - 1);
  }

  /** Zero is all zero bytes. */
  lemma {:induction false} LittleEndianZero(width: nat)
    ensures LittleEndianBytes(0, width) == Zeros(width)
  {
    if width > 0 {
      LittleEndianZero(width - 1);
    }
  }
}
