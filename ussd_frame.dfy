/**
 * The USSD frame layout: `struct ipc_ss_ussd_header` (state byte, dcs
 * byte, length field) followed by the payload, as the send request builds
 * it into a zero-filled 192-byte buffer, the cancel request sends it
 * alone, and the notification handler reads it back.
 */
module UssdFrame {
  import opened Wrappers
  import opened Platform

  /** The fields of `struct ipc_ss_ussd_header`. */
  datatype Header = Header(state: bv8, dcs: bv8, length: nat)

  /**
   * The bytes of a header: the state byte, the dcs byte, then the length
   * as a little-endian field filling the rest of the header.
   */
  function HeaderBytes(cfg: Config, state: bv8, dcs: bv8, length: nat): (h: seq<bv8>)
    requires cfg.Valid()
    ensures |h| == cfg.headerSize
    ensures h[0] == state && h[1] == dcs
  {
    [state, dcs] + LittleEndianBytes(length, cfg.headerSize - 2)
  }

  /** The header of a received frame, when the frame is at least a header long. */
  function ParseHeader(cfg: Config, data: seq<bv8>): (h: Option<Header>)
    requires cfg.Valid()
    ensures h.Some? <==> |data| >= cfg.headerSize
    ensures h.Some? ==> h.value.state == data[0] && h.value.dcs == data[1]
  {
    if |data| < cfg.headerSize then None
    else Some(Header(data[0], data[1], LittleEndian(data[2..cfg.headerSize])))
  }

  /** A header written with a length that fits its field parses back to the same fields. */
  lemma HeaderRoundTrip(cfg: Config, state: bv8, dcs: bv8, length: nat)
    requires cfg.Valid() && length < 256
    ensures ParseHeader(cfg, HeaderBytes(cfg, state, dcs, length)) == Some(Header(state, dcs, length))
  {
    var h := HeaderBytes(cfg, state, dcs, length);
    assert h[2..cfg.headerSize] == LittleEndianBytes(length, cfg.headerSize - 2);
    PowAtLeast256(cfg.headerSize - 2);
    LittleEndianRoundTrip(length, cfg.headerSize - 2);
  }

  /** A field of at least one byte holds every value below 256. */
  lemma PowAtLeast256(width: nat)
    requires width >= 1
    ensures Pow256(width) >= 256
  {
  }

  /** The overflow test of the send request as written: against the whole frame. */
  function RejectedAsWritten(encLen: nat): bool {
    encLen > MessageSize
  }

  /** The payload copy `memcpy(message + sizeof(header), data_enc, data_enc_len)` stays inside the frame. */
  predicate CopyInFrame(cfg: Config, encLen: nat) {
    cfg.headerSize + encLen <= MessageSize
  }

  /** The overflow test the copy needs: the payload must fit behind the header. */
  function Rejected(cfg: Config, encLen: nat): bool {
    !CopyInFrame(cfg, encLen)
  }

  /**
   * The test as written lets through every encoded length from
   * `192 - sizeof(header) + 1` to 192, and for each of them the payload
   * copy writes past the end of the 192-byte frame.
   */
  lemma AsWrittenCheckAdmitsOverrun(cfg: Config, encLen: nat)
    requires cfg.Valid()
    requires MessageSize - cfg.headerSize < encLen <= MessageSize
    ensures !RejectedAsWritten(encLen) && !CopyInFrame(cfg, encLen)
  {
  }

  /** A concrete overrun: a 192-byte encoding passes the test as written. */
  lemma AsWrittenOverrunExample(cfg: Config)
    requires cfg.Valid()
    ensures !RejectedAsWritten(MessageSize) && !CopyInFrame(cfg, MessageSize)
  {
    AsWrittenCheckAdmitsOverrun(cfg, MessageSize);
  }

  /**
   * The corrected test rejects everything the written one rejects, admits
   * only payloads whose copy stays inside the frame, and differs from the
   * written one exactly on the lengths that would overrun.
   */
  lemma CorrectedCheck(cfg: Config, encLen: nat)
    requires cfg.Valid()
    ensures RejectedAsWritten(encLen) ==> Rejected(cfg, encLen)
    ensures !Rejected(cfg, encLen) ==> CopyInFrame(cfg, encLen)
    ensures Rejected(cfg, encLen) != RejectedAsWritten(encLen)
        <==> MessageSize - cfg.headerSize < encLen <= MessageSize
  {
  }

  /**
   * How many payload bytes of an `encLen`-byte copy behind the header land
   * inside the 192-byte frame: all of them, or as many as fit.
   */
  function InFrame(cfg: Config, encLen: nat): (n: nat)
    requires cfg.Valid()
    ensures n <= encLen && cfg.headerSize + n <= MessageSize
    ensures n == encLen <==> CopyInFrame(cfg, encLen)
    ensures n == encLen || cfg.headerSize + n == MessageSize
  {
    if CopyInFrame(cfg, encLen) then encLen else MessageSize - cfg.headerSize
  }

  /**
   * The 192 bytes of a send frame once the payload has been copied behind
   * the header: the header with the payload's length, the payload bytes
   * that land inside the frame, zeros up to the end. Bytes of the copy
   * past the end of the frame are not part of it.
   */
  function FrameBytes(cfg: Config, state: bv8, dcs: bv8, payload: seq<bv8>): (f: seq<bv8>)
    requires cfg.Valid() && !RejectedAsWritten(|payload|)
    ensures |f| == MessageSize
  {
    var n := InFrame(cfg, |payload|);
    HeaderBytes(cfg, state, dcs, |payload|) + payload[..n] + Zeros(MessageSize - cfg.headerSize - n)
  }

  /**
   * Byte by byte: state at offset 0, dcs at 1, the length at 2 with the
   * rest of the length field zero, the payload at `sizeof(header)` as far
   * as it fits, and every other byte zero.
   */
  lemma FrameLayout(cfg: Config, state: bv8, dcs: bv8, payload: seq<bv8>)
    requires cfg.Valid() && !RejectedAsWritten(|payload|)
    ensures var f := FrameBytes(cfg, state, dcs, payload);
      var n := InFrame(cfg, |payload|);
      && f[0] == state && f[1] == dcs
      && f[2] as int == |payload|
      && (forall i :: 3 <= i < cfg.headerSize ==> f[i] == 0)
      && f[cfg.headerSize..cfg.headerSize + n] == payload[..n]
      && (forall i :: cfg.headerSize + n <= i < MessageSize ==> f[i] == 0)
  {
    var f := FrameBytes(cfg, state, dcs, payload);
    var w := cfg.headerSize - 2;
    LittleEndianSmall(|payload|, w);
    var h := HeaderBytes(cfg, state, dcs, |payload|);
    assert f[..cfg.headerSize] == h;
    assert h[2..] == LittleEndianBytes(|payload|, w);
    forall i | 3 <= i < cfg.headerSize
      ensures f[i] == 0
    {
      assert f[i] == h[i] == LittleEndianBytes(|payload|, w)[1..][i - 3];
    }
  }

  /**
   * A send frame read back as a received frame: its header parses to the
   * fields written, and behind it lie the payload bytes that fit — the
   * whole payload exactly when its copy stays inside the frame.
   */
  lemma FrameRoundTrip(cfg: Config, state: bv8, dcs: bv8, payload: seq<bv8>)
    requires cfg.Valid() && !RejectedAsWritten(|payload|)
    ensures var f := FrameBytes(cfg, state, dcs, payload);
      var n := InFrame(cfg, |payload|);
      && ParseHeader(cfg, f) == Some(Header(state, dcs, |payload|))
      && f[cfg.headerSize..][..n] == payload[..n]
      && (CopyInFrame(cfg, |payload|) ==> f[cfg.headerSize..][..|payload|] == payload)
  {
    var f := FrameBytes(cfg, state, dcs, payload);
    var n := InFrame(cfg, |payload|);
    var h := HeaderBytes(cfg, state, dcs, |payload|);
    assert f[..cfg.headerSize] == h;
    assert f[2..cfg.headerSize] == h[2..cfg.headerSize];
    HeaderRoundTrip(cfg, state, dcs, |payload|);
    assert f[cfg.headerSize..][..n] == payload[..n];
  }

  /**
   * The send frame as the send request fills it: a zeroed 192-byte buffer,
   * the header fields stored into it, then the payload copied byte by byte
   * behind the header as far as the buffer reaches; `overrun` records that
   * the copy had bytes left for past its end.
   */
  method BuildFrame(cfg: Config, state: bv8, dcs: bv8, payload: seq<bv8>)
    returns (frame: array<bv8>, overrun: bool)
    requires cfg.Valid() && !RejectedAsWritten(|payload|)
    ensures fresh(frame)
    ensures frame[..] == FrameBytes(cfg, state, dcs, payload)
    ensures overrun <==> !CopyInFrame(cfg, |payload|)
  {
    var hdr := cfg.headerSize;
    var header := HeaderBytes(cfg, state, dcs, |payload|);
    frame := new bv8[MessageSize](_ => 0);
    forall i | 0 <= i < hdr {
      frame[i] := header[i];
    }
    var n := InFrame(cfg, |payload|);
    for k := 0 to n
      invariant frame[..hdr] == header
      invariant frame[hdr..hdr + k] == payload[..k]
      invariant forall i :: hdr + k <= i < MessageSize ==> frame[i] == 0
    {
      frame[hdr + k] := payload[k];
      assert frame[hdr..hdr + k + 1] == frame[hdr..hdr + k] + [payload[k]];
    }
    overrun := n < |payload|;
    FrameFromParts(cfg, state, dcs, payload, frame[..]);
  }

  /** A 192-byte buffer holding the header, the payload bytes that fit, then zeros, is the send frame. */
  lemma FrameFromParts(cfg: Config, state: bv8, dcs: bv8, payload: seq<bv8>, f: seq<bv8>)
    requires cfg.Valid() && !RejectedAsWritten(|payload|) && |f| == MessageSize
    requires f[..cfg.headerSize] == HeaderBytes(cfg, state, dcs, |payload|)
    requires f[cfg.headerSize..cfg.headerSize + InFrame(cfg, |payload|)] == payload[..InFrame(cfg, |payload|)]
    requires forall i :: cfg.headerSize + InFrame(cfg, |payload|) <= i < MessageSize ==> f[i] == 0
    ensures f == FrameBytes(cfg, state, dcs, payload)
  {
    var hdr, n := cfg.headerSize, InFrame(cfg, |payload|);
    assert f[hdr + n..] == Zeros(MessageSize - hdr - n);
    assert f == f[..hdr] + f[hdr..hdr + n] + f[hdr + n..];
  }

  /** The header-only cancel frame: a zeroed header whose state is "terminated by network". */
  method BuildCancelFrame(cfg: Config) returns (frame: array<bv8>)
    requires cfg.Valid()
    ensures fresh(frame)
    ensures frame[..] == HeaderBytes(cfg, cfg.terminatedByNet, 0, 0)
  {
    frame := new bv8[cfg.headerSize](_ => 0);
    frame[0] := cfg.terminatedByNet;
    LittleEndianZero(cfg.headerSize - 2);
  }

  /** The cancel frame parses back as state "terminated by network", dcs 0, length 0. */
  lemma CancelFrameShape(cfg: Config)
    requires cfg.Valid()
    ensures ParseHeader(cfg, HeaderBytes(cfg, cfg.terminatedByNet, 0, 0))
         == Some(Header(cfg.terminatedByNet, 0, 0))
  {
    HeaderRoundTrip(cfg, cfg.terminatedByNet, 0, 0);
  }
}
