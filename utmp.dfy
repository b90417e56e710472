/**
 * The `repr(C)` layout of glibc's `struct utmp` on x86/x86_64 and its decoding
 * from the 384 bytes of one record, by explicit byte offsets.
 */
module Utmp {
  import opened Bytes

  const UT_LINESIZE: nat := 32
  const UT_NAMESIZE: nat := 32
  const UT_HOSTSIZE: nat := 256
  /** `size_of::<utmp>()`: the number of bytes read per record. */
  const RECORD_SIZE: nat := 384

  // Byte offsets of the fields. Two bytes of alignment padding follow `ut_type`.
  const TYPE_AT: nat := 0
  const PID_AT: nat := 4
  const LINE_AT: nat := 8
  const ID_AT: nat := 40
  const USER_AT: nat := 44
  const HOST_AT: nat := 76
  const EXIT_AT: nat := 332
  const SESSION_AT: nat := 336
  const TV_SEC_AT: nat := 340
  const TV_USEC_AT: nat := 344
  const ADDR_AT: nat := 348
  const RESERVED_AT: nat := 364

  /** One raw record as read from the file. */
  type Record = s: seq<Byte> | |s| == RECORD_SIZE witness seq(384, _ => 0)

  datatype ExitStatus = ExitStatus(eTermination: I16, eExit: I16)

  datatype TimeVal = TimeVal(tvSec: I32, tvUsec: I32)

  /** The fields of `struct utmp`; the `c_char` arrays hold signed `i8` values. */
  datatype Utmp = Utmp(
    utType: I16,
    utPid: I32,
    utLine: seq<I8>,
    utId: seq<I8>,
    utUser: seq<I8>,
    utHost: seq<I8>,
    utExit: ExitStatus,
    utSession: I32,
    utTv: TimeVal,
    utAddrV6: seq<I32>,
    glibcReserved: seq<I8>)
  {
    /** Every array field has the length the struct declares. */
    predicate Valid() {
      && |utLine| == UT_LINESIZE
      && |utId| == 4
      && |utUser| == UT_NAMESIZE
      && |utHost| == UT_HOSTSIZE
      && |utAddrV6| == 4
      && |glibcReserved| == 20
    }
  }

  /** Raw bytes seen as `c_char`s. */
  function CChars(bs: seq<Byte>): (cs: seq<I8>)
    ensures |cs| == |bs| && forall i :: 0 <= i < |bs| ==> AsU8(cs[i]) == bs[i]
  {
    seq(|bs|, i requires 0 <= i < |bs| => ToI8(bs[i]))
  }

  /** The raw bytes of `c_char`s. */
  function CBytes(cs: seq<I8>): (bs: seq<Byte>)
    ensures |bs| == |cs| && forall i :: 0 <= i < |cs| ==> ToI8(bs[i]) == cs[i]
  {
    seq(|cs|, i requires 0 <= i < |cs| => AsU8(cs[i]))
  }

  function I16At(b: Record, at: nat): I16
    requires at + 2 <= RECORD_SIZE
  {
    Pow256Values();
    ToI16(LeValue(b[at..at + 2]))
  }

  function I32At(b: Record, at: nat): I32
    requires at + 4 <= RECORD_SIZE
  {
    Pow256Values();
    ToI32(LeValue(b[at..at + 4]))
  }

  /** The record bytes viewed through the struct layout (the pointer cast of the read loop). */
  function ParseUtmp(b: Record): (u: Utmp)
    ensures u.Valid()
  {
    Utmp(
      utType := I16At(b, TYPE_AT),
      utPid := I32At(b, PID_AT),
      utLine := CChars(b[LINE_AT..ID_AT]),
      utId := CChars(b[ID_AT..USER_AT]),
      utUser := CChars(b[USER_AT..HOST_AT]),
      utHost := CChars(b[HOST_AT..EXIT_AT]),
      utExit := ExitStatus(I16At(b, EXIT_AT), I16At(b, EXIT_AT + 2)),
      utSession := I32At(b, SESSION_AT),
      utTv := TimeVal(I32At(b, TV_SEC_AT), I32At(b, TV_USEC_AT)),
      utAddrV6 := [I32At(b, ADDR_AT), I32At(b, ADDR_AT + 4), I32At(b, ADDR_AT + 8), I32At(b, ADDR_AT + 12)],
      glibcReserved := CChars(b[RESERVED_AT..RECORD_SIZE]))
  }

  /** The bytes of a struct value in memory, with zero padding after `ut_type`. */
  function SerializeUtmp(u: Utmp): (b: Record)
    requires u.Valid()
  {
    I16Bytes(u.utType) + [0, 0] + I32Bytes(u.utPid)
    + CBytes(u.utLine) + CBytes(u.utId) + CBytes(u.utUser) + CBytes(u.utHost)
    + I16Bytes(u.utExit.eTermination) + I16Bytes(u.utExit.eExit)
    + I32Bytes(u.utSession) + I32Bytes(u.utTv.tvSec) + I32Bytes(u.utTv.tvUsec)
    + I32Bytes(u.utAddrV6[0]) + I32Bytes(u.utAddrV6[1]) + I32Bytes(u.utAddrV6[2]) + I32Bytes(u.utAddrV6[3])
    + CBytes(u.glibcReserved)
  }

  lemma I16BytesRoundTrip(b: Record, at: nat, x: I16)
    requires at + 2 <= RECORD_SIZE && b[at..at + 2] == I16Bytes(x)
    ensures I16At(b, at) == x
  {
    Pow256Values();
    LeValueOfLeBytes(AsU16(x), 2);
  }

  lemma I32BytesRoundTrip(b: Record, at: nat, x: I32)
    requires at + 4 <= RECORD_SIZE && b[at..at + 4] == I32Bytes(x)
    ensures I32At(b, at) == x
  {
    Pow256Values();
    LeValueOfLeBytes(AsU32(x), 4);
  }

  /** The layout gives every field its own bytes: no struct value is lost by writing and reading it. */
  lemma ParseSerialize(u: Utmp)
    requires u.Valid()
    ensures ParseUtmp(SerializeUtmp(u)) == u
  {
    var b := SerializeUtmp(u);
    assert b[TYPE_AT..TYPE_AT + 2] == I16Bytes(u.utType);
    assert b[PID_AT..PID_AT + 4] == I32Bytes(u.utPid);
    assert b[LINE_AT..ID_AT] == CBytes(u.utLine);
    assert b[ID_AT..USER_AT] == CBytes(u.utId);
    assert b[USER_AT..HOST_AT] == CBytes(u.utUser);
    assert b[HOST_AT..EXIT_AT] == CBytes(u.utHost);
    assert b[EXIT_AT..EXIT_AT + 2] == I16Bytes(u.utExit.eTermination);
    assert b[EXIT_AT + 2..EXIT_AT + 4] == I16Bytes(u.utExit.eExit);
    assert b[SESSION_AT..SESSION_AT + 4] == I32Bytes(u.utSession);
    assert b[TV_SEC_AT..TV_SEC_AT + 4] == I32Bytes(u.utTv.tvSec);
    assert b[TV_USEC_AT..TV_USEC_AT + 4] == I32Bytes(u.utTv.tvUsec);
    assert b[ADDR_AT..ADDR_AT + 4] == I32Bytes(u.utAddrV6[0]);
    assert b[ADDR_AT + 4..ADDR_AT + 8] == I32Bytes(u.utAddrV6[1]);
    assert b[ADDR_AT + 8..ADDR_AT + 12] == I32Bytes(u.utAddrV6[2]);
    assert b[ADDR_AT + 12..ADDR_AT + 16] == I32Bytes(u.utAddrV6[3]);
    assert b[RESERVED_AT..RECORD_SIZE] == CBytes(u.glibcReserved);
    I16BytesRoundTrip(b, TYPE_AT, u.utType);
    I32BytesRoundTrip(b, PID_AT, u.utPid);
    I16BytesRoundTrip(b, EXIT_AT, u.utExit.eTermination);
    I16BytesRoundTrip(b, EXIT_AT + 2, u.utExit.eExit);
    I32BytesRoundTrip(b, SESSION_AT, u.utSession);
    I32BytesRoundTrip(b, TV_SEC_AT, u.utTv.tvSec);
    I32BytesRoundTrip(b, TV_USEC_AT, u.utTv.tvUsec);
    I32BytesRoundTrip(b, ADDR_AT, u.utAddrV6[0]);
    I32BytesRoundTrip(b, ADDR_AT + 4, u.utAddrV6[1]);
    I32BytesRoundTrip(b, ADDR_AT + 8, u.utAddrV6[2]);
    I32BytesRoundTrip(b, ADDR_AT + 12, u.utAddrV6[3]);
    var p := ParseUtmp(b);
    assert p.utLine == u.utLine;
    assert p.utId == u.utId;
    assert p.utUser == u.utUser;
    assert p.utHost == u.utHost;
    assert p.glibcReserved == u.glibcReserved;
  }

  lemma I16AtBytes(b: Record, at: nat)
    requires at + 2 <= RECORD_SIZE
    ensures I16Bytes(I16At(b, at)) == b[at..at + 2]
  {
    Pow256Values();
    LeBytesOfLeValue(b[at..at + 2]);
  }

  lemma I32AtBytes(b: Record, at: nat)
    requires at + 4 <= RECORD_SIZE
    ensures I32Bytes(I32At(b, at)) == b[at..at + 4]
  {
    Pow256Values();
    LeBytesOfLeValue(b[at..at + 4]);
  }

  lemma Extend(b: seq<Byte>, acc: seq<Byte>, piece: seq<Byte>, i: nat, j: nat)
    requires i <= j <= |b| && acc == b[..i] && piece == b[i..j]
    ensures acc + piece == b[..j]
  {
  }

  /** Decoding drops only the two padding bytes: a record whose padding is zero is the image of its struct. */
  lemma SerializeParse(b: Record)
    requires b[2..4] == [0, 0]
    ensures SerializeUtmp(ParseUtmp(b)) == b
  {
    var u := ParseUtmp(b);
    I16AtBytes(b, TYPE_AT);
    I32AtBytes(b, PID_AT);
    I16AtBytes(b, EXIT_AT);
    I16AtBytes(b, EXIT_AT + 2);
    I32AtBytes(b, SESSION_AT);
    I32AtBytes(b, TV_SEC_AT);
    I32AtBytes(b, TV_USEC_AT);
    I32AtBytes(b, ADDR_AT);
    I32AtBytes(b, ADDR_AT + 4);
    I32AtBytes(b, ADDR_AT + 8);
    I32AtBytes(b, ADDR_AT + 12);
    var acc := I16Bytes(u.utType);
    Extend(b, acc, [0, 0], 2, 4);
    acc := acc + [0, 0];
    Extend(b, acc, I32Bytes(u.utPid), 4, 8);
    acc := acc + I32Bytes(u.utPid);
    Extend(b, acc, CBytes(u.utLine), LINE_AT, ID_AT);
    acc := acc + CBytes(u.utLine);
    Extend(b, acc, CBytes(u.utId), ID_AT, USER_AT);
    acc := acc + CBytes(u.utId);
    Extend(b, acc, CBytes(u.utUser), USER_AT, HOST_AT);
    acc := acc + CBytes(u.utUser);
    Extend(b, acc, CBytes(u.utHost), HOST_AT, EXIT_AT);
    acc := acc + CBytes(u.utHost);
    Extend(b, acc, I16Bytes(u.utExit.eTermination), EXIT_AT, EXIT_AT + 2);
    acc := acc + I16Bytes(u.utExit.eTermination);
    Extend(b, acc, I16Bytes(u.utExit.eExit), EXIT_AT + 2, SESSION_AT);
    acc := acc + I16Bytes(u.utExit.eExit);
    Extend(b, acc, I32Bytes(u.utSession), SESSION_AT, TV_SEC_AT);
    acc := acc + I32Bytes(u.utSession);
    Extend(b, acc, I32Bytes(u.utTv.tvSec), TV_SEC_AT, TV_USEC_AT);
    acc := acc + I32Bytes(u.utTv.tvSec);
    Extend(b, acc, I32Bytes(u.utTv.tvUsec), TV_USEC_AT, ADDR_AT);
    acc := acc + I32Bytes(u.utTv.tvUsec);
    Extend(b, acc, I32Bytes(u.utAddrV6[0]), ADDR_AT, ADDR_AT + 4);
    acc := acc + I32Bytes(u.utAddrV6[0]);
    Extend(b, acc, I32Bytes(u.utAddrV6[1]), ADDR_AT + 4, ADDR_AT + 8);
    acc := acc + I32Bytes(u.utAddrV6[1]);
    Extend(b, acc, I32Bytes(u.utAddrV6[2]), ADDR_AT + 8, ADDR_AT + 12);
    acc := acc + I32Bytes(u.utAddrV6[2]);
    Extend(b, acc, I32Bytes(u.utAddrV6[3]), ADDR_AT + 12, RESERVED_AT);
    acc := acc + I32Bytes(u.utAddrV6[3]);
    Extend(b, acc, CBytes(u.glibcReserved), RESERVED_AT, RECORD_SIZE);
    acc := acc + CBytes(u.glibcReserved);
    assert b[..RECORD_SIZE] == b;
  }
}
