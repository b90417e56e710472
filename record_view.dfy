/**
 * Decoding stated directly on the 384 bytes of a record, through the layout.
 */
module RecordView {
  import opened Bytes
  import opened Results
  import opened Utmp
  import opened CText
  import opened Address
  import opened Logon

  /** The pointer cast of the read loop followed by the conversion to a login entry. */
  function DecodeRecord(b: Record): Result<LogonEntry> {
    Decode(ParseUtmp(b))
  }

  /** The raw `ut_type` of a record, as the read loop's filter sees it. */
  function RawType(b: Record): I16 {
    ParseUtmp(b).utType
  }

  /**
   * The text of a raw byte run is its bytes, as characters, up to the first byte that
   * is zero or at least 0x80, or all of them when there is no such byte.
   */
  lemma TextOfBytes(bs: seq<Byte>)
    ensures var t := Text(CChars(bs));
      && |t| <= |bs|
      && (forall i :: 0 <= i < |t| ==> 0 < bs[i] < 0x80 && t[i] == bs[i] as char)
      && (|t| < |bs| ==> bs[|t|] == 0 || bs[|t|] >= 0x80)
  {
    TextIsLongestPrefix(CChars(bs));
  }

  /** Decoding a record panics exactly when none of the 32 user bytes is zero or at least 0x80. */
  lemma RecordUserOverrun(b: Record)
    ensures DecodeRecord(b).Failure? <==> forall j :: USER_AT <= j < HOST_AT ==> 0 < b[j] < 0x80
  {
    var u := ParseUtmp(b);
    DecodeFields(u);
    assert forall i :: 0 <= i < UT_NAMESIZE ==> u.utUser[i] == ToI8(b[USER_AT + i]);
    if !DecodeRecord(b).Failure? {
      var i :| 0 <= i < UT_NAMESIZE && IsStop(u.utUser[i]);
      assert !(0 < b[USER_AT + i] < 0x80);
    }
  }

  /** The user, device and host texts are the stop-free prefixes of record bytes 44..76, 8..40 and 76..332. */
  lemma RecordTexts(b: Record)
    requires DecodeRecord(b).Success?
    ensures DecodeRecord(b).value.user == Text(CChars(b[USER_AT..HOST_AT]))
    ensures DecodeRecord(b).value.device == Text(CChars(b[LINE_AT..ID_AT]))
    ensures DecodeRecord(b).value.host == Text(CChars(b[HOST_AT..EXIT_AT]))
  {
    DecodeFields(ParseUtmp(b));
  }

  /**
   * The category is that of the `ut_type` bytes 0..1, `pid` the unsigned reading of
   * bytes 4..7 and `time_epoch` that of bytes 340..343, which also give the timestamp's
   * seconds.
   */
  lemma RecordNumbers(b: Record)
    requires DecodeRecord(b).Success?
    ensures var e := DecodeRecord(b).value;
      && e.logonType == LogonTypeOf(ToI16(LeValue(b[0..2])))
      && (e.logonType == UserProcess <==> LeValue(b[0..2]) == 7)
      && e.pid == LeValue(b[PID_AT..PID_AT + 4])
      && e.timeEpoch == LeValue(b[TV_SEC_AT..TV_SEC_AT + 4])
      && AsU32(e.timestamp.secs) == e.timeEpoch
  {
    var u := ParseUtmp(b);
    assert u.utType == I16At(b, TYPE_AT) && u.utPid == I32At(b, PID_AT) && u.utTv.tvSec == I32At(b, TV_SEC_AT);
    DecodeFields(u);
    Pow256Values();
    LogonTypeMapping(u.utType, Empty);
    assert LeValue(b[PID_AT..PID_AT + 4]) < 0x1_0000_0000;
    assert LeValue(b[TV_SEC_AT..TV_SEC_AT + 4]) < 0x1_0000_0000;
  }

  /** A decoded record is a `UserProcess` entry exactly when the filter's raw `ut_type` is 7. */
  lemma RecordCategory(b: Record)
    requires DecodeRecord(b).Success?
    ensures DecodeRecord(b).value.logonType == UserProcess <==> RawType(b) == 7
  {
    DecodeFields(ParseUtmp(b));
    LogonTypeMapping(RawType(b), Empty);
  }

  /** The address words, laid back out in memory, are record bytes 348..363. */
  lemma RecordAddrBytes(b: Record)
    ensures AddrBytes(ParseUtmp(b).utAddrV6) == b[ADDR_AT..RESERVED_AT]
  {
    I32AtBytes(b, ADDR_AT);
    I32AtBytes(b, ADDR_AT + 4);
    I32AtBytes(b, ADDR_AT + 8);
    I32AtBytes(b, ADDR_AT + 12);
    assert b[ADDR_AT..RESERVED_AT] == b[ADDR_AT..ADDR_AT + 4] + b[ADDR_AT + 4..ADDR_AT + 8]
      + b[ADDR_AT + 8..ADDR_AT + 12] + b[ADDR_AT + 12..RESERVED_AT];
  }

  predicate AllZero(bs: seq<Byte>) {
    forall i :: 0 <= i < |bs| ==> bs[i] == 0
  }

  lemma AllZeroSplit(bs: seq<Byte>, i: nat, j: nat, k: nat)
    requires i <= j <= k <= |bs|
    ensures AllZero(bs[i..k]) <==> AllZero(bs[i..j]) && AllZero(bs[j..k])
  {
    var all, l, r := bs[i..k], bs[i..j], bs[j..k];
    assert forall n :: 0 <= n < |l| ==> l[n] == all[n];
    assert forall n :: 0 <= n < |r| ==> r[n] == all[n + |l|];
    assert forall n :: 0 <= n < |all| ==> all[n] == if n < |l| then l[n] else r[n - |l|];
  }

  /** An `i32` of the record is zero exactly when its four bytes are. */
  lemma WordZero(b: Record, at: nat)
    requires at + 4 <= RECORD_SIZE
    ensures I32At(b, at) == 0 <==> AllZero(b[at..at + 4])
  {
    I32AtBytes(b, at);
    I32BytesZero(I32At(b, at));
  }

  /** The address text computed from the words a record's bytes 348..363 hold. */
  lemma RecordIpAddr(b: Record)
    ensures var ip := IpAddr(ParseUtmp(b).utAddrV6);
      && (ip == "" <==> AllZero(b[ADDR_AT..RESERVED_AT]))
      && (!AllZero(b[ADDR_AT..ADDR_AT + 4]) && AllZero(b[ADDR_AT + 4..RESERVED_AT]) ==>
            ip == Ipv4Text(b[ADDR_AT..ADDR_AT + 4]) && ParseIpv4(ip) == b[ADDR_AT..ADDR_AT + 4])
      && (!AllZero(b[ADDR_AT + 4..RESERVED_AT]) ==>
            ip == Ipv6Text(b[ADDR_AT..RESERVED_AT]) && |ip| == 39 && ParseHexGroups(ip) == b[ADDR_AT..RESERVED_AT])
  {
    var w := ParseUtmp(b).utAddrV6;
    RecordAddrBytes(b);
    IpAddrEmpty(w);
    assert AllZero(AddrBytes(w)) <==> forall j :: 0 <= j < 16 ==> AddrBytes(w)[j] == 0;
    assert w == [I32At(b, ADDR_AT), I32At(b, ADDR_AT + 4), I32At(b, ADDR_AT + 8), I32At(b, ADDR_AT + 12)];
    WordZero(b, ADDR_AT);
    WordZero(b, ADDR_AT + 4);
    WordZero(b, ADDR_AT + 8);
    WordZero(b, ADDR_AT + 12);
    AllZeroSplit(b, ADDR_AT + 8, ADDR_AT + 12, RESERVED_AT);
    AllZeroSplit(b, ADDR_AT + 4, ADDR_AT + 8, RESERVED_AT);
    if w[1] != 0 || w[2] != 0 || w[3] != 0 {
      IpAddrIpv6(w);
    } else if w[0] != 0 {
      IpAddrIpv4(w);
      assert AddrBytes(w)[..4] == b[ADDR_AT..ADDR_AT + 4];
    }
  }

  /**
   * The address text of a record: empty exactly when bytes 348..363 are all zero;
   * the dotted decimal of bytes 348..351 when only those are non-zero; otherwise the
   * 39 characters of colon-grouped hex of bytes 348..363, which give them back.
   */
  lemma RecordAddress(b: Record)
    requires DecodeRecord(b).Success?
    ensures var ip := DecodeRecord(b).value.ipAddr;
      && (ip == "" <==> AllZero(b[ADDR_AT..RESERVED_AT]))
      && (!AllZero(b[ADDR_AT..ADDR_AT + 4]) && AllZero(b[ADDR_AT + 4..RESERVED_AT]) ==>
            ip == Ipv4Text(b[ADDR_AT..ADDR_AT + 4]) && ParseIpv4(ip) == b[ADDR_AT..ADDR_AT + 4])
      && (!AllZero(b[ADDR_AT + 4..RESERVED_AT]) ==>
            ip == Ipv6Text(b[ADDR_AT..RESERVED_AT]) && |ip| == 39 && ParseHexGroups(ip) == b[ADDR_AT..RESERVED_AT])
  {
    DecodeFields(ParseUtmp(b));
    RecordIpAddr(b);
  }
}
