/**
 * The decoded login entry and the conversion of one `struct utmp` into it.
 */
module Logon {
  import opened Bytes
  import opened Results
  import opened Utmp
  import opened CText
  import opened Address

  datatype LogonType =
    | Empty
    | RunLvl
    | BootTime
    | NewTime
    | OldTime
    | InitProcess
    | LoginProcess
    | UserProcess
    | DeadProcess
    | Accounting

  /** The category of a raw `ut_type`; every unknown code becomes `Empty`. */
  function LogonTypeOf(utType: int): LogonType {
    match utType
    case 1 => RunLvl
    case 2 => BootTime
    case 3 => NewTime
    case 4 => OldTime
    case 5 => InitProcess
    case 6 => LoginProcess
    case 7 => UserProcess
    case 8 => DeadProcess
    case 9 => Accounting
    case _ => Empty
  }

  /** The `ut_type` code each category stands for in the utmp format. */
  function Code(t: LogonType): (c: int)
    ensures 0 <= c <= 9
  {
    match t
    case Empty => 0
    case RunLvl => 1
    case BootTime => 2
    case NewTime => 3
    case OldTime => 4
    case InitProcess => 5
    case LoginProcess => 6
    case UserProcess => 7
    case DeadProcess => 8
    case Accounting => 9
  }

  /**
   * The mapping is total and one-to-one on the codes 1 to 9: each named category
   * has one code, and every other `i16` value (0, negative, 10 and above) is `Empty`.
   */
  lemma LogonTypeMapping(code: int, t: LogonType)
    ensures LogonTypeOf(Code(t)) == t
    ensures 1 <= code <= 9 ==> Code(LogonTypeOf(code)) == code
    ensures LogonTypeOf(code) == Empty <==> !(1 <= code <= 9)
    ensures LogonTypeOf(code) == UserProcess <==> code == 7
  {
  }

  /** The seconds and nanoseconds from which the entry's timestamp text is rendered. */
  datatype Instant = Instant(secs: int, nanos: U32)

  /**
   * The seconds of the record's time, and its microseconds read as `u32` and multiplied
   * by 1000 in `u32` arithmetic, which wraps modulo 2^32.
   */
  function TimestampOf(tv: TimeVal): Instant {
    Instant(tv.tvSec, Wrap32(AsU32(tv.tvUsec) * 1000))
  }

  datatype LogonEntry = LogonEntry(
    logonType: LogonType,
    user: string,
    device: string,
    pid: U32,
    host: string,
    timestamp: Instant,
    timeEpoch: U32,
    ipAddr: string)

  /**
   * The conversion of a `struct utmp` into a login entry. The host and line loops
   * stay inside their arrays; the user loop runs to `UT_HOSTSIZE` over a 32-byte
   * array and panics when the array holds no stop character.
   */
  function Decode(u: Utmp): Result<LogonEntry>
    requires u.Valid()
  {
    match FieldText(u.utUser, UT_HOSTSIZE)
    case Failure(e) => Failure(e)
    case Success(user) =>
      Success(LogonEntry(
        logonType := LogonTypeOf(u.utType),
        user := user,
        device := Text(u.utLine),
        pid := AsU32(u.utPid),
        host := Text(u.utHost),
        timestamp := TimestampOf(u.utTv),
        timeEpoch := AsU32(u.utTv.tvSec),
        ipAddr := IpAddr(u.utAddrV6)))
  }

  /** The conversion as the program runs it: three copy loops, then the address step. */
  method FromUtmp(u: Utmp) returns (r: Result<LogonEntry>)
    requires u.Valid()
    ensures r == Decode(u)
  {
    var host := ScanField(u.utHost, UT_HOSTSIZE);
    var line := ScanField(u.utLine, UT_LINESIZE);
    var user := ScanField(u.utUser, UT_HOSTSIZE);
    if user.Failure? {
      return Failure(user.error);
    }
    FieldTextWithinBuffer(u.utHost);
    FieldTextWithinBuffer(u.utLine);
    var t := TimestampOf(u.utTv);

    var ip := "";
    if u.utAddrV6[0] != 0 && u.utAddrV6[1] == 0 && u.utAddrV6[2] == 0 && u.utAddrV6[3] == 0 {
      var b := I32Bytes(u.utAddrV6[0]);
      ip := Ipv4Text(b);
    } else if u.utAddrV6[0] != 0 || u.utAddrV6[1] != 0 || u.utAddrV6[2] != 0 || u.utAddrV6[3] != 0 {
      var b := AddrBytes(u.utAddrV6);
      ip := Ipv6Text(b);
    }

    r := Success(LogonEntry(
      logonType := LogonTypeOf(u.utType),
      user := user.value,
      device := line.value,
      pid := AsU32(u.utPid),
      host := host.value,
      timestamp := t,
      timeEpoch := AsU32(u.utTv.tvSec),
      ipAddr := ip));
  }

  /**
   * What a decoded entry holds: it exists exactly when the user array has a stop
   * character, its texts are the buffers' texts, its numbers are the `u32` readings of
   * the signed fields, and `timestamp` and `time_epoch` come from the same seconds.
   */
  lemma DecodeFields(u: Utmp)
    requires u.Valid()
    ensures Decode(u).Failure? <==> forall i :: 0 <= i < UT_NAMESIZE ==> !IsStop(u.utUser[i])
    ensures Decode(u).Failure? ==> Decode(u).error == IndexOutOfBounds(UT_NAMESIZE, UT_NAMESIZE)
    ensures Decode(u).Success? ==>
      var e := Decode(u).value;
      && e.logonType == LogonTypeOf(u.utType)
      && e.user == Text(u.utUser) && e.device == Text(u.utLine) && e.host == Text(u.utHost)
      && |e.user| < UT_NAMESIZE && |e.device| <= UT_LINESIZE && |e.host| <= UT_HOSTSIZE
      && e.pid == AsU32(u.utPid) && e.timeEpoch == AsU32(u.utTv.tvSec)
      && e.timestamp.secs == u.utTv.tvSec && AsU32(e.timestamp.secs) == e.timeEpoch
      && e.ipAddr == IpAddr(u.utAddrV6)
  {
    FieldTextPastBuffer(u.utUser, UT_HOSTSIZE);
    TextIsLongestPrefix(u.utUser);
    TextIsLongestPrefix(u.utLine);
    TextIsLongestPrefix(u.utHost);
  }
}
