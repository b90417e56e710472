/**
 * A two-record log worked through the model: a `UserProcess` session of "alice" on
 * "pts/0" with pid 1234, no host and no address, followed by a record of type 0.
 */
module Walkthrough {
  import opened Bytes
  import opened Results
  import opened Utmp
  import opened CText
  import opened Address
  import opened Logon
  import opened RecordView
  import opened Reader

  /** An `n`-element `c_char` array holding `s`, then zeros. */
  function Padded(s: seq<I8>, n: nat): (buf: seq<I8>)
    requires |s| < n
    ensures |buf| == n
  {
    s + [0] + seq(n - |s| - 1, _ => 0)
  }

  const ALICE: seq<I8> := [97, 108, 105, 99, 101]
  const PTS0: seq<I8> := [112, 116, 115, 47, 48]

  /** The session record, as a struct value. */
  function Session(): (u: Utmp)
    ensures u.Valid()
  {
    Utmp(
      utType := 7,
      utPid := 1234,
      utLine := Padded(PTS0, UT_LINESIZE),
      utId := [0, 0, 0, 0],
      utUser := Padded(ALICE, UT_NAMESIZE),
      utHost := Padded([], UT_HOSTSIZE),
      utExit := ExitStatus(0, 0),
      utSession := 0,
      utTv := TimeVal(1700000000, 0),
      utAddrV6 := [0, 0, 0, 0],
      glibcReserved := seq(20, _ => 0))
  }

  /** The same record with `ut_type` 0. */
  function Unused(): (u: Utmp)
    ensures u.Valid()
  {
    Session().(utType := 0)
  }

  /** The entry of the session record. */
  function SessionEntry(): LogonEntry {
    LogonEntry(UserProcess, "alice", "pts/0", 1234, "", Instant(1700000000, 0), 1700000000, "")
  }

  /** A padded array's text is what was padded, when that holds no stop character. */
  lemma TextOfPadded(s: seq<I8>, n: nat)
    requires |s| < n && forall i :: 0 <= i < |s| ==> !IsStop(s[i])
    ensures Text(Padded(s, n)) == Chars(s)
    ensures n < UT_HOSTSIZE ==> FieldText(Padded(s, n), UT_HOSTSIZE) == Success(Chars(s))
  {
    TextOfTerminated(s, seq(n - |s| - 1, _ => 0));
    var buf := Padded(s, n);
    assert IsStop(buf[|s|]);
    if n < UT_HOSTSIZE {
      FieldTextPastBuffer(buf, UT_HOSTSIZE);
    }
  }

  /** The three texts of the session record. */
  lemma SessionTexts()
    ensures FieldText(Session().utUser, UT_HOSTSIZE) == Success("alice")
    ensures Text(Session().utLine) == "pts/0"
    ensures Text(Session().utHost) == ""
  {
    TextOfPadded(ALICE, UT_NAMESIZE);
    TextOfPadded(PTS0, UT_LINESIZE);
    TextOfPadded([], UT_HOSTSIZE);
    assert Chars(ALICE) == "alice";
    assert Chars(PTS0) == "pts/0";
  }

  /** The session record decodes to its entry: category 7, "alice" on "pts/0", pid 1234, no host, no address. */
  lemma DecodeSession()
    ensures Decode(Session()) == Success(SessionEntry())
  {
    SessionTexts();
    var r := Decode(Session());
    assert r.Success?;
    var e := r.value;
    assert e.user == "alice" && e.device == "pts/0" && e.host == "";
    assert e.ipAddr == "" && e.timestamp == Instant(1700000000, 0);
    assert e.logonType == UserProcess && e.pid == 1234 && e.timeEpoch == 1700000000;
  }

  /** The type-0 record decodes to the same entry with category `Empty`. */
  lemma DecodeUnused()
    ensures Decode(Unused()) == Success(SessionEntry().(logonType := Empty))
  {
    SessionTexts();
    var u := Unused();
    var r := Decode(u);
    assert u.utUser == Session().utUser && u.utLine == Session().utLine && u.utHost == Session().utHost;
    assert r.Success?;
    var e := r.value;
    assert e.user == "alice" && e.device == "pts/0" && e.host == "";
    assert e.ipAddr == "" && e.timestamp == Instant(1700000000, 0);
    assert e.logonType == Empty && e.pid == 1234 && e.timeEpoch == 1700000000;
  }

  /** What the read loop sees of the two records. */
  lemma DecodeLog(r0: Record, r1: Record)
    requires ParseUtmp(r0) == Session() && ParseUtmp(r1) == Unused()
    ensures DecodeRecord(r0) == Success(SessionEntry()) && RawType(r0) == 7
    ensures DecodeRecord(r1) == Success(SessionEntry().(logonType := Empty)) && RawType(r1) == 0
  {
    DecodeSession();
    DecodeUnused();
  }

  /**
   * Two records read as `DecodeLog` states: by default only the session is reported;
   * with `--all` both are, the second as `Empty`.
   */
  lemma CollectLog(r0: Record, r1: Record)
    requires DecodeRecord(r0) == Success(SessionEntry()) && RawType(r0) == 7
    requires DecodeRecord(r1) == Success(SessionEntry().(logonType := Empty)) && RawType(r1) == 0
    ensures Collect([r0, r1], false) == Success([SessionEntry()])
    ensures Collect([r0, r1], true) == Success([SessionEntry(), SessionEntry().(logonType := Empty)])
  {
    var e0, e1 := SessionEntry(), SessionEntry().(logonType := Empty);
    assert Keep(false)(r0) && !Keep(false)(r1) && Keep(true)(r0) && Keep(true)(r1);
    StepOf([], r0, Keep(false), DecodeRecord);
    StepOf([e0], r1, Keep(false), DecodeRecord);
    StepOf([], r0, Keep(true), DecodeRecord);
    StepOf([e0], r1, Keep(true), DecodeRecord);
    assert [] + [e0] == [e0] && [e0] + [e1] == [e0, e1];
    AccumulatePair(r0, r1, Keep(false), DecodeRecord);
    AccumulatePair(r0, r1, Keep(true), DecodeRecord);
  }

  /** Such a log exists: the images of the two struct values. */
  lemma LogOfImages()
    ensures ParseUtmp(SerializeUtmp(Session())) == Session()
    ensures ParseUtmp(SerializeUtmp(Unused())) == Unused()
  {
    ParseSerialize(Session());
    ParseSerialize(Unused());
  }
}
