/**
 * The read loop of the program: it reads the utmp file 384 bytes at a time until
 * a read comes up short, skips every record whose raw `ut_type` is not 7 unless
 * all records are asked for, and appends the entry of every other record.
 */
module Reader {
  import opened Bytes
  import opened Results
  import opened Utmp
  import opened Logon
  import opened RecordView

  /** The full records of a file, in order; a trailing partial record is never decoded. */
  function Records(file: seq<Byte>): (recs: seq<Record>)
    ensures |recs| == |file| / RECORD_SIZE
    decreases |file|
  {
    if |file| < RECORD_SIZE then [] else [file[..RECORD_SIZE]] + Records(file[RECORD_SIZE..])
  }

  /** Record `i` is bytes `384 * i` up to `384 * (i + 1)` of the file. */
  lemma {:induction false} RecordAt(file: seq<Byte>, i: nat)
    requires i < |Records(file)|
    ensures (i + 1) * RECORD_SIZE <= |file|
    ensures Records(file)[i] == file[i * RECORD_SIZE..(i + 1) * RECORD_SIZE]
    decreases i
  {
    if i > 0 {
      var rest := file[RECORD_SIZE..];
      RecordAt(rest, i - 1);
      var lo := (i - 1) * RECORD_SIZE;
      var inRest, inFile := rest[lo..lo + RECORD_SIZE], file[lo + RECORD_SIZE..lo + 2 * RECORD_SIZE];
      forall j | 0 <= j < RECORD_SIZE
        ensures inRest[j] == inFile[j]
      {
        assert rest[lo + j] == file[lo + RECORD_SIZE + j];
      }
      assert inRest == inFile;
    }
  }

  /** A trailing partial record adds nothing: the loop reads floor(n / 384) records of an n-byte file. */
  lemma {:induction false} RecordsIgnoreTail(file: seq<Byte>, tail: seq<Byte>)
    requires |file| % RECORD_SIZE == 0 && |tail| < RECORD_SIZE
    ensures Records(file + tail) == Records(file)
    decreases |file|
  {
    if |file| == 0 {
      assert file + tail == tail;
    } else {
      assert (file + tail)[..RECORD_SIZE] == file[..RECORD_SIZE];
      assert (file + tail)[RECORD_SIZE..] == file[RECORD_SIZE..] + tail;
      RecordsIgnoreTail(file[RECORD_SIZE..], tail);
    }
  }

  // ---------- the loop's bookkeeping, for any record filter and decoder ----------

  /**
   * Goes through the records in order, skips those `keep` rejects, aborts with the
   * first panic of `decode`, and appends every other decoded entry.
   */
  function Accumulate(recs: seq<Record>, keep: Record -> bool, decode: Record -> Result<LogonEntry>)
    : Result<seq<LogonEntry>>
    decreases |recs|
  {
    if recs == [] then Success([])
    else
      match Accumulate(recs[..|recs| - 1], keep, decode)
      case Failure(e) => Failure(e)
      case Success(es) => Step(es, recs[|recs| - 1], keep, decode)
  }

  /** What one more record does to the entries gathered so far. */
  function Step(es: seq<LogonEntry>, b: Record, keep: Record -> bool, decode: Record -> Result<LogonEntry>)
    : Result<seq<LogonEntry>>
  {
    if !keep(b) then Success(es)
    else
      match decode(b)
      case Failure(e) => Failure(e)
      case Success(x) => Success(es + [x])
  }

  /** The records `keep` accepts, in their original order. */
  function Filter(recs: seq<Record>, keep: Record -> bool): seq<Record>
    decreases |recs|
  {
    if recs == [] then []
    else
      var b := recs[|recs| - 1];
      Filter(recs[..|recs| - 1], keep) + if keep(b) then [b] else []
  }

  /** The entries of category `UserProcess`, in their original order. */
  function UserEntries(es: seq<LogonEntry>): seq<LogonEntry>
    decreases |es|
  {
    if es == [] then []
    else
      var e := es[|es| - 1];
      UserEntries(es[..|es| - 1]) + if e.logonType == UserProcess then [e] else []
  }

  predicate KeepAll(b: Record) {
    true
  }

  /** The default filter of the loop: a record is decoded only when its raw `ut_type` is 7. */
  predicate KeepUser(b: Record) {
    RawType(b) == 7
  }

  /** Once a prefix of the records has panicked, the run ends with that panic. */
  lemma {:induction false} FailurePersists(
    recs: seq<Record>, n: nat, keep: Record -> bool, decode: Record -> Result<LogonEntry>)
    requires n <= |recs| && Accumulate(recs[..n], keep, decode).Failure?
    ensures Accumulate(recs, keep, decode) == Accumulate(recs[..n], keep, decode)
    decreases |recs| - n
  {
    if n < |recs| {
      assert recs[..n + 1][..n] == recs[..n];
      FailurePersists(recs, n + 1, keep, decode);
    } else {
      assert recs[..n] == recs;
    }
  }

  /**
   * One more record: a success extends the run over the prefix, and a panic is the
   * outcome of the whole run.
   */
  lemma AccumulateStep(
    recs: seq<Record>, n: nat, keep: Record -> bool, decode: Record -> Result<LogonEntry>, es: seq<LogonEntry>)
    requires n < |recs| && Accumulate(recs[..n], keep, decode) == Success(es)
    ensures Step(es, recs[n], keep, decode).Success? ==>
      Accumulate(recs[..n + 1], keep, decode) == Step(es, recs[n], keep, decode)
    ensures Step(es, recs[n], keep, decode).Failure? ==>
      Accumulate(recs, keep, decode) == Step(es, recs[n], keep, decode)
  {
    assert recs[..n + 1][..n] == recs[..n];
    if Step(es, recs[n], keep, decode).Failure? {
      FailurePersists(recs, n + 1, keep, decode);
    }
  }

  /** A rejected record leaves the entries as they are; an accepted one adds its entry or ends the run. */
  lemma StepOf(es: seq<LogonEntry>, b: Record, keep: Record -> bool, decode: Record -> Result<LogonEntry>)
    ensures !keep(b) ==> Step(es, b, keep, decode) == Success(es)
    ensures keep(b) && decode(b).Success? ==> Step(es, b, keep, decode) == Success(es + [decode(b).value])
    ensures keep(b) && decode(b).Failure? ==> Step(es, b, keep, decode) == Failure(decode(b).error)
  {
  }

  /** Two records: the second step starts from the outcome of the first. */
  lemma AccumulatePair(r0: Record, r1: Record, keep: Record -> bool, decode: Record -> Result<LogonEntry>)
    ensures Accumulate([r0, r1], keep, decode) ==
      match Step([], r0, keep, decode)
      case Failure(e) => Failure(e)
      case Success(es) => Step(es, r1, keep, decode)
  {
    assert [r0, r1][..1] == [r0] && [r0][..0] == [];
    assert Accumulate([r0], keep, decode) == Step([], r0, keep, decode);
  }

  /**
   * A run over two consecutive parts is the run over the first part followed by the run
   * over the second: the entries of both in order, or the first panic, whichever part has it.
   */
  lemma {:induction false} AccumulateAppend(
    r: seq<Record>, s: seq<Record>, keep: Record -> bool, decode: Record -> Result<LogonEntry>)
    ensures Accumulate(r, keep, decode).Failure? ==> Accumulate(r + s, keep, decode) == Accumulate(r, keep, decode)
    ensures Accumulate(r, keep, decode).Success? && Accumulate(s, keep, decode).Failure? ==>
      Accumulate(r + s, keep, decode) == Accumulate(s, keep, decode)
    ensures Accumulate(r, keep, decode).Success? && Accumulate(s, keep, decode).Success? ==>
      Accumulate(r + s, keep, decode) ==
        Success(Accumulate(r, keep, decode).value + Accumulate(s, keep, decode).value)
    decreases |s|
  {
    if s == [] {
      assert r + s == r;
      if Accumulate(r, keep, decode).Success? {
        assert Accumulate(r, keep, decode).value + [] == Accumulate(r, keep, decode).value;
      }
    } else {
      var init, b := s[..|s| - 1], s[|s| - 1];
      AccumulateAppend(r, init, keep, decode);
      assert (r + s)[..|r + s| - 1] == r + init && (r + s)[|r + s| - 1] == b;
      var front, back := Accumulate(r, keep, decode), Accumulate(init, keep, decode);
      if front.Success? && back.Success? && keep(b) && decode(b).Success? {
        assert front.value + back.value + [decode(b).value] == front.value + (back.value + [decode(b).value]);
      }
    }
  }

  /** Keeping every record, the run succeeds exactly when each record decodes, one entry per record in order. */
  lemma {:induction false} AccumulateEvery(recs: seq<Record>, decode: Record -> Result<LogonEntry>)
    ensures Accumulate(recs, KeepAll, decode).Success? <==> forall i :: 0 <= i < |recs| ==> decode(recs[i]).Success?
    ensures Accumulate(recs, KeepAll, decode).Success? ==>
      |Accumulate(recs, KeepAll, decode).value| == |recs| &&
      forall i :: 0 <= i < |recs| ==> Accumulate(recs, KeepAll, decode).value[i] == decode(recs[i]).value
    decreases |recs|
  {
    if recs != [] {
      var init := recs[..|recs| - 1];
      AccumulateEvery(init, decode);
      assert forall i :: 0 <= i < |init| ==> init[i] == recs[i];
    }
  }

  /** Skipping records is the same as running over the kept records alone. */
  lemma {:induction false} AccumulateFiltered(recs: seq<Record>, keep: Record -> bool, decode: Record -> Result<LogonEntry>)
    ensures Accumulate(recs, keep, decode) == Accumulate(Filter(recs, keep), KeepAll, decode)
    decreases |recs|
  {
    if recs != [] {
      var init, b := recs[..|recs| - 1], recs[|recs| - 1];
      AccumulateFiltered(init, keep, decode);
      var kept := Filter(recs, keep);
      if keep(b) {
        assert kept[..|kept| - 1] == Filter(init, keep) && kept[|kept| - 1] == b;
      } else {
        assert kept == Filter(init, keep);
      }
    }
  }

  /** The filtered records are exactly those `keep` accepts. */
  lemma {:induction false} FilterKeeps(recs: seq<Record>, keep: Record -> bool)
    ensures |Filter(recs, keep)| <= |recs|
    ensures forall b :: b in Filter(recs, keep) <==> b in recs && keep(b)
    decreases |recs|
  {
    if recs != [] {
      var init := recs[..|recs| - 1];
      FilterKeeps(init, keep);
      assert recs == init + [recs[|recs| - 1]];
    }
  }

  /** Each accepted record is kept as often as it occurs, and no rejected record is kept. */
  lemma {:induction false} FilterCounts(recs: seq<Record>, keep: Record -> bool)
    ensures forall b :: multiset(Filter(recs, keep))[b] == if keep(b) then multiset(recs)[b] else 0
    decreases |recs|
  {
    if recs != [] {
      var init, last := recs[..|recs| - 1], recs[|recs| - 1];
      FilterCounts(init, keep);
      assert recs == init + [last];
      assert multiset(recs) == multiset(init) + multiset{last};
      if keep(last) {
        assert multiset(Filter(recs, keep)) == multiset(Filter(init, keep)) + multiset{last};
      } else {
        assert Filter(recs, keep) == Filter(init, keep) + [];
      }
    }
  }

  /**
   * When `keep` accepts exactly the records that decode to `UserProcess` entries,
   * filtering before decoding gives the entries of category `UserProcess` of the full run.
   */
  lemma {:induction false} FilterBeforeDecode(recs: seq<Record>, keep: Record -> bool, decode: Record -> Result<LogonEntry>)
    requires forall b :: decode(b).Success? ==> (keep(b) <==> decode(b).value.logonType == UserProcess)
    requires Accumulate(recs, KeepAll, decode).Success?
    ensures Accumulate(recs, keep, decode) == Success(UserEntries(Accumulate(recs, KeepAll, decode).value))
    decreases |recs|
  {
    if recs != [] {
      var init, b := recs[..|recs| - 1], recs[|recs| - 1];
      var prior := Accumulate(init, KeepAll, decode);
      assert prior.Success? && decode(b).Success?;
      FilterBeforeDecode(init, keep, decode);
      var es := Accumulate(recs, KeepAll, decode).value;
      assert es == prior.value + [decode(b).value];
      assert es[..|es| - 1] == prior.value;
      assert UserEntries(es) == UserEntries(prior.value) + if decode(b).value.logonType == UserProcess then [decode(b).value] else [];
      assert Accumulate(init, keep, decode) == Success(UserEntries(prior.value));
      assert keep(b) <==> decode(b).value.logonType == UserProcess;
      if keep(b) {
        assert Accumulate(recs, keep, decode) == Success(UserEntries(prior.value) + [decode(b).value]);
      } else {
        assert UserEntries(es) == UserEntries(prior.value) + [];
        assert UserEntries(prior.value) + [] == UserEntries(prior.value);
        assert Accumulate(recs, keep, decode) == Success(UserEntries(prior.value));
      }
    }
  }

  /** Every entry left by the category filter is of category `UserProcess`, and no such entry is lost. */
  lemma {:induction false} UserEntriesAreUserProcess(es: seq<LogonEntry>)
    ensures forall e :: e in UserEntries(es) <==> e in es && e.logonType == UserProcess
    decreases |es|
  {
    if es != [] {
      UserEntriesAreUserProcess(es[..|es| - 1]);
      assert es == es[..|es| - 1] + [es[|es| - 1]];
    }
  }

  /** Each `UserProcess` entry is kept as often as it occurs, and no other entry is kept. */
  lemma {:induction false} UserEntriesCounts(es: seq<LogonEntry>)
    ensures forall e :: multiset(UserEntries(es))[e] == if e.logonType == UserProcess then multiset(es)[e] else 0
    decreases |es|
  {
    if es != [] {
      var init, last := es[..|es| - 1], es[|es| - 1];
      UserEntriesCounts(init);
      assert es == init + [last];
      assert multiset(es) == multiset(init) + multiset{last};
      if last.logonType == UserProcess {
        assert multiset(UserEntries(es)) == multiset(UserEntries(init)) + multiset{last};
      } else {
        assert UserEntries(es) == UserEntries(init) + [];
      }
    }
  }

  // ---------- the loop of the program ----------

  /** The records the loop decodes: all of them with `--all`, otherwise those of raw type 7. */
  function Keep(all: bool): Record -> bool {
    if all then KeepAll else KeepUser
  }

  /** The entries the program gathers from the records, with or without `--all`. */
  function Collect(recs: seq<Record>, all: bool): Result<seq<LogonEntry>> {
    Accumulate(recs, Keep(all), DecodeRecord)
  }

  /**
   * The body of the read loop for one record: skip it unless `--all` is given or its
   * raw `ut_type` is 7, otherwise convert it and append the entry.
   */
  method Absorb(b: Record, all: bool, entries: seq<LogonEntry>) returns (r: Result<seq<LogonEntry>>)
    ensures r == Step(entries, b, Keep(all), DecodeRecord)
  {
    var u := ParseUtmp(b);
    if !all && u.utType != 7 {
      return Success(entries);
    }
    var e := FromUtmp(u);
    if e.Failure? {
      return Failure(e.error);
    }
    return Success(entries + [e.value]);
  }

  /** One turn of the read loop on the `n`-th record, given the entries of the records before it. */
  method Turn(b: Record, all: bool, entries: seq<LogonEntry>, ghost recs: seq<Record>, ghost n: nat)
    returns (r: Result<seq<LogonEntry>>)
    requires n < |recs| && recs[n] == b && Collect(recs[..n], all) == Success(entries)
    ensures r.Success? ==> Collect(recs[..n + 1], all) == r
    ensures r.Failure? ==> Collect(recs, all) == r
  {
    r := Absorb(b, all, entries);
    AccumulateStep(recs, n, Keep(all), DecodeRecord, entries);
  }

  /** The read loop over the file's bytes. */
  method ReadEntries(file: seq<Byte>, all: bool) returns (r: Result<seq<LogonEntry>>)
    ensures r == Collect(Records(file), all)
  {
    var entries: seq<LogonEntry> := [];
    var pos: nat := 0;
    ghost var recs := Records(file);
    ghost var n: nat := 0;
    while pos + RECORD_SIZE <= |file|
      invariant n <= |recs| && pos == n * RECORD_SIZE
      invariant Collect(recs[..n], all) == Success(entries)
      decreases |file| - pos
    {
      // read_exact of one whole record
      var b: Record := file[pos..pos + RECORD_SIZE];
      RecordAt(file, n);
      pos := pos + RECORD_SIZE;
      var next := Turn(b, all, entries, recs, n);
      n := n + 1;
      if next.Failure? {
        return next;
      }
      entries := next.value;
    }
    // the next read_exact comes up short: UnexpectedEof ends the loop
    assert recs[..n] == recs;
    return Success(entries);
  }

  /** With `--all` the run succeeds exactly when every record decodes, one entry per record in file order. */
  lemma CollectAll(recs: seq<Record>)
    ensures Collect(recs, true).Success? <==> forall i :: 0 <= i < |recs| ==> DecodeRecord(recs[i]).Success?
    ensures Collect(recs, true).Success? ==>
      |Collect(recs, true).value| == |recs| &&
      forall i :: 0 <= i < |recs| ==> Collect(recs, true).value[i] == DecodeRecord(recs[i]).value
  {
    AccumulateEvery(recs, DecodeRecord);
  }

  /** Without `--all` the run is the `--all` run over the records of raw type 7, in file order. */
  lemma CollectDefault(recs: seq<Record>)
    ensures Collect(recs, false) == Collect(Filter(recs, KeepUser), true)
    ensures forall b :: b in Filter(recs, KeepUser) <==> b in recs && RawType(b) == 7
  {
    AccumulateFiltered(recs, KeepUser, DecodeRecord);
    FilterKeeps(recs, KeepUser);
  }

  /**
   * Filtering on the raw type before decoding, as the program does, yields the entries
   * of category `UserProcess` of the `--all` run whenever that run succeeds.
   */
  lemma CollectDefaultIsCategoryFilter(recs: seq<Record>)
    requires Collect(recs, true).Success?
    ensures Collect(recs, false) == Success(UserEntries(Collect(recs, true).value))
  {
    forall b: Record | DecodeRecord(b).Success?
      ensures KeepUser(b) <==> DecodeRecord(b).value.logonType == UserProcess
    {
      RecordCategory(b);
    }
    FilterBeforeDecode(recs, KeepUser, DecodeRecord);
  }
}
