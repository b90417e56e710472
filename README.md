# mhwho utmp decoder, modelled in Dafny

`mhwho` reads the login-accounting file `/var/run/utmp` and lists its records. This
project models the part of the program that does the real work:

- the `repr(C)` layout of glibc's `struct utmp` on x86/x86_64 (384 bytes, little-endian);
- the conversion `From<utmp> for LogonEntry`;
- the read loop that turns the file into a list of entries.

The conversion has five parts:

- the three `c_char` copy loops for host, line and user;
- the timestamp arguments;
- the IPv4/IPv6/empty address heuristic;
- the `ut_type` match;
- the `as u32` casts.

The read loop takes 384 bytes at a time until a read comes up short. Without `--all` it skips every record whose raw `ut_type` is not 7. It converts every other record and appends the entry.

Modules, in dependency order:

- `Results`: the outcome of a decode, which is a value or the panic that aborts the process.
- `Bytes`: bytes, the signed and unsigned fixed-width integers, and little-endian encoding and decoding.
- `Utmp`: the struct, and its decoding from one 384-byte record by explicit byte offsets (`ParseUtmp`).
  - The pointer cast of the read loop becomes this decoding.
  - `SerializeUtmp` serves as its inverse. Both round trips are proved, the second for records whose padding bytes are zero.
- `CText`: the copy loop of a `c_char` buffer.
  - It is a method, `ScanField`, proved against the function `FieldText`.
  - It has lemmas about the text that results.
- `Address`: the address heuristic and the decimal and hex text it builds.
  - Each text shape gets a reading-back function and a round-trip lemma.
- `Logon`: `LogonType`, `LogonEntry`, the conversion as a function (`Decode`) and as the program runs it (`FromUtmp`).
- `RecordView`: the decoder's results stated directly on the 384 record bytes.
- `Reader`: the read loop (`ReadEntries`), proved against the fold `Collect`, with lemmas about filtering and order.
- `Walkthrough`: a two-record log, worked through the model.

Points where the code's behaviour is easy to misread:

- `c_char` is `i8`, so the stop test `c <= 0` ends a text at a zero byte and also at any byte of 0x80 or more.
- The user loop runs over `0..UT_HOSTSIZE` (256) on a 32-byte array. It therefore panics with an index out of bounds when the 32 user bytes hold no stop byte. The model returns `Failure(IndexOutOfBounds(32, 32))`, and the read loop ends with that panic.
- The host and line loops never leave their arrays.
- The read loop filters on the raw `ut_type` before it decodes, not on the decoded category. `Reader.CollectDefaultIsCategoryFilter` proves that the two agree whenever the `--all` run succeeds.
- The address heuristic is kept exactly, including its quirk: an IPv6 address whose first word is non-zero and whose last three words are zero is rendered as IPv4 text (`Address.LinkLocalPrefixLooksIpv4`).

## Model

| member | source | states |
|---|---|---|
| Bytes.LeValue | src/main.rs:69-82 | the little-endian value of n bytes is below 256^n |
| Bytes.LeValueOfLeBytes | src/main.rs:69-82 | reading the n little-endian bytes of v < 256^n gives v back |
| Bytes.LeBytesOfLeValue | src/main.rs:69-82 | writing the value of a byte string with as many bytes gives the string back |
| Bytes.LeValueZero | src/main.rs:198 | a little-endian value is zero exactly when all its bytes are |
| Bytes.I32BytesZero | src/main.rs:198 | an `i32` is zero exactly when its four in-memory bytes are |
| Bytes.AsU32IsModular | src/main.rs:223 | `i32 as u32` is reduction modulo 2^32 |
| Bytes.SignedRoundTrips | src/main.rs:8-12 | signed and unsigned readings of 8, 16 and 32 bits are mutually inverse |
| Bytes.NonPositiveI8 | src/main.rs:175 | a byte read as `c_char` is `<= 0` exactly when it is 0 or at least 0x80 |
| Utmp.ParseUtmp | src/main.rs:69-82 | every array of the decoded struct has its declared length |
| Utmp.ParseSerialize | src/main.rs:69-82 | decoding the in-memory image of any struct value gives that value back (no two fields share bytes) |
| Utmp.SerializeParse | src/main.rs:69-82 | a record whose padding bytes 2..3 are zero is the image of its decoded struct (decoding loses only the padding) |
| Utmp.I32AtBytes | src/main.rs:69-82 | the `i32` read at an offset, laid back out, is the four record bytes there |
| CText.StopIndex | src/main.rs:174-191 | the index of the first `c <= 0`, or the length: no stop before it, a stop at it |
| CText.ScanField | src/main.rs:174-191 | the copy loop with bound `bound` yields `FieldText(buf, bound)`: the text up to the first stop or the bound, or the out-of-bounds panic when it runs past the array |
| CText.TextIsLongestPrefix | src/main.rs:174-185 | the text is the longest stop-free prefix, character by character; it is the whole buffer exactly when there is no stop |
| CText.TextIsAscii | src/main.rs:178 | text characters are U+0001..U+007F, never NUL |
| CText.FieldTextWithinBuffer | src/main.rs:174-185 | a loop bounded by its own array never panics and yields the text |
| CText.FieldTextPastBuffer | src/main.rs:186-191 | a loop bounded past its array panics exactly when the array has no stop, with index = length, and otherwise yields the text |
| CText.TextOfTerminated | src/main.rs:174-185 | stop-free characters followed by a zero have those characters as text |
| Address.Decimal | src/main.rs:200 | decimal text is non-empty, all digits, one digit exactly below 10 |
| Address.ParseDecimalOfDecimal | src/main.rs:200 | reading the decimal text gives the number back |
| Address.DecimalShape | src/main.rs:200 | no leading zero except for 0; a byte has at most three digits |
| Address.Ipv4Split | src/main.rs:200 | splitting the IPv4 text on '.' gives the four decimals |
| Address.Ipv4RoundTrip | src/main.rs:200 | splitting and reading the pieces gives the four bytes back |
| Address.Ipv4Shape | src/main.rs:200 | IPv4 text has 7 to 15 characters and no ':' |
| Address.HexDigit | src/main.rs:204-205 | a hex digit is 0-9 or a-f |
| Address.Hex2RoundTrip | src/main.rs:204-205 | `{:02x}` text of a byte reads back as that byte |
| Address.HexGroups | src/main.rs:204-205 | n bytes give 5n/2 - 1 characters |
| Address.HexGroupsRoundTrip | src/main.rs:204-205 | reading the colon-grouped hex gives every byte back, in order |
| Address.HexGroupsShape | src/main.rs:204-205 | every fifth character is ':' and every other one a lowercase hex digit |
| Address.Ipv6RoundTrip | src/main.rs:204-205 | IPv6 text has 39 characters, no '.', eight groups of four lowercase hex digits, and gives the 16 bytes back |
| Address.AddrBytes | src/main.rs:203 | the transmuted address is 16 bytes |
| Address.AddrBytesZero | src/main.rs:202 | all four words are zero exactly when all 16 bytes are |
| Address.IpAddrEmpty | src/main.rs:195-206 | the address text is empty exactly when all 16 address bytes are zero |
| Address.IpAddrIpv4 | src/main.rs:198-200 | only word 0 set: dotted decimal of word 0's bytes, which reads back, with no ':' |
| Address.IpAddrIpv6 | src/main.rs:202-205 | any of words 1-3 set, whatever word 0 holds: 39 characters with no '.', which read back as all 16 bytes |
| Address.IpAddrShapes | src/main.rs:194-206 | exactly one of the three shapes, each with its condition on the words |
| Address.LinkLocalPrefixLooksIpv4 | src/main.rs:197-200 | the IPv6 address fe80:: is rendered "254.128.0.0" |
| Logon.Code | src/main.rs:139-150 | every category has a code in 0..9 |
| Logon.LogonTypeMapping | src/main.rs:209-220 | the match is total: codes 1..9 map one-to-one onto the named categories, any other `i16` to `Empty`, and `UserProcess` exactly for 7 |
| Logon.FromUtmp | src/main.rs:169-232 | the three copy loops and the `ip` assignments compute `Decode(u)` |
| Logon.DecodeFields | src/main.rs:169-232 | decoding fails exactly when the user array has no stop, with index 32 and length 32; otherwise the entry holds the category, the three texts with their length bounds, the `u32` readings of pid and seconds, timestamp seconds equal to the epoch seconds, and the address text |
| RecordView.TextOfBytes | src/main.rs:174-185 | on raw bytes, the text is the bytes as characters up to the first byte that is 0 or at least 0x80 |
| RecordView.RecordUserOverrun | src/main.rs:186-191 | a record panics exactly when all of bytes 44..75 are in 1..127 |
| RecordView.RecordTexts | src/main.rs:174-191 | user, device and host are the texts of bytes 44..76, 8..40 and 76..332 |
| RecordView.RecordNumbers | src/main.rs:208-228 | category from bytes 0..1 (`UserProcess` exactly for value 7); pid and `time_epoch` are the unsigned readings of bytes 4..7 and 340..343 |
| RecordView.RecordCategory | src/main.rs:342-345 | a decoded record is `UserProcess` exactly when the filter's raw `ut_type` is 7 |
| RecordView.RecordAddrBytes | src/main.rs:199-203 | the transmuted words are record bytes 348..363 |
| RecordView.WordZero | src/main.rs:198 | an `i32` of the record is zero exactly when its four bytes are |
| RecordView.RecordIpAddr | src/main.rs:194-206 | the address text: empty exactly when bytes 348..363 are zero; exactly the dotted decimal of 348..351 (which reads back) when only those are set; otherwise exactly the 39-character colon-grouped hex of bytes 348..363, which reads back as them |
| RecordView.RecordAddress | src/main.rs:194-206 | the same exact texts, with their read-back, for the `ip_addr` of a decoded entry |
| Reader.Records | src/main.rs:326-328 | a file of n bytes holds floor(n / 384) records |
| Reader.RecordAt | src/main.rs:327-328 | every record i the loop reads lies within the file and is bytes 384i up to 384(i+1) |
| Reader.RecordsIgnoreTail | src/main.rs:328-333 | a trailing partial record adds no record |
| Reader.FailurePersists | src/main.rs:361 | once a record panics, the run ends with that panic |
| Reader.AccumulateStep | src/main.rs:326-362 | one loop turn extends the run over the prefix, or its panic is the outcome of the whole run |
| Reader.AccumulateAppend | src/main.rs:326-362 | the run over two consecutive parts of the file is the run over the first followed by the run over the second: both parts' entries in order, or the first part's panic, or else the second part's |
| Reader.AccumulateEvery | src/main.rs:326-362 | keeping every record: success exactly when every record decodes, one entry per record, in order |
| Reader.AccumulateFiltered | src/main.rs:342-345 | skipping records is the same as running over the kept records alone |
| Reader.FilterKeeps | src/main.rs:342-345 | the kept records are exactly those the filter accepts |
| Reader.FilterCounts | src/main.rs:342-345 | each accepted record is kept as often as it occurs in the input, and no rejected record is kept |
| Reader.FilterBeforeDecode | src/main.rs:342-345 | when the filter accepts exactly the records decoding to `UserProcess`, filtering first gives the `UserProcess` entries of the full run |
| Reader.UserEntriesAreUserProcess | src/main.rs:342-345 | the category filter keeps exactly the `UserProcess` entries |
| Reader.UserEntriesCounts | src/main.rs:342-345 | each `UserProcess` entry is kept as often as it occurs, and no entry of another category is kept |
| Reader.Absorb | src/main.rs:339-361 | the loop body on one record is one step of `Collect` |
| Reader.Turn | src/main.rs:326-361 | one turn keeps the loop invariant, or its panic is the result of the whole run |
| Reader.ReadEntries | src/main.rs:322-362 | the loop returns `Collect(Records(file), all)` |
| Reader.CollectAll | src/main.rs:322-362 | with `--all`: success exactly when every record decodes, one entry per record in file order |
| Reader.CollectDefault | src/main.rs:342-345 | without `--all`: the `--all` run over exactly the records of raw type 7, in file order |
| Reader.CollectDefaultIsCategoryFilter | src/main.rs:342-345 | without `--all`: the `UserProcess` entries of a successful `--all` run, in order |
| Walkthrough.TextOfPadded | src/main.rs:174-191 | a zero-padded array has the padded characters as text, and the user loop yields them |
| Walkthrough.SessionTexts | src/main.rs:174-191 | the sample record's texts are "alice", "pts/0" and "" |
| Walkthrough.DecodeSession | src/main.rs:169-232 | the sample session record decodes to its entry, with category `UserProcess`, pid 1234 and epoch 1700000000 |
| Walkthrough.DecodeUnused | src/main.rs:209-220 | the same record with type 0 decodes with category `Empty` |
| Walkthrough.DecodeLog | src/main.rs:339-343 | records holding the two sample structs decode as stated, with raw types 7 and 0 |
| Walkthrough.CollectLog | src/main.rs:342-361 | the default run lists only the session; `--all` lists both, in order |
| Walkthrough.LogOfImages | src/main.rs:69-82 | the two sample structs come from 384-byte records |

## Left out

- JSON, CSV and XML output (src/main.rs:234-261, 365-407) are thin wrappers over external crates that are not part of this model.
- The RFC 3339 `timestamp` text is left out. `Logon.TimestampOf` keeps the two arguments passed to `UTC.timestamp`: the seconds and `tv_usec as u32 * 1000`, wrapping as a release build does. The calendar text comes from the chrono crate, which is not part of this model.
- `Logon.TimestampOf`: the overflow panic of `tv_usec as u32 * 1000` in a debug build is not modelled. Neither is chrono's panic on nanoseconds it rejects.
- The console table (src/main.rs:410-414) is left out: it is formatting only.
- Command-line parsing, opening the file, `exit`/`_exit`, and stderr messages (src/main.rs:29-49, 263-320) are process plumbing and are left out.
- `Reader.ReadEntries` takes the file contents as one byte sequence.
  - A read error other than end of file (src/main.rs:335-336) prints a message and exits with status 1. That path is not modelled, because it comes from I/O.
  - A short final read ends the loop, as `UnexpectedEof` does.
- The field-by-field copy of the struct at src/main.rs:347-359 is left out. It changes no value, and the model passes the decoded struct on directly.
- The `Debug` impl of `utmp` (src/main.rs:102-136) feeds no output and is left out.
- Memory reinterpretation is not modelled directly. The pointer cast (src/main.rs:339-340) is modelled as decoding at explicit byte offsets, and both transmutes (src/main.rs:199, 203) as little-endian encoding of the `i32` words. Only x86/x86_64 are supported (src/main.rs:33-42), so little-endian is the right choice.
