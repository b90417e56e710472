/**
 * Text of a fixed-capacity `c_char` buffer. The decoder copies characters until
 * the first `c <= 0`; because `c_char` is a signed `i8`, that stops at a zero byte
 * and equally at any byte of 0x80 or more.
 */
module CText {
  import opened Bytes
  import opened Results

  /** The loop's stop test `c <= 0` on a signed `c_char`. */
  predicate IsStop(c: I8) {
    c <= 0
  }

  /** The character whose code is the byte's unsigned value. */
  function CharOf(c: I8): char {
    AsU8(c) as char
  }

  function Chars(cs: seq<I8>): (s: string)
    ensures |s| == |cs| && forall i :: 0 <= i < |cs| ==> s[i] == CharOf(cs[i])
  {
    seq(|cs|, i requires 0 <= i < |cs| => CharOf(cs[i]))
  }

  /** The index of the first stop character, or the buffer length when there is none. */
  function StopIndex(buf: seq<I8>): (k: nat)
    ensures k <= |buf|
    ensures forall i :: 0 <= i < k ==> !IsStop(buf[i])
    ensures k < |buf| ==> IsStop(buf[k])
  {
    if buf == [] || IsStop(buf[0]) then 0 else 1 + StopIndex(buf[1..])
  }

  /** The text a buffer holds: its characters up to the first stop, or all of them. */
  function Text(buf: seq<I8>): string {
    Chars(buf[..StopIndex(buf)])
  }

  /**
   * What a copy loop produces when it walks the indices below `bound`, stops at the
   * first stop character and appends every other character: the text up to the
   * first stop or up to `bound`, whichever comes first, unless the loop indexes
   * past the end of the buffer, which panics.
   */
  function FieldText(buf: seq<I8>, bound: nat): Result<string> {
    var k := StopIndex(buf);
    if k == |buf| && |buf| < bound then Failure(IndexOutOfBounds(|buf|, |buf|))
    else Success(Chars(buf[..if k < bound then k else bound]))
  }

  /** The copy loop of the decoder, run over one `c_char` array with loop bound `bound`. */
  method ScanField(buf: seq<I8>, bound: nat) returns (r: Result<string>)
    ensures r == FieldText(buf, bound)
  {
    var text := "";
    var x := 0;
    while x < bound
      invariant x <= bound && x <= |buf|
      invariant forall i :: 0 <= i < x ==> !IsStop(buf[i])
      invariant text == Chars(buf[..x])
    {
      if x >= |buf| {
        return Failure(IndexOutOfBounds(x, |buf|));
      }
      if IsStop(buf[x]) {
        break;
      }
      text := text + [CharOf(buf[x])];
      x := x + 1;
    }
    return Success(text);
  }

  /** The text is the longest prefix free of stop characters. */
  lemma TextIsLongestPrefix(buf: seq<I8>)
    ensures |Text(buf)| <= |buf|
    ensures forall i :: 0 <= i < |Text(buf)| ==> !IsStop(buf[i]) && Text(buf)[i] == CharOf(buf[i])
    ensures |Text(buf)| < |buf| ==> IsStop(buf[|Text(buf)|])
    ensures |Text(buf)| == |buf| <==> forall i :: 0 <= i < |buf| ==> !IsStop(buf[i])
  {
  }

  /** Decoded text holds only the characters U+0001 to U+007F: never a NUL. */
  lemma TextIsAscii(buf: seq<I8>)
    ensures forall i :: 0 <= i < |Text(buf)| ==> 0x01 <= Text(buf)[i] as int <= 0x7f
  {
  }

  /** Run over exactly its own length, the loop never panics and yields the text. */
  lemma FieldTextWithinBuffer(buf: seq<I8>)
    ensures FieldText(buf, |buf|) == Success(Text(buf))
  {
  }

  /**
   * Run past the end of the buffer, the loop panics exactly when the buffer holds no
   * stop character; otherwise it yields the text.
   */
  lemma FieldTextPastBuffer(buf: seq<I8>, bound: nat)
    requires bound > |buf|
    ensures FieldText(buf, bound).Failure? <==> forall i :: 0 <= i < |buf| ==> !IsStop(buf[i])
    ensures FieldText(buf, bound).Failure? ==> FieldText(buf, bound).error == IndexOutOfBounds(|buf|, |buf|)
    ensures FieldText(buf, bound).Success? ==> FieldText(buf, bound).value == Text(buf)
  {
  }

  /** A buffer holding stop-free characters, then a zero, then anything: its text is those characters. */
  lemma TextOfTerminated(s: seq<I8>, rest: seq<I8>)
    requires forall i :: 0 <= i < |s| ==> !IsStop(s[i])
    ensures Text(s + [0] + rest) == Chars(s)
  {
    var buf := s + [0] + rest;
    assert IsStop(buf[|s|]);
    assert StopIndex(buf) == |s|;
    assert buf[..|s|] == s;
  }
}
