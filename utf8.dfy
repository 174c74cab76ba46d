/** Bytes and the UTF-8 well-formedness test that the piece table's reads
    rely on (the check behind Rust's `str::from_utf8`, i.e. the table of
    well-formed byte sequences in section 3.9 of the Unicode Standard). */
module Utf8 {

  type Byte = b: int | 0 <= b < 0x100

  predicate IsContinuation(b: Byte) {
    0x80 <= b <= 0xBF
  }

  /** The number of bytes of the well-formed sequence that starts `s`,
      or 0 when `s` does not start with one. */
  function LeadWidth(s: seq<Byte>): (n: nat)
    requires |s| > 0
    ensures n <= 4 && n <= |s|
  {
    var b := s[0];
    if b <= 0x7F then 1
    else if 0xC2 <= b <= 0xDF then
      (if |s| >= 2 && IsContinuation(s[1]) then 2 else 0)
    else if b == 0xE0 then
      (if |s| >= 3 && 0xA0 <= s[1] <= 0xBF && IsContinuation(s[2]) then 3 else 0)
    else if 0xE1 <= b <= 0xEC || 0xEE <= b <= 0xEF then
      (if |s| >= 3 && IsContinuation(s[1]) && IsContinuation(s[2]) then 3 else 0)
    else if b == 0xED then
      (if |s| >= 3 && 0x80 <= s[1] <= 0x9F && IsContinuation(s[2]) then 3 else 0)
    else if b == 0xF0 then
      (if |s| >= 4 && 0x90 <= s[1] <= 0xBF && IsContinuation(s[2]) && IsContinuation(s[3]) then 4 else 0)
    else if 0xF1 <= b <= 0xF3 then
      (if |s| >= 4 && IsContinuation(s[1]) && IsContinuation(s[2]) && IsContinuation(s[3]) then 4 else 0)
    else if b == 0xF4 then
      (if |s| >= 4 && 0x80 <= s[1] <= 0x8F && IsContinuation(s[2]) && IsContinuation(s[3]) then 4 else 0)
    else 0
  }

  /** `s` is a concatenation of well-formed UTF-8 sequences. */
  predicate ValidUtf8(s: seq<Byte>)
    decreases |s|
  {
    |s| == 0 || (LeadWidth(s) > 0 && ValidUtf8(s[LeadWidth(s)..]))
  }

  /** The width of a leading sequence only looks at that sequence's bytes. */
  lemma LeadWidthExtend(s: seq<Byte>, t: seq<Byte>)
    requires |s| > 0 && LeadWidth(s) > 0
    ensures LeadWidth(s + t) == LeadWidth(s)
  {
    var n := LeadWidth(s);
    assert forall k :: 0 <= k < n ==> (s + t)[k] == s[k];
  }

  /** Joining two texts keeps them text: what `read` relies on when it
      concatenates the pieces it has read. */
  lemma {:induction false} ValidConcat(a: seq<Byte>, b: seq<Byte>)
    requires ValidUtf8(a) && ValidUtf8(b)
    ensures ValidUtf8(a + b)
  {
    if |a| > 0 {
      var n := LeadWidth(a);
      LeadWidthExtend(a, b);
      assert (a + b)[n..] == a[n..] + b;
      ValidConcat(a[n..], b);
    } else {
      assert a + b == b;
    }
  }

  /** The length of the longest prefix of `buf` that is valid UTF-8: the
      place where dropping trailing bytes one at a time first succeeds. */
  function LongestValidPrefix(buf: seq<Byte>): (n: nat)
    ensures n <= |buf|
    decreases |buf|
  {
    if ValidUtf8(buf) then |buf|
    else LongestValidPrefix(buf[..|buf| - 1])
  }

  /** The prefix it keeps is text, and every longer prefix is not. */
  lemma {:induction false} LongestValidPrefixSpec(buf: seq<Byte>)
    ensures ValidUtf8(buf[..LongestValidPrefix(buf)])
    ensures forall k :: LongestValidPrefix(buf) < k <= |buf| ==> !ValidUtf8(buf[..k])
    decreases |buf|
  {
    assert buf[..|buf|] == buf;
    if !ValidUtf8(buf) {
      var shorter := buf[..|buf| - 1];
      LongestValidPrefixSpec(shorter);
      assert forall k :: 0 <= k <= |buf| - 1 ==> shorter[..k] == buf[..k];
    }
  }

  /** ASCII bytes are text, so `read_piece` keeps such a buffer whole. */
  lemma {:induction false} AsciiIsValid(s: seq<Byte>)
    requires forall k :: 0 <= k < |s| ==> s[k] <= 0x7F
    ensures ValidUtf8(s)
    ensures LongestValidPrefix(s) == |s|
  {
    if |s| > 0 {
      AsciiIsValid(s[1..]);
    }
  }
}
