/**
 * Well-formed UTF-8 byte sequences, as Rust's `str::from_utf8` / `CStr::to_str` accept them
 * (the well-formed sequences of Table 3-7 in chapter 3 of the Unicode Standard: no overlong forms,
 * no surrogates, nothing above U+10FFFF).
 */
module Utf8 {
  import opened Bytes

  predicate Cont(b: byte)
  {
    0x80 <= b <= 0xBF
  }

  /** The length of the well-formed character at the front of `b`, or 0 when there is none. */
  function CharLen(b: seq<byte>): (n: nat)
    ensures n <= |b| && n <= 4
    ensures |b| > 0 && b[0] < 0x80 ==> n == 1
    ensures n > 0 ==> |b| > 0
  {
    if |b| == 0 then 0
    else if b[0] < 0x80 then 1
    else if 0xC2 <= b[0] <= 0xDF then
      if |b| >= 2 && Cont(b[1]) then 2 else 0
    else if 0xE0 <= b[0] <= 0xEF then
      var lo := if b[0] == 0xE0 then 0xA0 else 0x80;
      var hi := if b[0] == 0xED then 0x9F else 0xBF;
      if |b| >= 3 && lo <= b[1] <= hi && Cont(b[2]) then 3 else 0
    else if 0xF0 <= b[0] <= 0xF4 then
      var lo := if b[0] == 0xF0 then 0x90 else 0x80;
      var hi := if b[0] == 0xF4 then 0x8F else 0xBF;
      if |b| >= 4 && lo <= b[1] <= hi && Cont(b[2]) && Cont(b[3]) then 4 else 0
    else 0
  }

  /** `str::from_utf8(b).is_ok()` */
  predicate Valid(b: seq<byte>)
    decreases |b|
  {
    |b| == 0 || (CharLen(b) > 0 && Valid(b[CharLen(b)..]))
  }

  /** A character's encoding depends only on its own bytes. */
  lemma CharLenPrefix(a: seq<byte>, b: seq<byte>)
    requires CharLen(a) > 0
    ensures CharLen(a + b) == CharLen(a)
  {
    assert (a + b)[..|a|] == a;
  }

  /** One valid character in front of valid text keeps it valid. */
  lemma ValidCons(a: seq<byte>, b: seq<byte>)
    requires CharLen(a) > 0 && Valid(a[CharLen(a)..] + b)
    ensures Valid(a + b)
  {
    var n := CharLen(a);
    CharLenPrefix(a, b);
    assert (a + b)[n..] == a[n..] + b;
  }

  /** Valid text followed by valid text is valid. */
  lemma {:induction false} ValidConcat(a: seq<byte>, b: seq<byte>)
    requires Valid(a) && Valid(b)
    ensures Valid(a + b)
    decreases |a|
  {
    if |a| == 0 {
      assert a + b == b;
    } else {
      ValidConcat(a[CharLen(a)..], b);
      ValidCons(a, b);
    }
  }

  /** Plain ASCII is valid UTF-8. */
  lemma {:induction false} AsciiValid(b: seq<byte>)
    requires forall i :: 0 <= i < |b| ==> b[i] < 0x80
    ensures Valid(b)
    decreases |b|
  {
    if |b| > 0 {
      AsciiValid(b[1..]);
    }
  }

  /** A valid string is split only between characters: a continuation byte never starts one. */
  lemma {:induction false} ValidStartsWell(b: seq<byte>)
    requires Valid(b) && |b| > 0
    ensures !Cont(b[0])
  {
  }

  /** What follows a valid prefix of valid text is valid on its own. */
  lemma {:induction false} ValidSuffix(a: seq<byte>, b: seq<byte>)
    requires Valid(a) && Valid(a + b)
    ensures Valid(b)
    decreases |a|
  {
    if |a| == 0 {
      assert a + b == b;
    } else {
      var n := CharLen(a);
      CharLenPrefix(a, b);
      assert (a + b)[n..] == a[n..] + b;
      ValidSuffix(a[n..], b);
    }
  }
}
