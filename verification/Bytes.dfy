/** Octets, C integer limits and the small wrappers shared by every module. */
module Bytes {
  type byte = b: int | 0 <= b < 256

  const INT_MAX := 0x7fff_ffff
  const ULONG_MAX := 0xffff_ffff_ffff_ffff

  const CR: byte := 13
  const LF: byte := 10
  const SPACE: byte := 32

  datatype Option<+T> = None | Some(value: T)

  /** Lower-cases an ASCII octet, as yaz_strncasecmp does on both sides. */
  function Lower(b: byte): byte {
    if 65 <= b <= 90 then b + 32 else b
  }

  /** `text` occurs in `s` at `i`, letter case ignored; false when `s` is too short. */
  predicate MatchesAt(s: seq<byte>, i: nat, text: seq<byte>) {
    i + |text| <= |s| && forall k :: 0 <= k < |text| ==> Lower(s[i + k]) == Lower(text[k])
  }

  /** The octets of an ASCII text. */
  function Ascii(text: string): (s: seq<byte>)
    requires forall k :: 0 <= k < |text| ==> text[k] < 128 as char
    ensures |s| == |text|
    ensures forall k :: 0 <= k < |text| ==> s[k] == text[k] as int
  {
    seq(|text|, k requires 0 <= k < |text| => text[k] as int)
  }

  /** `a` and `b` are equal up to letter case. */
  predicate EqualsIgnoreCase(a: seq<byte>, b: seq<byte>) {
    |a| == |b| && MatchesAt(a, 0, b)
  }

  /** First position in i..end whose octet satisfies `stop`; `end` if there is none, `i` if i >= end. */
  function Find(s: seq<byte>, i: nat, end: nat, stop: byte -> bool): (k: nat)
    requires end <= |s|
    ensures i <= k && (i <= end ==> k <= end) && (i >= end ==> k == i)
    ensures k < end ==> stop(s[k])
    ensures forall m :: i <= m < k ==> !stop(s[m])
    decreases end - i
  {
    if i < end && !stop(s[i]) then Find(s, i + 1, end, stop) else i
  }

  lemma FindIs(s: seq<byte>, i: nat, end: nat, stop: byte -> bool, k: nat)
    requires i <= k <= end <= |s|
    requires forall m :: i <= m < k ==> !stop(s[m])
    requires k < end ==> stop(s[k])
    ensures Find(s, i, end, stop) == k
  {
  }

  /** The scanning loop behind Find. */
  method FindLoop(s: seq<byte>, start: nat, end: nat, stop: byte -> bool) returns (i: nat)
    requires end <= |s|
    ensures i == Find(s, start, end, stop)
  {
    i := start;
    while i < end && !stop(s[i])
      invariant start <= i && (start <= end ==> i <= end)
      invariant Find(s, i, end, stop) == Find(s, start, end, stop)
    {
      i := i + 1;
    }
  }
}
