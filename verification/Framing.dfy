/** Message framing on a growing buffer: cs_complete_auto and cs_complete_auto_head of src/comstack.c. */
module Framing {
  import opened Bytes
  import opened HttpFramer
  import opened BerFramer
  import opened BerHeader

  predicate Printable(b: byte) {
    0x20 <= b < 0x7f
  }

  /** The first four octets decide between HTTP and BER, once more than five have arrived. */
  predicate LooksLikeHttp(s: seq<byte>) {
    |s| > 5 && Printable(s[0]) && Printable(s[1]) && Printable(s[2]) && Printable(s[3])
  }

  /** cs_complete_auto_x. */
  function CompleteAuto(s: seq<byte>, headOnly: bool): (r: int)
    ensures -1 <= r <= |s|
  {
    if LooksLikeHttp(s) then CompleteHttp(s, headOnly) else Complete(s, 0, 0)
  }

  /** Too few octets for the dispatch, but the start of text: the BER framer has to wait as well,
      because a printable octet is never a length that five octets could satisfy. */
  lemma ShortTextIsOpen(s: seq<byte>)
    requires |s| <= 5
    requires forall k :: 0 <= k < |s| && k < 4 ==> Printable(s[k])
    ensures Complete(s, 0, 0) == 0
  {
    if |s| >= 2 {
      if s[0] % 32 == 31 {
        assert HighTag(s, 1, 0) == Some((2, s[1] % 128));
      }
    }
  }

  /** The verdict on a buffer that grows from `s` to `t`: acceptance is final; a rejected buffer is
      never accepted; rejection is final below the header limit. */
  lemma VerdictsConsistent(s: seq<byte>, t: seq<byte>, headOnly: bool)
    requires s <= t
    ensures Consistent(|s|, CompleteAuto(s, headOnly), CompleteAuto(t, headOnly))
  {
    if LooksLikeHttp(s) {
      CompleteHttpStable(s, t, headOnly);
    } else if LooksLikeHttp(t) {
      assert forall k :: 0 <= k < |s| ==> s[k] == t[k];
      ShortTextIsOpen(s);
    } else {
      CompleteStable(s, t, 0, 0);
    }
  }

  /** Framing over a whole stream. If some prefix of `n` octets is accepted with length r, then
      every prefix shorter than r is incomplete, no prefix is rejected or accepted with another
      length, and every prefix from `n` on is accepted with r. */
  lemma StreamFraming(stream: seq<byte>, n: nat, m: nat, headOnly: bool)
    requires n <= |stream| && m <= |stream|
    requires CompleteAuto(stream[..n], headOnly) > 0
    ensures
      var r, v := CompleteAuto(stream[..n], headOnly), CompleteAuto(stream[..m], headOnly);
      && r <= n
      && (m < r ==> v == 0)
      && (v == 0 || v == r)
      && (m >= n ==> v == r)
  {
    if m <= n {
      assert stream[..n][..m] == stream[..m];
      VerdictsConsistent(stream[..m], stream[..n], headOnly);
    } else {
      assert stream[..m][..n] == stream[..n];
      VerdictsConsistent(stream[..n], stream[..m], headOnly);
    }
  }

  /** cs_complete_auto_x. */
  method CsCompleteAutoX(buf: seq<byte>, headOnly: bool) returns (r: int)
    ensures r == CompleteAuto(buf, headOnly)
  {
    if |buf| > 5 && buf[0] >= 0x20 && buf[0] < 0x7f
       && buf[1] >= 0x20 && buf[1] < 0x7f
       && buf[2] >= 0x20 && buf[2] < 0x7f
       && buf[3] >= 0x20 && buf[3] < 0x7f {
      r := CsCompleteHttp(buf, headOnly);
    } else {
      r := CompleteBERn(buf, 0, 0);
    }
  }
}
