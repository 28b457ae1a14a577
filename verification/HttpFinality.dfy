/** Exactly when a rejection by the framer is final, src/comstack.c:349-465. */
module HttpFinality {
  import opened Bytes
  import opened Atoin
  import opened HttpFramer
  import opened BerFramer
  import opened Framing

  /** `s` holds the beginning of `name` at `j`, or all of it, letter case ignored. */
  predicate Begins(s: seq<byte>, j: nat, name: seq<byte>) {
    j <= |s| && forall k :: 0 <= k < |name| && j + k < |s| ==> Lower(s[j + k]) == Lower(name[k])
  }

  /** A line that the look-ahead guards pass over and that can still turn out to be a Transfer-Encoding or
      Content-Length line; the octet behind "Content-Length:", if it is there, can begin a number. */
  predicate MayBecome(s: seq<byte>, j: nat) {
    || (|s| <= j + 19 && Begins(s, j, TRANSFER_ENCODING))
    || (|s| <= j + 16 && Begins(s, j, CONTENT_LENGTH) &&
        (|s| == j + 16 ==> s[j + 15] == SPACE || IsDigit(10, s[j + 15])))
  }

  /** The header loop comes to such a line. */
  predicate Exposed(s: seq<byte>, i: nat, contentLen: int, chunked: bool)
    requires -1 <= contentLen
    decreases |s| - i
  {
    i + 2 <= |s| && i <= MAX_HEADER &&
    var j := SkipCrlf(s, i);
    if j == i then Exposed(s, i + 1, contentLen, chunked)
    else SkipCrlf(s, j) == j &&
         (MayBecome(s, j) ||
          match HeaderLine(s, j, contentLen, chunked)
          case Done(_) => false
          case Continue(i', len, c) => Exposed(s, i', len, c))
  }

  predicate HttpExposed(s: seq<byte>, headOnly: bool) {
    var end := LineEnd(s, 0);
    end < |s| && Exposed(s, 2, Classify(s, end, headOnly).contentLen, false)
  }

  // ---- no other rejection is revoked

  /** Without a line end no further line begins. */
  lemma {:induction false} NoLine(s: seq<byte>, i: nat, contentLen: int, chunked: bool)
    requires -1 <= contentLen && forall k :: i <= k < |s| - 1 ==> !IsEol(s[k])
    ensures !Exposed(s, i, contentLen, chunked)
    decreases |s| - i
  {
    if i + 2 <= |s| && i <= MAX_HEADER {
      NoLine(s, i + 1, contentLen, chunked);
    }
  }

  /** A hidden line begins like the header it is. */
  lemma HiddenBegins(s: seq<byte>, t: seq<byte>, j: nat)
    requires s <= t && j <= |s| && Hidden(s, t, j)
    ensures (|s| <= j + 19 && Begins(s, j, TRANSFER_ENCODING)) ||
            (|s| <= j + 16 && j + 16 < |t| && MatchesAt(t, j, CONTENT_LENGTH) && Begins(s, j, CONTENT_LENGTH))
  {
    assert forall k :: 0 <= k < |s| ==> s[k] == t[k];
  }

  /** Content-Length with something behind it that is neither a blank nor a digit is an error. */
  lemma NoNumber(t: seq<byte>, j: nat, contentLen: int, chunked: bool)
    requires j + 16 < |t| && MatchesAt(t, j, CONTENT_LENGTH) && t[j + 15] != SPACE && !IsDigit(10, t[j + 15])
    ensures HeaderLine(t, j, contentLen, chunked) == Done(-1)
  {
    assert Lower(t[j + 0]) == Lower(CONTENT_LENGTH[0]);
    assert MatchesAt(t, j, TRANSFER_ENCODING) ==> Lower(t[j + 0]) == Lower(TRANSFER_ENCODING[0]);
    assert SkipSpaces(t, j + 15) == j + 15;
    RunEndUnique(10, t, j + 15, j + 15);
  }

  lemma {:induction false} RevokedIsExposed(s: seq<byte>, t: seq<byte>, i: nat, contentLen: int, chunked: bool,
      headOnly: bool)
    requires s <= t && -1 <= contentLen && Headers(s, i, contentLen, chunked, headOnly) == -1
    requires Headers(t, i, contentLen, chunked, headOnly) != -1
    ensures Exposed(s, i, contentLen, chunked)
    decreases |s| - i
  {
    hide HeaderLine, Body, After, MayBecome;
    if i <= MAX_HEADER {
      var j := SkipCrlf(s, i);
      assert SkipCrlf(t, i) == j;
      if j == i {
        RevokedIsExposed(s, t, i + 1, contentLen, chunked, headOnly);
      } else if SkipCrlf(s, j) != j {
        BodyStable(s, t, SkipCrlf(s, j), contentLen, chunked, headOnly);
      } else if SkipCrlf(t, j) == j {
        HeadersAtLine(s, i, contentLen, chunked, headOnly);
        HeadersAtLine(t, i, contentLen, chunked, headOnly);
        RevokedLine(s, t, i, contentLen, chunked, headOnly);
      } else {
        CutOffBlankLine(s, t, i, contentLen, chunked, headOnly);
      }
    }
  }

  lemma {:induction false} RevokedLine(s: seq<byte>, t: seq<byte>, i: nat, contentLen: int, chunked: bool,
      headOnly: bool)
    requires s <= t && -1 <= contentLen && i + 2 <= |s| && i <= MAX_HEADER
    requires SkipCrlf(s, i) != i && SkipCrlf(s, SkipCrlf(s, i)) == SkipCrlf(s, i)
    requires After(s, HeaderLine(s, SkipCrlf(s, i), contentLen, chunked), headOnly) == -1
    requires After(t, HeaderLine(t, SkipCrlf(s, i), contentLen, chunked), headOnly) != -1
    ensures Exposed(s, i, contentLen, chunked)
    decreases |s| - i, 0
  {
    var j := SkipCrlf(s, i);
    hide HeaderLine, Hidden, Headers, Begins;
    HeaderLineStable(s, t, j, contentLen, chunked);
    var line := HeaderLine(s, j, contentLen, chunked);
    if line == Continue(j + 1, contentLen, chunked) && Hidden(s, t, j) {
      HiddenBegins(s, t, j);
      if |s| == j + 16 && !MayBecome(s, j) {
        assert s[j + 15] == t[j + 15];
        NoNumber(t, j, contentLen, chunked);
      }
    } else if line.Continue? && line.i == |s| {
      HeadersAtEnd(s, line.contentLen, line.chunked, headOnly);
    } else if line.Continue? {
      RevokedIsExposed(s, t, line.i, line.contentLen, line.chunked, headOnly);
    }
  }

  // ---- every such line can be completed

  /** The buffer with the rest of the header name, or one digit more. */
  function Completed(s: seq<byte>, j: nat): (t: seq<byte>)
    requires MayBecome(s, j)
    ensures s <= t
  {
    if |s| <= j + 19 && Begins(s, j, TRANSFER_ENCODING) then
      s + (TRANSFER_ENCODING + [SPACE, SPACE])[|s| - j..]
    else if |s| == j + 16 then s + [if s[j + 15] == SPACE then SPACE else 48]
    else s + (CONTENT_LENGTH + [SPACE, SPACE])[|s| - j..]
  }

  lemma NameCompleted(s: seq<byte>, j: nat, name: seq<byte>, tail: seq<byte>, t: seq<byte>)
    requires Begins(s, j, name) && |s| <= j + |name| + |tail| && t == s + (name + tail)[|s| - j..]
    ensures MatchesAt(t, j, name) && |t| == j + |name| + |tail|
    ensures forall k :: |s| <= k < |t| ==> t[k] == (name + tail)[k - j]
  {
    forall k | 0 <= k < |name| ensures Lower(t[j + k]) == Lower(name[k]) {
      if j + k < |s| { assert t[j + k] == s[j + k]; } else { assert t[j + k] == (name + tail)[k]; }
    }
  }

  lemma CompletedOpen(s: seq<byte>, j: nat, contentLen: int, chunked: bool, headOnly: bool)
    requires -1 <= contentLen && MayBecome(s, j)
    ensures var t := Completed(s, j);
            j < |t| && !IsEol(t[j]) && After(t, HeaderLine(t, j, contentLen, chunked), headOnly) == 0
  {
    hide Headers;
    if |s| <= j + 19 && Begins(s, j, TRANSFER_ENCODING) {
      EncodingOpen(s, j, contentLen, chunked);
    } else if |s| == j + 16 {
      DigitOpen(s, j, contentLen, chunked, headOnly);
    } else {
      LengthOpen(s, j, contentLen, chunked);
    }
  }

  lemma EncodingOpen(s: seq<byte>, j: nat, contentLen: int, chunked: bool)
    requires |s| <= j + 19 && Begins(s, j, TRANSFER_ENCODING)
    ensures var t := s + (TRANSFER_ENCODING + [SPACE, SPACE])[|s| - j..];
            j < |t| && !IsEol(t[j]) && HeaderLine(t, j, contentLen, chunked) == Done(0)
  {
    var t := s + (TRANSFER_ENCODING + [SPACE, SPACE])[|s| - j..];
    NameCompleted(s, j, TRANSFER_ENCODING, [SPACE, SPACE], t);
    TransferEncodingHasNoEol(t, j, j);
  }

  lemma NotEncoding(t: seq<byte>, j: nat)
    requires MatchesAt(t, j, CONTENT_LENGTH)
    ensures !MatchesAt(t, j, TRANSFER_ENCODING)
  {
    assert Lower(t[j + 0]) == Lower(CONTENT_LENGTH[0]);
    assert MatchesAt(t, j, TRANSFER_ENCODING) ==> Lower(t[j + 0]) == Lower(TRANSFER_ENCODING[0]);
  }

  lemma LengthOpen(s: seq<byte>, j: nat, contentLen: int, chunked: bool)
    requires |s| <= j + 15 && Begins(s, j, CONTENT_LENGTH)
    ensures var t := s + (CONTENT_LENGTH + [SPACE, SPACE])[|s| - j..];
            j < |t| && !IsEol(t[j]) && HeaderLine(t, j, contentLen, chunked) == Done(0)
  {
    var t := s + (CONTENT_LENGTH + [SPACE, SPACE])[|s| - j..];
    NameCompleted(s, j, CONTENT_LENGTH, [SPACE, SPACE], t);
    ContentLengthHasNoEol(t, j, j);
    NotEncoding(t, j);
    assert t[j + 15] == (CONTENT_LENGTH + [SPACE, SPACE])[15] == SPACE;
    assert t[j + 16] == (CONTENT_LENGTH + [SPACE, SPACE])[16] == SPACE;
    assert SkipSpaces(t, j + 17) == j + 17;
    assert SkipSpaces(t, j + 16) == j + 17;
    assert SkipSpaces(t, j + 15) == |t|;
  }

  lemma DigitOpen(s: seq<byte>, j: nat, contentLen: int, chunked: bool, headOnly: bool)
    requires |s| == j + 16 && Begins(s, j, CONTENT_LENGTH) && (s[j + 15] == SPACE || IsDigit(10, s[j + 15]))
    ensures var t := s + [if s[j + 15] == SPACE then SPACE else 48];
            j < |t| && !IsEol(t[j]) && After(t, HeaderLine(t, j, contentLen, chunked), headOnly) == 0
  {
    var t := s + [if s[j + 15] == SPACE then SPACE else 48];
    assert MatchesAt(t, j, CONTENT_LENGTH);
    ContentLengthHasNoEol(t, j, j);
    NotEncoding(t, j);
    assert t[j + 15] == s[j + 15];
    if s[j + 15] == SPACE {
      assert SkipSpaces(t, j + 17) == j + 17;
      assert SkipSpaces(t, j + 16) == j + 17;
      assert SkipSpaces(t, j + 15) == |t|;
    } else {
      assert SkipSpaces(t, j + 15) == j + 15;
      RunEndUnique(10, t, j + 15, j + 17);
      TwoDigits(t, j + 15);
    }
  }

  lemma TwoDigits(t: seq<byte>, v: nat)
    requires v + 2 == |t| && IsDigit(10, t[v]) && IsDigit(10, t[v + 1]) && RunEnd(10, t, v) == |t|
    ensures Atoi(10, t, v).Some? && Atoi(10, t, v).value.0 == 2
  {
    assert NumVal(10, t, v, v) == 0;
    assert NumVal(10, t, v, v + 1) == DigitValue(t[v]);
    assert NumVal(10, t, v, v + 2) == DigitValue(t[v]) * 10 + DigitValue(t[v + 1]);
  }

  /** The header loop reaches the line again in the completed buffer and waits there. */
  lemma {:induction false} ExposedOpen(s: seq<byte>, i: nat, contentLen: int, chunked: bool, headOnly: bool)
    returns (t: seq<byte>)
    requires -1 <= contentLen && Exposed(s, i, contentLen, chunked)
    ensures s <= t && Headers(t, i, contentLen, chunked, headOnly) == 0
    decreases |s| - i
  {
    hide HeaderLine, Body, After, MayBecome, Completed;
    var j := SkipCrlf(s, i);
    if j == i {
      t := ExposedOpen(s, i + 1, contentLen, chunked, headOnly);
      assert SkipCrlf(t, i) == i;
    } else if MayBecome(s, j) {
      t := Completed(s, j);
      CompletedOpen(s, j, contentLen, chunked, headOnly);
      assert SkipCrlf(t, i) == j && SkipCrlf(t, j) == j;
      HeadersAtLine(t, i, contentLen, chunked, headOnly);
    } else {
      var line := HeaderLine(s, j, contentLen, chunked);
      t := ExposedOpen(s, line.i, line.contentLen, line.chunked, headOnly);
      SameLine(s, t, j, contentLen, chunked);
      assert SkipCrlf(t, i) == j && SkipCrlf(t, j) == j;
      HeadersAtLine(t, i, contentLen, chunked, headOnly);
      assert After(t, line, headOnly) == Headers(t, line.i, line.contentLen, line.chunked, headOnly) by {
        AfterIs(t, line, headOnly);
      }
    }
  }

  lemma AfterIs(t: seq<byte>, line: HeaderTurn, headOnly: bool)
    requires line.Continue? && -1 <= line.contentLen
    ensures After(t, line, headOnly) == Headers(t, line.i, line.contentLen, line.chunked, headOnly)
  {
  }

  /** A line that the loop leaves behind on its way is read alike in both buffers. */
  lemma SameLine(s: seq<byte>, t: seq<byte>, j: nat, contentLen: int, chunked: bool)
    requires s <= t && j <= |s| && -1 <= contentLen && !MayBecome(s, j) && SkipCrlf(s, j) == j
    requires var line := HeaderLine(s, j, contentLen, chunked);
             line.Continue? && Exposed(s, line.i, line.contentLen, line.chunked)
    ensures HeaderLine(t, j, contentLen, chunked) == HeaderLine(s, j, contentLen, chunked)
    ensures SkipCrlf(t, j) == j
  {
    hide HeaderLine, MayBecome, Hidden, Begins;
    HeaderLineStable(s, t, j, contentLen, chunked);
    var line := HeaderLine(s, j, contentLen, chunked);
    if line == Continue(j + 1, contentLen, chunked) && Hidden(s, t, j) {
      HiddenNoLine(s, t, j);
      NoLine(s, j + 1, contentLen, chunked);
    }
  }

  lemma HiddenNoLine(s: seq<byte>, t: seq<byte>, j: nat)
    requires s <= t && j <= |s| && Hidden(s, t, j)
    ensures forall k :: j + 1 <= k < |s| - 1 ==> !IsEol(s[k])
  {
    forall k | j + 1 <= k < |s| - 1 ensures !IsEol(s[k]) {
      if |s| <= j + 19 < |t| && MatchesAt(t, j, TRANSFER_ENCODING) {
        TransferEncodingHasNoEol(t, j, k);
      } else {
        ContentLengthHasNoEol(t, j, k);
      }
      assert s[k] == t[k];
    }
  }

  // ---- main results

  /** A buffer that the HTTP framer rejects has an extension that it does not reject if and only if the
      header loop comes to a line that may still become one of the two it looks for. */
  lemma HttpRejectionFinal(s: seq<byte>, headOnly: bool)
    requires CompleteHttp(s, headOnly) == -1
    ensures (exists t :: s <= t && CompleteHttp(t, headOnly) != -1) <==> HttpExposed(s, headOnly)
    ensures HttpExposed(s, headOnly) ==> |s| > MAX_HEADER + 2
  {
    hide CompleteHttp, HttpExposed;
    if t :| s <= t && CompleteHttp(t, headOnly) != -1 {
      HttpRevoked(s, t, headOnly);
    }
    if HttpExposed(s, headOnly) {
      var t := HttpOpen(s, headOnly);
      assert CompleteHttp(t, headOnly) != -1;
      CompleteHttpStable(s, t, headOnly);
    }
  }

  lemma HttpRevoked(s: seq<byte>, t: seq<byte>, headOnly: bool)
    requires s <= t && CompleteHttp(s, headOnly) == -1 && CompleteHttp(t, headOnly) != -1
    ensures HttpExposed(s, headOnly)
  {
    hide Headers, Exposed;
    var end := LineEnd(s, 0);
    LineEndUnique(t, 0, end);
    ClassifyStable(s, t, end, headOnly);
    var start := Classify(s, end, headOnly);
    RevokedIsExposed(s, t, 2, start.contentLen, false, start.headOnly);
  }

  lemma HttpOpen(s: seq<byte>, headOnly: bool) returns (t: seq<byte>)
    requires HttpExposed(s, headOnly)
    ensures s <= t && CompleteHttp(t, headOnly) == 0
  {
    hide Headers, Exposed;
    var end := LineEnd(s, 0);
    var start := Classify(s, end, headOnly);
    t := ExposedOpen(s, 2, start.contentLen, false, start.headOnly);
    LineEndUnique(t, 0, end);
    ClassifyStable(s, t, end, headOnly);
  }

  /** The same for the framer as a whole: every rejection by the BER framer is final. */
  lemma RejectionFinal(s: seq<byte>, headOnly: bool)
    requires CompleteAuto(s, headOnly) == -1
    ensures (exists t :: s <= t && CompleteAuto(t, headOnly) != -1) <==> LooksLikeHttp(s) && HttpExposed(s, headOnly)
  {
    hide CompleteHttp, HttpExposed, Complete;
    if LooksLikeHttp(s) {
      assert forall t :: s <= t ==> CompleteAuto(t, headOnly) == CompleteHttp(t, headOnly);
      HttpRejectionFinal(s, headOnly);
      if HttpExposed(s, headOnly) {
        var t :| s <= t && CompleteHttp(t, headOnly) != -1;
        assert CompleteAuto(t, headOnly) != -1;
      }
    } else {
      forall t | s <= t ensures CompleteAuto(t, headOnly) == -1 {
        if LooksLikeHttp(t) {
          assert forall k :: 0 <= k < |s| ==> s[k] == t[k];
          ShortTextIsOpen(s);
        } else {
          CompleteStable(s, t, 0, 0);
        }
      }
    }
  }
}
