/** The response decoder, src/http.c:22-146 and 470-539, on whole messages: a status line, header fields, a
    blank line and a body, where a line ends in CRLF or in LF alone. */
module HttpDecoding {
  import opened Bytes
  import opened Pieces
  import opened Atoin
  import opened HttpFramer
  import opened HttpCodec

  /** A C string without line ends. */
  predicate IsText(t: seq<byte>) {
    forall k :: 0 <= k < |t| ==> !IsLineEnd(t[k])
  }

  function Eol(bare: bool): seq<byte> { if bare then [LF] else CRLF }

  // ---- the status line

  /** Version, code and reason phrase of a status line. */
  datatype Opening = Opening(version: seq<byte>, code: seq<byte>, reason: seq<byte>, bare: bool)

  predicate IsOpening(l: Opening) {
    && IsText(l.version) && SPACE !in l.version && IsText(l.reason)
    && |l.code| <= 3 && forall k :: 0 <= k < |l.code| ==> 48 <= l.code[k] <= 57
  }

  function OpeningOctets(l: Opening): seq<byte> {
    HTTP_SLASH + (l.version + ([SPACE] + (l.code + ([SPACE] + (l.reason + Eol(l.bare))))))
  }

  /** Where the parts of a status line are. */
  lemma StatusAt(s: seq<byte>, l: Opening)
    requires OccursAt(s, 0, OpeningOctets(l))
    ensures
      var v, c := 5 + |l.version|, 6 + |l.version| + |l.code|;
      var e := c + 1 + |l.reason|;
      && OccursAt(s, 0, HTTP_SLASH) && OccursAt(s, 5, l.version) && v < |s| && s[v] == SPACE
      && OccursAt(s, v + 1, l.code) && c < |s| && s[c] == SPACE && OccursAt(s, c + 1, l.reason)
      && OccursAt(s, e, Eol(l.bare)) && |OpeningOctets(l)| == e + |Eol(l.bare)|
  {
    hide OccursAt, Eol;
    var v, c := 5 + |l.version|, 6 + |l.version| + |l.code|;
    var t4 := l.reason + Eol(l.bare);
    var t3 := l.code + ([SPACE] + t4);
    OccursSplit(s, 0, HTTP_SLASH, l.version + ([SPACE] + t3));
    OccursSplit(s, 5, l.version, [SPACE] + t3);
    OccursSplit(s, v, [SPACE], t3);
    OccursOne(s, v, SPACE);
    OccursSplit(s, v + 1, l.code, [SPACE] + t4);
    OccursSplit(s, c, [SPACE], t4);
    OccursOne(s, c, SPACE);
    OccursSplit(s, c + 1, l.reason, Eol(l.bare));
  }

  lemma EolAt(s: seq<byte>, e: nat, bare: bool)
    requires OccursAt(s, e, Eol(bare))
    ensures var f := e + |Eol(bare)| - 1;
            e <= f < |s| && s[f] == LF && (if bare then f == e else f == e + 1 && s[e] == CR)
  {
    assert s[e + 0] == Eol(bare)[0];
    if !bare { assert s[e + 1] == Eol(bare)[1]; }
  }

  lemma TextAt(s: seq<byte>, i: nat, t: seq<byte>)
    requires OccursAt(s, i, t)
    ensures i + |t| <= |s| && forall m :: i <= m < i + |t| ==> s[m] == t[m - i]
  {
    forall m | i <= m < i + |t| ensures s[m] == t[m - i] { assert s[i + (m - i)] == t[m - i]; }
  }

  /** The three scans of the status line stop where its parts end. */
  lemma StatusScanned(s: seq<byte>, l: Opening)
    requires IsOpening(l) && OccursAt(s, 0, OpeningOctets(l)) && |s| >= 10 && |s| > |OpeningOctets(l)|
    ensures
      var v, c := 5 + |l.version|, 6 + |l.version| + |l.code|;
      && c + 1 <= |s| - 1 && Find(s, 5, |s| - 1, IsSpaceOrEnd) == v && s[v] == SPACE
      && Find(s, v + 1, |s| - 1, IsNotDigit) == c && s[c] == SPACE
      && LineFeed(s, c + 1) == Some(|OpeningOctets(l)| - 1)
  {
    hide OccursAt, Find, OpeningOctets, LineFeed, Eol;
    StatusAt(s, l);
    var v, c := 5 + |l.version|, 6 + |l.version| + |l.code|;
    LastLine(s, c + 1, l.reason, l.bare);
    VersionScanned(s, 5, l.version);
    CodeScanned(s, v + 1, l.code);
  }

  lemma VersionScanned(s: seq<byte>, i: nat, t: seq<byte>)
    requires OccursAt(s, i, t) && IsText(t) && SPACE !in t && i + |t| < |s| - 1 && s[i + |t|] == SPACE
    ensures Find(s, i, |s| - 1, IsSpaceOrEnd) == i + |t|
  {
    hide OccursAt, Find;
    TextAt(s, i, t);
    FindIs(s, i, |s| - 1, IsSpaceOrEnd, i + |t|);
  }

  lemma CodeScanned(s: seq<byte>, i: nat, t: seq<byte>)
    requires OccursAt(s, i, t) && (forall k :: 0 <= k < |t| ==> 48 <= t[k] <= 57)
    requires i + |t| < |s| - 1 && s[i + |t|] == SPACE
    ensures Find(s, i, |s| - 1, IsNotDigit) == i + |t|
  {
    hide OccursAt, Find;
    TextAt(s, i, t);
    FindIs(s, i, |s| - 1, IsNotDigit, i + |t|);
  }

  lemma LastLine(s: seq<byte>, i: nat, t: seq<byte>, bare: bool)
    requires OccursAt(s, i, t) && IsText(t) && OccursAt(s, i + |t|, Eol(bare))
    ensures var e := i + |t| + |Eol(bare)|; e <= |s| && |Eol(bare)| >= 1 && LineFeed(s, i) == Some(e - 1)
  {
    hide OccursAt, Find;
    EolAt(s, i + |t|, bare);
    TextAt(s, i, t);
    FindIs(s, i, |s|, IsLineEnd, i + |t|);
  }

  /** The status line is decoded to its version and code. */
  lemma FirstDecoded(s: seq<byte>, l: Opening)
    requires IsOpening(l) && OccursAt(s, 0, OpeningOctets(l)) && |s| >= 10 && |s| > |OpeningOctets(l)|
    ensures |OpeningOctets(l)| > 6
    ensures DecodeFirst(s) == Some(First(l.version, Numeral(10, l.code), |OpeningOctets(l)| - 1))
  {
    hide OccursAt, Find, LineFeed, NumVal, OpeningOctets;
    StatusAt(s, l);
    StatusScanned(s, l);
    var v, c := 5 + |l.version|, 6 + |l.version| + |l.code|;
    OccursSlice(s, 5, l.version);
    NumValShift(10, s, v + 1, l.code, |l.code|);
  }

  /** A code of more than three digits is refused. */
  lemma LongCode(s: seq<byte>, l: Opening)
    requires IsText(l.version) && SPACE !in l.version && |l.code| > 3
    requires forall k :: 0 <= k < |l.code| ==> 48 <= l.code[k] <= 57
    requires OccursAt(s, 0, OpeningOctets(l))
    ensures DecodeFirst(s).None?
  {
    hide OccursAt, Find, OpeningOctets, LineFeed, Eol;
    StatusAt(s, l);
    EolNotEmpty(l.bare);
    OccursSlice(s, 0, OpeningOctets(l));
    VersionScanned(s, 5, l.version);
    CodeScanned(s, 6 + |l.version|, l.code);
  }

  // ---- header fields

  /** A header field: blanks behind the colon belong to neither name nor value. */
  datatype Field = Field(name: seq<byte>, blanks: seq<byte>, value: seq<byte>, bare: bool)

  predicate IsField(f: Field) {
    && IsText(f.name) && COLON !in f.name && (forall k :: 0 <= k < |f.blanks| ==> f.blanks[k] == SPACE)
    && IsText(f.value) && (f.value != [] ==> f.value[0] != SPACE)
  }

  predicate AreFields(fs: seq<Field>) { forall k :: 0 <= k < |fs| ==> IsField(fs[k]) }

  function FieldOctets(f: Field): seq<byte> {
    f.name + ([COLON] + (f.blanks + (f.value + Eol(f.bare))))
  }

  function Fields(fs: seq<Field>): seq<byte> {
    if fs == [] then [] else FieldOctets(fs[0]) + Fields(fs[1..])
  }

  function HeadersOf(fs: seq<Field>): (hs: seq<Header>)
    ensures |hs| == |fs|
  {
    if fs == [] then [] else [Header(fs[0].name, fs[0].value)] + HeadersOf(fs[1..])
  }

  lemma FieldAt(s: seq<byte>, j: nat, f: Field)
    requires OccursAt(s, j, FieldOctets(f))
    ensures
      var c := j + |f.name|;
      var v := c + 1 + |f.blanks|;
      var e := v + |f.value|;
      && OccursAt(s, j, f.name) && c < |s| && s[c] == COLON && OccursAt(s, c + 1, f.blanks)
      && OccursAt(s, v, f.value) && OccursAt(s, e, Eol(f.bare)) && |FieldOctets(f)| == e - j + |Eol(f.bare)|
  {
    hide OccursAt, Eol;
    var c := j + |f.name|;
    var t := f.value + Eol(f.bare);
    OccursSplit(s, j, f.name, [COLON] + (f.blanks + t));
    OccursSplit(s, c, [COLON], f.blanks + t);
    OccursOne(s, c, COLON);
    OccursSplit(s, c + 1, f.blanks, t);
    OccursSplit(s, c + 1 + |f.blanks|, f.value, Eol(f.bare));
  }

  lemma FieldDecoded(s: seq<byte>, j: nat, f: Field)
    requires IsField(f) && OccursAt(s, j, FieldOctets(f)) && j + |FieldOctets(f)| < |s|
    ensures j < |s| && !IsEol(s[j]) && |FieldOctets(f)| >= 2 && s[j + |FieldOctets(f)| - 1] == LF
    ensures DecodeHeader(s, j) == Some((Header(f.name, f.value), j + |FieldOctets(f)| - 1))
  {
    hide OccursAt, Find, FieldOctets, Eol, IsText, DecodeHeader, IsColon, IsNotSpace, IsLineEnd;
    FieldAt(s, j, f);
    var c := j + |f.name|;
    var v := c + 1 + |f.blanks|;
    var e := v + |f.value|;
    EolAt(s, e, f.bare);
    NameScanned(s, j, f.name);
    BlanksScanned(s, c + 1, f.blanks, f.value);
    ValueScanned(s, v, f.value);
    OccursSlice(s, j, f.name);
    OccursSlice(s, v, f.value);
    HeaderFound(s, j, c, v, e, f.bare);
  }

  lemma HeaderFound(s: seq<byte>, j: nat, c: nat, v: nat, e: nat, bare: bool)
    requires j <= c < v <= e < |s| - 1 && (if bare then s[e] != CR else s[e] == CR)
    requires Find(s, j, |s|, IsColon) == c
    requires Find(s, c + 1, |s| - 1, IsNotSpace) == v && Find(s, v, |s| - 1, IsLineEnd) == e
    ensures DecodeHeader(s, j) == Some((Header(s[j..c], s[v..e]), if bare then e else e + 1))
  {
    hide Find;
  }

  lemma NameScanned(s: seq<byte>, j: nat, name: seq<byte>)
    requires OccursAt(s, j, name) && IsText(name) && COLON !in name && j + |name| < |s| && s[j + |name|] == COLON
    ensures Find(s, j, |s|, IsColon) == j + |name| && !IsEol(s[j])
  {
    hide OccursAt, Find;
    TextAt(s, j, name);
    FindIs(s, j, |s|, IsColon, j + |name|);
  }

  lemma BlanksScanned(s: seq<byte>, i: nat, blanks: seq<byte>, value: seq<byte>)
    requires OccursAt(s, i, blanks) && (forall k :: 0 <= k < |blanks| ==> blanks[k] == SPACE)
    requires OccursAt(s, i + |blanks|, value) && (value != [] ==> value[0] != SPACE)
    requires i + |blanks| + |value| < |s| - 1 && IsEol(s[i + |blanks| + |value|])
    ensures Find(s, i, |s| - 1, IsNotSpace) == i + |blanks|
  {
    hide OccursAt, Find;
    TextAt(s, i, blanks);
    TextAt(s, i + |blanks|, value);
    FindIs(s, i, |s| - 1, IsNotSpace, i + |blanks|);
  }

  lemma ValueScanned(s: seq<byte>, v: nat, value: seq<byte>)
    requires OccursAt(s, v, value) && IsText(value) && v + |value| < |s| - 1 && IsEol(s[v + |value|])
    ensures Find(s, v, |s| - 1, IsLineEnd) == v + |value|
  {
    hide OccursAt, Find;
    TextAt(s, v, value);
    FindIs(s, v, |s| - 1, IsLineEnd, v + |value|);
  }

  lemma StepDecoded(s: seq<byte>, i: nat, h: Header, e: nat, hs: seq<Header>, stop: nat)
    requires i + 1 < |s| && s[i] == LF && !IsEol(s[i + 1]) && e <= |s|
    requires DecodeHeader(s, i + 1) == Some((h, e)) && DecodeHeaders(s, e) == Some((hs, stop))
    ensures DecodeHeaders(s, i) == Some(([h] + hs, stop))
  {
    hide DecodeHeader;
  }

  lemma BlankDecoded(s: seq<byte>, i: nat, bare: bool)
    requires i < |s| && s[i] == LF && OccursAt(s, i + 1, Eol(bare))
    ensures DecodeHeaders(s, i) == Some(([], i + |Eol(bare)|)) && i + |Eol(bare)| < |s| && s[i + |Eol(bare)|] == LF
  {
    EolAt(s, i + 1, bare);
  }

  /** The header fields are decoded up to the blank line. */
  lemma {:induction false} FieldsDecoded(s: seq<byte>, i: nat, fs: seq<Field>, bare: bool)
    requires AreFields(fs) && i < |s| && s[i] == LF && OccursAt(s, i + 1, Fields(fs) + Eol(bare))
    ensures var stop := i + |Fields(fs)| + |Eol(bare)|;
            stop < |s| && s[stop] == LF && DecodeHeaders(s, i) == Some((HeadersOf(fs), stop))
    decreases |fs|
  {
    hide DecodeHeader, DecodeHeaders, OccursAt, FieldOctets, Eol, IsField;
    if fs == [] {
      assert [] + Eol(bare) == Eol(bare);
      BlankDecoded(s, i, bare);
    } else {
      var first, rest := FieldOctets(fs[0]), Fields(fs[1..]);
      Regroup(first, rest, Eol(bare));
      OccursSplit(s, i + 1, first, rest + Eol(bare));
      EolNotEmpty(bare);
      OccursSlice(s, i + 1 + |first|, rest + Eol(bare));
      FieldDecoded(s, i + 1, fs[0]);
      FieldsDecoded(s, i + |first|, fs[1..], bare);
      var stop := i + |Fields(fs)| + |Eol(bare)|;
      StepDecoded(s, i, Header(fs[0].name, fs[0].value), i + |first|, HeadersOf(fs[1..]), stop);
    }
  }

  lemma EolNotEmpty(bare: bool)
    ensures |Eol(bare)| >= 1
  {
  }

  // ---- whole messages

  function HeadOctets(l: Opening, fs: seq<Field>, bare: bool): seq<byte> {
    OpeningOctets(l) + (Fields(fs) + Eol(bare))
  }

  /** Every message: version, code and header fields come back, and the body is decoded as chunks if and only
      if one of the fields is a Transfer-Encoding with the value "chunked". */
  lemma MessageDecoded(l: Opening, fs: seq<Field>, bare: bool, body: seq<byte>)
    requires IsOpening(l) && AreFields(fs) && |HeadOctets(l, fs, bare) + body| >= 10
    ensures var s, hs := HeadOctets(l, fs, bare) + body, HeadersOf(fs);
            Decode(s) ==
              if !IsChunked(hs) then Some(Response(l.version, Numeral(10, l.code), hs, body))
              else
                var content := DecodeChunks(s, |HeadOctets(l, fs, bare)|, []);
                if content.None? then None else Some(Response(l.version, Numeral(10, l.code), hs, content.value))
  {
    hide DecodeHeaders, DecodeFirst, OpeningOctets, IsChunked, DecodeChunks, Fields, OccursAt, Eol, IsOpening, Numeral,
         AreFields;
    var s, n := HeadOctets(l, fs, bare) + body, |OpeningOctets(l)|;
    EolNotEmpty(bare);
    Parts(OpeningOctets(l), Fields(fs) + Eol(bare), body);
    FirstDecoded(s, l);
    FirstEndsInLf(s);
    FieldsDecoded(s, n - 1, fs, bare);
  }

  lemma FirstEndsInLf(s: seq<byte>)
    ensures DecodeFirst(s).Some? ==> DecodeFirst(s).value.end < |s| && s[DecodeFirst(s).value.end] == LF
  {
    hide Find, LineFeed, OccursAt;
  }

  /** The status line ends at the first LF of the message. */
  lemma FirstLineFeed(s: seq<byte>)
    requires DecodeFirst(s).Some?
    ensures forall k :: 0 <= k < DecodeFirst(s).value.end ==> s[k] != LF
  {
    var v := Find(s, 5, |s| - 1, IsSpaceOrEnd);
    var c := Find(s, v + 1, |s| - 1, IsNotDigit);
    var m := Find(s, c + 1, |s|, IsLineEnd);
    forall k | 0 <= k < DecodeFirst(s).value.end ensures s[k] != LF {
      if k < 5 {
        assert s[0 + k] == HTTP_SLASH[k];
      } else if k < v {
        assert !IsSpaceOrEnd(s[k]);
      } else if v < k < c {
        assert !IsNotDigit(s[k]);
      } else if c < k < m {
        assert !IsLineEnd(s[k]);
      }
    }
  }

  lemma Parts(a: seq<byte>, b: seq<byte>, c: seq<byte>)
    ensures var s := a + b + c;
            OccursAt(s, 0, a) && OccursAt(s, |a|, b) && s[|a| + |b|..] == c && |s| == |a| + |b| + |c|
  {
  }
}
