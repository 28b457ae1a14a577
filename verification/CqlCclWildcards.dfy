/** CQL terms with wildcards printed as CCL, src/cql2ccl.c:24-85: what is printed stands in quotes, except the
    wildcards, which become the truncation and mask characters of CCL. */
module CqlCclWildcards {
  import opened Pieces
  import opened CqlToCcl
  import opened CclFind
  import opened CclQueries

  /** A part of a term: characters as they are, any text, or any one character. */
  datatype Part = Run(text: string) | AnyText | AnyOne

  predicate IsPart(x: Part) {
    x.Run? ==> x.text != "" && forall k :: 0 <= k < |x.text| ==> x.text[k] !in {'\\', '\"', '*', '?'}
  }

  /** Characters in a row are one part. */
  predicate AreParts(xs: seq<Part>) {
    && (forall k :: 0 <= k < |xs| ==> IsPart(xs[k]))
    && (forall k :: 0 < k < |xs| ==> !(xs[k - 1].Run? && xs[k].Run?))
  }

  /** The term in CQL. */
  function Source(xs: seq<Part>): string {
    if xs == [] then "" else PartSource(xs[0]) + Source(xs[1..])
  }

  function PartSource(x: Part): string {
    match x
    case Run(t) => t
    case AnyText => "*"
    case AnyOne => "?"
  }

  /** The parts of the same term in CCL. */
  function SegmentOf(x: Part): Segment {
    match x
    case Run(t) => InQuotes(t)
    case AnyText => Bare("?")
    case AnyOne => Bare("#")
  }

  function SegmentsOf(xs: seq<Part>): (ys: seq<Segment>)
    ensures |ys| == |xs| && forall k :: 0 <= k < |xs| ==> ys[k] == SegmentOf(xs[k])
  {
    if xs == [] then [] else [SegmentOf(xs[0])] + SegmentsOf(xs[1..])
  }

  lemma CharPrinted(s: string, i: nat, quoted: bool)
    requires i < |s| && s[i] !in {'\\', '\"', '*', '?'}
    ensures PrTermFrom(s, i, false, quoted).0 == Quote(!quoted) + ([s[i]] + PrTermFrom(s, i + 1, false, true).0)
  {
    hide PrTermFrom, Quote;
    assert PrStep(s, i, quoted) == Step(Quote(!quoted) + [s[i]], i + 1, true);
    PrTermFromStep(s, i, false, quoted);
    Regroup(Quote(!quoted), [s[i]], PrTermFrom(s, i + 1, false, true).0);
  }

  /** Characters in a row stay inside the same quotes. */
  lemma {:induction false} RunPrinted(s: string, i: nat, e: nat, quoted: bool)
    requires i < e <= |s| && forall k :: i <= k < e ==> s[k] !in {'\\', '\"', '*', '?'}
    ensures PrTermFrom(s, i, false, quoted).0 == Quote(!quoted) + (s[i..e] + PrTermFrom(s, e, false, true).0)
    decreases e - i
  {
    hide PrTermFrom;
    var rest := PrTermFrom(s, e, false, true).0;
    CharPrinted(s, i, quoted);
    FirstOff(s, i, e);
    if i + 1 < e {
      RunPrinted(s, i + 1, e, true);
      NoQuote(s[i + 1..e] + rest);
    } else {
      NoQuote(rest);
    }
    Regroup([s[i]], s[i + 1..e], rest);
  }

  lemma FirstOff(s: string, i: nat, e: nat)
    requires i < e <= |s|
    ensures s[i..e] == [s[i]] + s[i + 1..e] && (i + 1 == e ==> s[i + 1..e] == "")
  {
  }

  lemma NoQuote(t: string)
    ensures Quote(false) + t == t && "" + t == t
  {
  }

  lemma MaskPrinted(s: string, i: nat, quoted: bool)
    requires i < |s| && (s[i] == '*' || s[i] == '?')
    ensures PrTermFrom(s, i, false, quoted).0 ==
              Quote(quoted) + ((if s[i] == '*' then "?" else "#") + PrTermFrom(s, i + 1, false, false).0)
  {
    hide PrTermFrom, Quote;
    assert PrStep(s, i, quoted) == Step(Quote(quoted) + (if s[i] == '*' then "?" else "#"), i + 1, false);
    PrTermFromStep(s, i, false, quoted);
    Regroup(Quote(quoted), if s[i] == '*' then "?" else "#", PrTermFrom(s, i + 1, false, false).0);
  }

  lemma {:induction false} PartsPrinted(s: string, i: nat, xs: seq<Part>, quoted: bool)
    requires AreParts(xs) && i <= |s| && s[i..] == Source(xs) && (quoted && xs != [] ==> !xs[0].Run?)
    ensures PrTermFrom(s, i, false, quoted).0 == Quote(quoted) + NameOf(SegmentsOf(xs))
    decreases |xs|
  {
    hide PrTermFrom, AreParts, NameOf, IsPart;
    if xs == [] {
      NoName();
      assert |s[i..]| == 0;
      EndPrinted(s, i, quoted);
      assert Quote(quoted) + "" == Quote(quoted);
    } else {
      var x, rest := xs[0], xs[1..];
      var e := i + |PartSource(x)|;
      NameSplit(s, i, PartSource(x), Source(rest));
      RestIsParts(xs);
      NameStep(xs);
      PartsPrinted(s, e, rest, x.Run?);
      PartPrinted(s, i, e, x, quoted, NameOf(SegmentsOf(rest)));
    }
  }

  lemma NoName()
    ensures NameOf(SegmentsOf([])) == ""
  {
  }

  lemma NameStep(xs: seq<Part>)
    requires xs != []
    ensures NameOf(SegmentsOf(xs)) == SegmentText(SegmentOf(xs[0])) + NameOf(SegmentsOf(xs[1..]))
  {
    assert SegmentsOf(xs)[0] == SegmentOf(xs[0]) && SegmentsOf(xs)[1..] == SegmentsOf(xs[1..]);
  }

  lemma PartPrinted(s: string, i: nat, e: nat, x: Part, quoted: bool, more: string)
    requires IsPart(x) && i <= e <= |s| && s[i..e] == PartSource(x) && (quoted ==> !x.Run?)
    requires PrTermFrom(s, e, false, x.Run?).0 == Quote(x.Run?) + more
    ensures PrTermFrom(s, i, false, quoted).0 == Quote(quoted) + (SegmentText(SegmentOf(x)) + more)
  {
    hide PrTermFrom;
    if x.Run? {
      forall k | i <= k < e ensures s[k] !in {'\\', '\"', '*', '?'} { assert s[k] == s[i..e][k - i] == x.text[k - i]; }
      RunPrinted(s, i, e, quoted);
      InTheirQuotes(x.text, more);
    } else {
      assert s[i] == s[i..e][0];
      MaskPrinted(s, i, quoted);
      NoQuote(more);
    }
  }

  lemma InTheirQuotes(t: string, more: string)
    ensures Quote(true) + (t + (Quote(true) + more)) == Quote(false) + (("\"" + t + "\"") + more)
  {
  }

  lemma EndPrinted(s: string, i: nat, quoted: bool)
    requires i == |s|
    ensures PrTermFrom(s, i, false, quoted) == (Quote(quoted), i)
  {
  }

  lemma RestIsParts(xs: seq<Part>)
    requires AreParts(xs) && xs != []
    ensures IsPart(xs[0]) && AreParts(xs[1..]) && (|xs| > 1 && xs[0].Run? ==> !xs[1].Run?)
  {
    hide IsPart;
    var rest := xs[1..];
    forall k | 0 < k < |rest| ensures !(rest[k - 1].Run? && rest[k].Run?) { assert !(xs[k].Run? && xs[k + 1].Run?); }
  }

  /** Every term with wildcards is printed part by part. Without qualifiers the CCL parser takes it if and only
      if there is no wildcard in it, and then as the term itself. */
  lemma WildcardsPrinted(xs: seq<Part>)
    requires AreParts(xs) && xs != []
    ensures PrTerm(Source(xs), 0, false).0 == NameOf(SegmentsOf(xs))
    ensures Append(PrTerm(Source(xs), 0, false).0, 0, false).0 <==> forall k :: 0 <= k < |xs| ==> xs[k].Run?
    ensures (forall k :: 0 <= k < |xs| ==> xs[k].Run?) ==>
              Append(PrTerm(Source(xs), 0, false).0, 0, false) == (true, Source(xs))
  {
    hide PrTermFrom, Append, HasMask, NameOf, TextsOf, Source;
    var s, ys := Source(xs), SegmentsOf(xs);
    assert s[0..] == s;
    PartsPrinted(s, 0, xs, false);
    assert "" + NameOf(ys) == NameOf(ys);
    AllPrinted(s, 0, false);
    SourceNotEmpty(xs);
    SegmentsAre(xs);
    TermRead(ys);
    if forall k :: 0 <= k < |xs| ==> xs[k].Run? { TextsAre(xs); }
  }

  lemma SourceNotEmpty(xs: seq<Part>)
    requires AreParts(xs) && xs != []
    ensures Source(xs) != ""
  {
  }

  lemma {:induction false} AllPrinted(s: string, i: nat, quoted: bool)
    requires i <= |s|
    ensures PrTermFrom(s, i, false, quoted).1 == |s|
    decreases |s| - i
  {
    if i < |s| { AllPrinted(s, PrStep(s, i, quoted).next, PrStep(s, i, quoted).quoted); }
  }

  lemma SegmentsAre(xs: seq<Part>)
    requires AreParts(xs)
    ensures AreSegments(SegmentsOf(xs)) && (Unmasked(SegmentsOf(xs)) <==> forall k :: 0 <= k < |xs| ==> xs[k].Run?)
  {
    var ys := SegmentsOf(xs);
    forall k | 0 <= k < |xs|
      ensures IsSegment(ys[k]) && (ys[k].Bare? <==> !xs[k].Run?) && (ys[k].Bare? ==> HasMask(ys[k].text))
    {
      PartSegment(xs[k]);
    }
  }

  lemma PartSegment(x: Part)
    requires IsPart(x)
    ensures IsSegment(SegmentOf(x)) && (SegmentOf(x).Bare? <==> !x.Run?)
    ensures SegmentOf(x).Bare? ==> HasMask(SegmentOf(x).text)
  {
    if x.AnyText? { assert "?"[0] == '?'; }
    if x.AnyOne? { assert "#"[0] == '#'; }
  }

  lemma {:induction false} TextsAre(xs: seq<Part>)
    requires forall k :: 0 <= k < |xs| ==> xs[k].Run?
    ensures TextsOf(SegmentsOf(xs)) == Source(xs)
  {
    if xs != [] {
      TextsAre(xs[1..]);
      assert SegmentsOf(xs)[1..] == SegmentsOf(xs[1..]);
    }
  }
}
