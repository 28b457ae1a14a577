/** What the reader of ISO 2709 records, src/marc_read_iso2709.c:25-214, does with records that no writer of
    good leaders and plain fields would produce: it repairs the leader, tells fields with subfields from
    fields without, and comments on what it does not find. */
module MarcReader {
  import opened Bytes
  import opened Pieces
  import opened Atoin
  import opened Marc
  import opened MarcRoundTrip

  // ---- the leader

  /** Which octets of the leader are expected where, src/marcdisp.c:356-430. */
  predicate IsSound(k: nat, b: byte) {
    if k in {5, 6, 7, 8, 9, 17, 18, 19, 23} then 32 <= b <= 127
    else if k == 10 || k == 11 then 49 <= b <= 57
    else if k == 20 then 51 <= b <= 57
    else if k == 21 then 52 <= b <= 57
    else if k == 22 then 48 <= b <= 57
    else true
  }

  /** What takes the place of an unexpected one. */
  const ASSUMED: map<nat, byte> :=
    map[5 := 'a' as int, 6 := 'a' as int, 7 := 'a' as int, 8 := '#' as int, 9 := '#' as int, 10 := '2' as int,
        11 := '2' as int, 17 := '#' as int, 18 := '#' as int, 19 := '#' as int, 20 := '4' as int, 21 := '5' as int,
        22 := '0' as int, 23 := '0' as int]

  /** Unexpected octets among the first `n`. */
  function Unsound(leader: seq<byte>, n: nat): nat
    requires n <= |leader|
  {
    if n == 0 then 0 else Unsound(leader, n - 1) + (if IsSound(n - 1, leader[n - 1]) then 0 else 1)
  }

  predicate Repairs(leader: seq<byte>, s: seq<byte>) {
    && |leader| == 24 <= |s|
    && forall k :: 0 <= k < 24 ==>
         if IsSound(k, s[k]) then leader[k] == s[k] else k in ASSUMED && leader[k] == ASSUMED[k]
  }

  /** The draft with the first `n` positions repaired. */
  function Repaired(s: seq<byte>, n: nat): (d: Draft)
    requires n <= 24 <= |s|
    ensures |d.leader| == 24
    ensures forall k :: n <= k < 24 ==> d.leader[k] == s[k]
    ensures forall k :: 0 <= k < n ==> d.leader[k] == if IsSound(k, s[k]) || k !in ASSUMED then s[k] else ASSUMED[k]
    ensures d.comments == Unsound(s, n)
  {
    hide IsSound;
    if n == 0 then Draft(s[..24], 0)
    else
      var d := Repaired(s, n - 1);
      if IsSound(n - 1, s[n - 1]) then d
      else if n - 1 !in ASSUMED then d.(comments := d.comments + 1)
      else Draft(d.leader[n - 1 := ASSUMED[n - 1]], d.comments + 1)
  }

  lemma AlwaysSound(k: nat, b: byte)
    requires k !in ASSUMED
    ensures IsSound(k, b)
  {
  }

  lemma RepairStep(s: seq<byte>, n: nat)
    requires 0 < n <= 24 <= |s|
    ensures var d := Repaired(s, n - 1);
            Repaired(s, n) ==
              if IsSound(n - 1, s[n - 1]) then d else Draft(d.leader[n - 1 := ASSUMED[n - 1]], d.comments + 1)
  {
    hide IsSound;
    if n - 1 !in ASSUMED { AlwaysSound(n - 1, s[n - 1]); }
  }

  lemma Skip(s: seq<byte>, a: nat, b: nat)
    requires a <= b <= 24 <= |s| && forall k :: a <= k < b ==> k !in ASSUMED
    ensures Repaired(s, a) == Repaired(s, b)
    decreases b - a
  {
    hide Repaired, IsSound, ASSUMED;
    if a < b {
      RepairStep(s, a + 1);
      AlwaysSound(a, s[a]);
      Skip(s, a + 1, b);
    }
  }

  /** A draft with `x` more comments. */
  function More(d: Draft, x: nat): Draft { Draft(d.leader, d.comments + x) }

  lemma AsciiStep(s: seq<byte>, k: nat, default: byte, x: nat)
    requires k < 24 <= |s| && k in {5, 6, 7, 8, 9, 17, 18, 19, 23} && ASSUMED[k] == default
    ensures FixAscii(More(Repaired(s, k), x), k, default) == More(Repaired(s, k + 1), x)
  {
    hide Repaired, ASSUMED;
    assert IsSound(k, s[k]) <==> IsAsciiText(s[k]);
    RepairStep(s, k + 1);
  }

  lemma DigitStep(s: seq<byte>, k: nat, least: nat, default: byte, x: nat)
    requires k < 24 <= |s| && least <= 9 && k in ASSUMED && ASSUMED[k] == default && 48 + least <= default <= 57
    requires (k, least) in {(10, 1), (11, 1), (20, 3), (21, 4), (22, 0)}
    ensures FixDigit(More(Repaired(s, k), x), k, least, default) == More(Repaired(s, k + 1), x)
    ensures 48 + least <= Repaired(s, k + 1).leader[k] <= 57
  {
    hide Repaired, ASSUMED;
    assert IsSound(k, s[k]) <==> 48 + least <= s[k] <= 57;
    RepairStep(s, k + 1);
  }

  /** Every leader: what is expected is kept, everything else is replaced and commented on, and the layout is
      that of the repaired leader. */
  lemma LeaderRepaired(s: seq<byte>)
    requires |s| >= 24
    ensures var (draft, lay) := SetLeader(s);
            && Repairs(draft.leader, s) && GoodLeader(draft.leader)
            && draft.comments == Unsound(s, 24) + (if AllDigits(s, 12, 5) then 0 else 1)
            && lay == LayoutOf(draft.leader, AtoiN(s, 12, 5))
  {
    hide FixAscii, FixDigit, AllDigits, AtoiN, IsSound, Repaired;
    LeaderSteps(s);
    var (draft, lay) := SetLeader(s);
    RepairedWhole(s);
  }

  lemma RepairedWhole(s: seq<byte>)
    requires |s| >= 24
    ensures Repairs(Repaired(s, 24).leader, s) && GoodLeader(Repaired(s, 24).leader)
    ensures Repaired(s, 24).comments == Unsound(s, 24)
  {
    var l := Repaired(s, 24).leader;
    forall k | 0 <= k < 24 ensures if IsSound(k, s[k]) then l[k] == s[k] else k in ASSUMED && l[k] == ASSUMED[k] {
      if k !in ASSUMED { AlwaysSound(k, s[k]); }
    }
    forall k | 0 <= k < 24 ensures IsSound(k, l[k]) { AssumedSound(k); }
    SoundIsGood(l);
  }

  lemma AssumedSound(k: nat)
    ensures k in ASSUMED ==> IsSound(k, ASSUMED[k])
  {
  }

  lemma SoundIsGood(l: seq<byte>)
    requires |l| == 24 && forall k :: 0 <= k < 24 ==> IsSound(k, l[k])
    ensures GoodLeader(l)
  {
    assert IsSound(5, l[5]) && IsSound(6, l[6]) && IsSound(7, l[7]) && IsSound(8, l[8]) && IsSound(9, l[9]);
    assert IsSound(10, l[10]) && IsSound(11, l[11]) && IsSound(17, l[17]) && IsSound(18, l[18]) && IsSound(19, l[19]);
    assert IsSound(20, l[20]) && IsSound(21, l[21]) && IsSound(22, l[22]) && IsSound(23, l[23]);
  }

  lemma LeaderSteps(s: seq<byte>)
    requires |s| >= 24
    ensures var (draft, lay) := SetLeader(s);
            var d := Repaired(s, 24);
            && draft.leader == d.leader && draft.comments == d.comments + (if AllDigits(s, 12, 5) then 0 else 1)
            && |d.leader| == 24 && 49 <= d.leader[10] <= 57 && 51 <= d.leader[20] <= 57 && 52 <= d.leader[21] <= 57
            && lay == Layout(d.leader[10] - 48, AtoiN(s, 12, 5), d.leader[20] - 48, d.leader[21] - 48)
  {
    hide FixAscii, FixDigit, AllDigits, AtoiN, IsSound, Repaired, ASSUMED, SetLeader;
    var x := if AllDigits(s, 12, 5) then 0 else 1;
    FirstHalf(s);
    LeaderIs(s, x);
    SecondHalf(s, x);
    WidthsKept(s);
  }

  lemma WidthsKept(s: seq<byte>)
    requires |s| >= 24 && 49 <= Repaired(s, 11).leader[10] <= 57
    requires 51 <= Repaired(s, 21).leader[20] <= 57 && 52 <= Repaired(s, 22).leader[21] <= 57
    ensures var d := Repaired(s, 24).leader;
            var f := Repaired(s, 23).leader;
            && d[10] == f[10] && d[20] == f[20] && d[21] == f[21]
            && 49 <= d[10] <= 57 && 51 <= d[20] <= 57 && 52 <= d[21] <= 57
  {
    hide Repaired, IsSound, ASSUMED;
    Kept(s, 11, 24, 10);
    Kept(s, 21, 24, 20);
    Kept(s, 22, 24, 21);
    Kept(s, 11, 23, 10);
    Kept(s, 21, 23, 20);
    Kept(s, 22, 23, 21);
  }

  /** The steps of yaz_marc_set_leader, the first and the second half of them taken together. */
  lemma LeaderIs(s: seq<byte>, x: nat)
    requires |s| >= 24 && x == if AllDigits(s, 12, 5) then 0 else 1
    requires var d := More(Repaired(s, 0), 0);
             var e := FixAscii(FixAscii(FixAscii(d, 5, 97), 6, 97), 7, 97);
             FixDigit(FixDigit(FixAscii(FixAscii(e, 8, 35), 9, 35), 10, 1, 50), 11, 1, 50) == More(Repaired(s, 17), 0)
    ensures var d := More(Repaired(s, 17), x);
            var e := FixAscii(FixAscii(FixAscii(d, 17, 35), 18, 35), 19, 35);
            var f := FixDigit(FixDigit(FixDigit(e, 20, 3, 52), 21, 4, 53), 22, 0, 48);
            && |f.leader| == 24
            && SetLeader(s) == (FixAscii(f, 23, 48), Layout(DigitValue(f.leader[10]), AtoiN(s, 12, 5),
                                                            DigitValue(f.leader[20]), DigitValue(f.leader[21])))
  {
    hide FixAscii, FixDigit, AllDigits, AtoiN, IsSound, Repaired, ASSUMED, DigitValue;
    Nothing(s);
  }

  lemma Defaults()
    ensures forall k :: k in {5, 6, 7, 8, 9, 10, 11, 17, 18, 19, 20, 21, 22, 23} ==> k in ASSUMED
    ensures ASSUMED[5] == ASSUMED[6] == ASSUMED[7] == 97 && ASSUMED[8] == ASSUMED[9] == 35
    ensures ASSUMED[10] == ASSUMED[11] == 50 && ASSUMED[17] == ASSUMED[18] == ASSUMED[19] == 35
    ensures ASSUMED[20] == 52 && ASSUMED[21] == 53 && ASSUMED[22] == ASSUMED[23] == 48
  {
  }

  lemma Kept(s: seq<byte>, a: nat, b: nat, k: nat)
    requires k < a <= b <= 24 <= |s|
    ensures Repaired(s, a).leader[k] == Repaired(s, b).leader[k]
  {
    hide IsSound;
  }

  lemma FirstHalf(s: seq<byte>)
    requires |s| >= 24
    ensures var d := More(Repaired(s, 0), 0);
            var e := FixAscii(FixAscii(FixAscii(d, 5, 97), 6, 97), 7, 97);
            FixDigit(FixDigit(FixAscii(FixAscii(e, 8, 35), 9, 35), 10, 1, 50), 11, 1, 50) == More(Repaired(s, 17), 0)
    ensures 49 <= Repaired(s, 11).leader[10] <= 57
  {
    hide FixAscii, FixDigit, IsSound, Repaired, ASSUMED, More;
    Defaults();
    Gaps();
    Skip(s, 0, 5);
    AsciiStep(s, 5, 97, 0);
    AsciiStep(s, 6, 97, 0);
    AsciiStep(s, 7, 97, 0);
    AsciiStep(s, 8, 35, 0);
    AsciiStep(s, 9, 35, 0);
    DigitStep(s, 10, 1, 50, 0);
    DigitStep(s, 11, 1, 50, 0);
    Skip(s, 12, 17);
  }

  lemma Nothing(s: seq<byte>)
    requires |s| >= 24
    ensures Repaired(s, 0) == Draft(s[..24], 0)
  {
  }

  lemma Gaps()
    ensures forall k :: 0 <= k < 5 || 12 <= k < 17 ==> k !in ASSUMED
  {
  }

  lemma SecondHalf(s: seq<byte>, x: nat)
    requires |s| >= 24
    ensures var d := More(Repaired(s, 17), x);
            var e := FixAscii(FixAscii(FixAscii(d, 17, 35), 18, 35), 19, 35);
            var f := FixDigit(FixDigit(FixDigit(e, 20, 3, 52), 21, 4, 53), 22, 0, 48);
            f == More(Repaired(s, 23), x) && FixAscii(f, 23, 48) == More(Repaired(s, 24), x)
    ensures 51 <= Repaired(s, 21).leader[20] <= 57 && 52 <= Repaired(s, 22).leader[21] <= 57
  {
    hide FixAscii, FixDigit, IsSound, Repaired, ASSUMED, More;
    Defaults();
    AsciiStep(s, 17, 35, x);
    AsciiStep(s, 18, 35, x);
    AsciiStep(s, 19, 35, x);
    DigitStep(s, 20, 3, 52, x);
    DigitStep(s, 21, 4, 53, x);
    DigitStep(s, 22, 0, 48, x);
    AsciiStep(s, 23, 48, x);
  }

  /** The writer uses the last leader among the nodes. */
  lemma {:induction false} LastLeader(ns: seq<Node>, k: nat)
    requires k < |ns| && ns[k].Leader? && forall j :: k < j < |ns| ==> !ns[j].Leader?
    ensures FindLeader(ns) == Some(ns[k].text)
    decreases |ns|
  {
    if k < |ns| - 1 { LastLeader(ns[..|ns| - 1], k); }
  }

  lemma {:induction false} NoLeader(ns: seq<Node>)
    requires forall k :: 0 <= k < |ns| ==> !ns[k].Leader?
    ensures FindLeader(ns) == None && Write(ns) == None
    decreases |ns|
  {
    if ns != [] { NoLeader(ns[..|ns| - 1]); }
  }

  // ---- one field

  predicate IsControlTag(tag: seq<byte>) { |tag| == 3 && tag[0] == 48 && tag[1] == 48 }

  /** A data field under a control tag: subfields and a plain indicator of one to three octets. */
  predicate IsHidden(f: Node, indicator: nat) {
    && f.Data? && IsControlTag(f.tag) && 1 <= indicator <= 3 && |f.indicator| == indicator && Plain(f.indicator)
    && f.subfields != [] && forall k :: 0 <= k < |f.subfields| ==> GoodSubfield(f.subfields[k])
  }

  /** Even under a control tag, a field with a delimiter behind its indicator is read as a data field; in the
      Danish format one more octet comes first, which is dropped. */
  lemma HiddenData(s: seq<byte>, i: nat, skip: nat, f: Node, indicator: nat)
    requires IsHidden(f, indicator) && skip <= 1 && OccursAt(s, i + skip, FieldText(f))
    ensures var end := i + skip + |FieldText(f)| - 1;
            i <= end < |s| && ReadField(s, f.tag, indicator, i, end) == [f]
  {
    hide OccursAt, Subfields, SubfieldText, GoodSubfield, ReadField, IsSeparator;
    var j, end := i + skip + indicator, i + skip + |FieldText(f)| - 1;
    FieldParts(s, i + skip, f);
    SubfieldsExact(s, j, j + 1, end, f.subfields);
    assert [] + f.subfields == f.subfields;
    DelimiterAt(s, j, f.subfields);
    if skip == 1 { LastOf(s, i + 1, f.indicator); }
    HiddenFound(s, i, skip, f, indicator, end);
  }

  lemma FieldParts(s: seq<byte>, i: nat, f: Node)
    requires f.Data? && OccursAt(s, i, FieldText(f))
    ensures var j, end := i + |f.indicator|, i + |FieldText(f)| - 1;
            && j <= end < |s| && OccursAt(s, i, f.indicator) && s[i..j] == f.indicator
            && OccursAt(s, j, SubfieldText(f.subfields)) && end == j + |SubfieldText(f.subfields)| && s[end] == FS
  {
    hide OccursAt, SubfieldText;
    OccursSplit(s, i, f.indicator + SubfieldText(f.subfields), [FS]);
    OccursSplit(s, i, f.indicator, SubfieldText(f.subfields));
    OccursOne(s, i + |f.indicator| + |SubfieldText(f.subfields)|, FS);
  }

  lemma DelimiterAt(s: seq<byte>, j: nat, subs: seq<seq<byte>>)
    requires subs != [] && OccursAt(s, j, SubfieldText(subs))
    ensures j < |s| && s[j] == IDFS
  {
    assert s[j + 0] == SubfieldText(subs)[0];
  }

  lemma LastOf(s: seq<byte>, i: nat, t: seq<byte>)
    requires t != [] && Plain(t) && OccursAt(s, i, t)
    ensures i + |t| <= |s| && s[i + |t| - 1] != IDFS
  {
    assert s[i + (|t| - 1)] == t[|t| - 1];
    assert !IsSeparator(t[|t| - 1]);
  }

  lemma HiddenFound(s: seq<byte>, i: nat, skip: nat, f: Node, indicator: nat, end: nat)
    requires f.Data? && IsControlTag(f.tag) && 1 <= indicator <= 3 && skip <= 1
    requires var j := i + skip + indicator;
             && j < end < |s| && s[i + skip..j] == f.indicator && s[j] == IDFS && s[end] == FS
             && (skip == 1 ==> s[j - 1] != IDFS) && Subfields(s, j, j + 1, end) == (f.subfields, end)
    ensures ReadField(s, f.tag, indicator, i, end) == [f]
  {
    hide Subfields, IdentifierFlag, ReadField;
    FlagFound(s, f.tag, indicator, i, skip);
    Flagged(s, f.tag, indicator, i, i + skip, end, f.subfields);
  }

  lemma Flagged(s: seq<byte>, tag: seq<byte>, indicator: nat, i: nat, k: nat, end: nat, subs: seq<seq<byte>>)
    requires |tag| == 3 && i <= k && k + indicator < end < |s| && s[end] == FS
    requires IdentifierFlag(s, tag, indicator, i) == k - i + 1
    requires Subfields(s, k + indicator, k + indicator + 1, end) == (subs, end)
    ensures ReadField(s, tag, indicator, i, end) == [Data(tag, s[k..k + indicator], subs)]
  {
    hide Subfields, IdentifierFlag;
  }

  lemma FlagFound(s: seq<byte>, tag: seq<byte>, indicator: nat, i: nat, skip: nat)
    requires IsControlTag(tag) && 1 <= indicator <= 3 && skip <= 1
    requires var j := i + skip + indicator; j < |s| && s[j] == IDFS && (skip == 1 ==> s[j - 1] != IDFS)
    ensures IdentifierFlag(s, tag, indicator, i) == skip + 1
  {
  }

  /** A control field: what is in front of the first separator, with a comment if that comes too early, and one
      if there is none at the end. */
  lemma ControlRead(s: seq<byte>, i: nat, tag: seq<byte>, t: seq<byte>, indicator: nat, end: nat)
    requires IsControlTag(tag) && IdentifierFlag(s, tag, indicator, i) == 0
    requires OccursAt(s, i, t) && forall k :: 0 <= k < |t| ==> !EndsField(t[k])
    requires i + |t| <= end < |s| && (i + |t| < end ==> EndsField(s[i + |t|]))
    ensures ReadField(s, tag, indicator, i, end) ==
              [Control(tag, t)] + (if i + |t| < end || !EndsField(s[end]) then [Comment] else [])
  {
    hide IdentifierFlag, Find, OccursAt;
    OccursSlice(s, i, t);
    forall k | i <= k < i + |t| ensures !EndsField(s[k]) { assert s[k] == s[i..i + |t|][k - i]; }
    FindIs(s, i, end, EndsField, i + |t|);
  }

  // ---- the directory

  /** `n` entries of `l` octets from `p` on that are complete and have digits behind their tags. */
  predicate Entries(s: seq<byte>, rl: nat, p: nat, l: nat, n: nat)
    requires rl <= |s| && l >= 3
    decreases n
  {
    n == 0 || (p + l < rl && s[p] != FS && AllDigits(s, p + 3, l - 3) && Entries(s, rl, p + l, l, n - 1))
  }

  /** The first pass goes over complete entries, to the separator, to a bad entry, or to the end of the
      record. */
  lemma {:induction false} DirectoryScanned(s: seq<byte>, rl: nat, p: nat, l: nat, n: nat, q: nat)
    requires p < rl <= |s| && l >= 3 && Entries(s, rl, p, l, n) && q == p + n * l
    ensures q < rl
    ensures DirEnd(s, rl, p, l) ==
              if s[q] == FS then Some((q, false))
              else if q + l >= rl then None
              else if !AllDigits(s, q + 3, l - 3) then Some((q, true))
              else DirEnd(s, rl, q + l, l)
    decreases n
  {
    hide AllDigits;
    if n > 0 {
      assert n * l == l + (n - 1) * l;
      DirectoryScanned(s, rl, p + l, l, n - 1, q);
    }
  }

  /** The second pass stops at an empty entry, and with a comment at one that reaches behind the record. */
  lemma EntryRead(s: seq<byte>, rl: nat, lay: Layout, p: nat, dirEnd: nat)
    requires dirEnd <= rl <= |s| && p + 3 + lay.entry + lay.starting <= dirEnd
    ensures var len, start := AtoiN(s, p + 3, lay.entry), AtoiN(s, p + 3 + lay.entry, lay.starting) + lay.base;
            && (len == 0 ==> Fields(s, rl, lay, p, dirEnd) == [])
            && (len > 0 && start + len > rl ==> Fields(s, rl, lay, p, dirEnd) == [Comment])
            && (len > 0 && start + len <= rl ==>
                  Fields(s, rl, lay, p, dirEnd) ==
                    ReadField(s, s[p..p + 3], lay.indicator, start, start + len - 1) +
                    Fields(s, rl, lay, p + 3 + lay.entry + lay.starting, dirEnd))
  {
    hide AtoiN, ReadField;
  }

  // ---- the return code

  /** The record length: five digits in front that say at least 25 and not more than there is. */
  predicate HasLength(s: seq<byte>, rl: nat) {
    25 <= rl <= |s| && IsNumeral(10, s[..5]) && Numeral(10, s[..5]) == rl
  }

  lemma LengthIs(s: seq<byte>)
    requires |s| >= 5
    ensures AllDigits(s, 0, 5) <==> IsNumeral(10, s[..5])
    ensures IsNumeral(10, s[..5]) ==> AtoiN(s, 0, 5) == Numeral(10, s[..5])
  {
    var t := s[..5];
    if AllDigits(s, 0, 5) {
      forall k | 0 <= k < 5 ensures IsDigit(10, t[k]) { assert t[k] == s[k]; }
    }
    if IsNumeral(10, t) {
      forall k | 0 <= k < 5 ensures IsDigit(10, s[k]) { assert t[k] == s[k]; }
      NumValShift(10, s, 0, t, 5);
    }
  }

  /** Without a record length nothing is read. */
  lemma NothingRead(s: seq<byte>)
    requires forall rl: nat :: !HasLength(s, rl)
    ensures Read(s) == Outcome(-1, [Comment])
  {
    hide SetLeader, DirEnd, Fields, AtoiN, AllDigits;
    if |s| >= 5 {
      LengthIs(s);
      assert !HasLength(s, AtoiN(s, 0, 5));
    }
  }

  /** With one, the reader consumes it, unless complete entries go on to the end of the record without a
      separator. */
  lemma ReturnCode(s: seq<byte>, rl: nat, n: nat, q: nat)
    requires HasLength(s, rl)
    requires var lay := SetLeader(s).1;
             var l := 3 + lay.entry + lay.starting;
             && Entries(s, rl, 24, l, n) && q == 24 + n * l < |s|
             && (s[q] == FS || q + l >= rl || !AllDigits(s, q + 3, l - 3))
    ensures var lay := SetLeader(s).1;
            Read(s).rc == if s[q] == FS || q + 3 + lay.entry + lay.starting < rl then rl else -1
  {
    hide SetLeader, DirEnd, Fields, AtoiN, AllDigits, Entries;
    LengthIs(s);
    var lay := SetLeader(s).1;
    DirectoryScanned(s, rl, 24, 3 + lay.entry + lay.starting, n, q);
  }
}
