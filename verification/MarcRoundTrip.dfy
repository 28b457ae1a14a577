/** Reading what the ISO 2709 writer produced. */
module MarcRoundTrip {
  import opened Bytes
  import opened Pieces
  import opened Radix
  import opened Atoin
  import opened Marc

  // ---- writer: conservation and size

  /** The fields among the nodes. */
  ghost function FieldsOf(ns: seq<Node>): (fs: seq<Node>)
    ensures forall k :: 0 <= k < |fs| ==> IsField(fs[k])
  {
    if ns == [] then [] else (if IsField(ns[0]) then [ns[0]] else []) + FieldsOf(ns[1..])
  }

  /** The directory of a list of fields whose data starts at `offset`: every entry holds the length
      of its field, and offsets are running sums of lengths. */
  ghost function Directory(fs: seq<Node>, w1: nat, w2: nat, offset: nat): seq<byte>
    requires forall k :: 0 <= k < |fs| ==> IsField(fs[k])
  {
    if fs == [] then []
    else Entry(fs[0], w1, w2, offset) + Directory(fs[1..], w1, w2, offset + |FieldText(fs[0])|)
  }

  lemma {:induction false} FieldTextsOfFields(ns: seq<Node>)
    ensures FieldTexts(FieldsOf(ns)) == FieldTexts(ns)
  {
    if ns != [] {
      FieldTextsOfFields(ns[1..]);
      var rest := FieldsOf(ns[1..]);
      if IsField(ns[0]) {
        assert ([ns[0]] + rest)[1..] == rest;
      } else {
        assert [] + rest == rest;
        assert FieldTexts(ns) == FieldTexts(ns[1..]);
      }
    }
  }

  lemma PlanStep(ns: seq<Node>, w1: nat, w2: nat, dir: seq<byte>, offset: nat)
    ensures
      var plan := MakePlan(ns, w1, w2, dir, offset);
      if ns == [] || Capped(ns[0], dir, offset) then plan == Plan(dir, offset, 0)
      else
        && plan.kept > 0
        && plan.(kept := plan.kept - 1)
           == if IsField(ns[0])
              then MakePlan(ns[1..], w1, w2, dir + Entry(ns[0], w1, w2, offset), offset + |FieldText(ns[0])|)
              else MakePlan(ns[1..], w1, w2, dir, offset)
  {
    hide Entry, FieldText, Capped;
  }

  /** The two passes agree: the directory covers exactly the nodes before the cap, entry by entry, and
      its size is the number of octets that the second pass writes. */
  lemma {:induction false} PlanConserves(ns: seq<Node>, w1: nat, w2: nat, dir: seq<byte>, offset: nat)
    ensures
      var plan := MakePlan(ns, w1, w2, dir, offset);
      && plan.dir == dir + Directory(FieldsOf(ns[..plan.kept]), w1, w2, offset)
      && plan.size == offset + |FieldTexts(ns[..plan.kept])|
    decreases |ns|
  {
    hide Entry, FieldText, Capped, MakePlan, Directory, FieldsOf, FieldTexts;
    Nothing(w1, w2, offset);
    var plan := MakePlan(ns, w1, w2, dir, offset);
    PlanStep(ns, w1, w2, dir, offset);
    if ns == [] || Capped(ns[0], dir, offset) {
      assert ns[..0] == [] && dir + [] == dir;
    } else {
      var n, tail := ns[0], ns[1..];
      var kept := tail[..plan.kept - 1];
      assert ns[..plan.kept] == [n] + kept;
      OneMore(n, kept, w1, w2, dir, offset);
      if IsField(n) {
        PlanConserves(tail, w1, w2, dir + Entry(n, w1, w2, offset), offset + |FieldText(n)|);
      } else {
        PlanConserves(tail, w1, w2, dir, offset);
      }
    }
  }

  /** What the first pass counts up to and including node `k`: the directory entries before it, the data, and
      40 octets to spare. */
  ghost function Needed(ns: seq<Node>, k: nat, w1: nat, w2: nat, dir: seq<byte>, offset: nat): nat
    requires k < |ns|
  {
    |dir + Directory(FieldsOf(ns[..k]), w1, w2, offset)| + 40 + offset + |FieldTexts(ns[..k + 1])|
  }

  /** The cap is exact: every field before it leaves the record within 99999 octets, and the node that it falls
      on is a field that does not. */
  lemma {:induction false} PlanExactly(ns: seq<Node>, w1: nat, w2: nat, dir: seq<byte>, offset: nat)
    ensures
      var kept := MakePlan(ns, w1, w2, dir, offset).kept;
      && (forall k :: 0 <= k < kept && IsField(ns[k]) ==> Needed(ns, k, w1, w2, dir, offset) <= 99999)
      && (kept < |ns| ==> IsField(ns[kept]) && Needed(ns, kept, w1, w2, dir, offset) > 99999)
    decreases |ns|
  {
    hide Entry, FieldText, MakePlan, Directory, FieldsOf, FieldTexts, Needed;
    PlanStep(ns, w1, w2, dir, offset);
    if ns != [] {
      FirstNeeded(ns, w1, w2, dir, offset);
      if !Capped(ns[0], dir, offset) {
        var n, tail := ns[0], ns[1..];
        var kept := MakePlan(ns, w1, w2, dir, offset).kept;
        var d, o := if IsField(n) then dir + Entry(n, w1, w2, offset) else dir, offset + |FieldText(n)|;
        if !IsField(n) { NoText(n); }
        PlanExactly(tail, w1, w2, d, o);
        forall k | 0 < k < |ns| ensures Needed(ns, k, w1, w2, dir, offset) == Needed(tail, k - 1, w1, w2, d, o) {
          NextNeeded(ns, k, w1, w2, dir, offset, d, o);
        }
        assert kept < |ns| ==> ns[kept] == tail[kept - 1];
        assert forall k :: 0 < k < kept ==> ns[k] == tail[k - 1];
      }
    }
  }

  lemma FirstNeeded(ns: seq<Node>, w1: nat, w2: nat, dir: seq<byte>, offset: nat)
    requires ns != []
    ensures Needed(ns, 0, w1, w2, dir, offset) == |dir| + 40 + offset + |FieldText(ns[0])|
  {
    hide Entry, FieldText, Directory, FieldsOf, FieldTexts;
    Nothing(w1, w2, offset);
    assert ns[..0] == [] && dir + [] == dir && ns[..1] == [ns[0]] + [];
    OneMore(ns[0], [], w1, w2, dir, offset);
  }

  lemma NextNeeded(
    ns: seq<Node>, k: nat, w1: nat, w2: nat, dir: seq<byte>, offset: nat, d: seq<byte>, o: nat)
    requires 0 < k < |ns| && o == offset + |FieldText(ns[0])|
    requires d == if IsField(ns[0]) then dir + Entry(ns[0], w1, w2, offset) else dir
    ensures Needed(ns, k, w1, w2, dir, offset) == Needed(ns[1..], k - 1, w1, w2, d, o)
  {
    hide Entry, FieldText, Directory, FieldsOf, FieldTexts;
    var tail := ns[1..];
    assert ns[..k] == [ns[0]] + tail[..k - 1] && ns[..k + 1] == [ns[0]] + tail[..k];
    OneMore(ns[0], tail[..k - 1], w1, w2, dir, offset);
    OneMore(ns[0], tail[..k], w1, w2, dir, offset);
  }

  /** One node in front: its entry and its text come first. */
  lemma OneMore(n: Node, kept: seq<Node>, w1: nat, w2: nat, dir: seq<byte>, offset: nat)
    ensures |FieldTexts([n] + kept)| == |FieldText(n)| + |FieldTexts(kept)|
    ensures IsField(n) ==>
              dir + Directory(FieldsOf([n] + kept), w1, w2, offset)
              == dir + Entry(n, w1, w2, offset) + Directory(FieldsOf(kept), w1, w2, offset + |FieldText(n)|)
    ensures !IsField(n) ==> FieldsOf([n] + kept) == FieldsOf(kept) && FieldText(n) == []
  {
    hide Entry, FieldText;
    assert ([n] + kept)[1..] == kept;
    var fs := FieldsOf(kept);
    if IsField(n) {
      assert ([n] + fs)[1..] == fs;
      var e, d := Entry(n, w1, w2, offset), Directory(fs, w1, w2, offset + |FieldText(n)|);
      assert Directory([n] + fs, w1, w2, offset) == e + d;
      assert dir + (e + d) == dir + e + d;
    } else {
      NoText(n);
      assert [] + fs == fs;
    }
  }

  lemma Nothing(w1: nat, w2: nat, offset: nat)
    ensures FieldsOf([]) == [] && FieldTexts([]) == [] && Directory([], w1, w2, offset) == []
  {
  }

  lemma NoText(n: Node)
    requires !IsField(n)
    ensures FieldText(n) == []
  {
  }

  /** The cap keeps the record within five digits. */
  lemma {:induction false} PlanBound(ns: seq<Node>, dir: seq<byte>, offset: nat)
    requires forall k :: 0 <= k < |ns| ==> |FieldText(ns[k])| <= 9999
    requires |dir| + offset <= 99971
    ensures
      var plan := MakePlan(ns, 4, 5, dir, offset);
      |plan.dir| + plan.size <= 99971
    decreases |ns|
  {
    hide MakePlan, FieldText, Entry;
    PlanStep(ns, 4, 5, dir, offset);
    if ns != [] && !Capped(ns[0], dir, offset) {
      if IsField(ns[0]) {
        EntryLength(ns[0], offset);
        PlanBound(ns[1..], dir + Entry(ns[0], 4, 5, offset), offset + |FieldText(ns[0])|);
      } else {
        PlanBound(ns[1..], dir, offset);
      }
    }
  }

  lemma EntryLength(n: Node, offset: nat)
    requires IsField(n) && |FieldText(n)| <= 9999 && offset <= MAX_RECORD
    ensures |Entry(n, 4, 5, offset)| == 12
  {
    hide PadDecimal, FieldText;
    FiveDigits(offset);
    FourDigits(|FieldText(n)|);
  }

  lemma FourDigits(v: nat)
    requires v <= 9999
    ensures |PadDecimal(4, v)| == 4
  {
    assert Pow(10, 1) == 10 && Pow(10, 2) == 100 && Pow(10, 3) == 1000 && Pow(10, 4) == 10000;
    PadDecimalIs(4, v);
  }

  /** Size of a record with the usual widths: at most 99999 octets for any node list whose fields have
      at most 9999, and the length in its first five octets is its true length. */
  lemma RecordBound(ns: seq<Node>)
    requires forall k :: 0 <= k < |ns| ==> |FieldText(ns[k])| <= 9999
    requires Write(ns).Some? && |FindLeader(ns).value| == 24
    requires FindLeader(ns).value[20] == '4' as int && FindLeader(ns).value[21] == '5' as int
    ensures
      var record := Write(ns).value;
      |record| <= MAX_RECORD && AllDigits(record, 0, 5) && AtoiN(record, 0, 5) == |record|
  {
    hide FieldText, MakePlan, FieldTexts, AtoiN, AllDigits, Head, FindLeader, Directory, FieldsOf;
    var leader := FindLeader(ns).value;
    var plan := MakePlan(ns, 4, 5, [], 0);
    PlanBound(ns, [], 0);
    PlanConserves(ns, 4, 5, [], 0);
    var length, base := 26 + |plan.dir| + plan.size, 25 + |plan.dir|;
    HeadLength(leader, length, base);
    var texts := FieldTexts(ns[..plan.kept]);
    assert Write(ns).value == Head(leader, length, base) + plan.dir + [FS] + texts + [RS];
    LengthInFront(leader, length, base, plan.dir, texts);
  }

  lemma LengthInFront(leader: seq<byte>, length: nat, base: nat, dir: seq<byte>, texts: seq<byte>)
    requires |leader| == 24 && length == 26 + |dir| + |texts| && base == 25 + |dir| && length <= MAX_RECORD
    ensures var record := Head(leader, length, base) + dir + [FS] + texts + [RS];
            |record| == length && AllDigits(record, 0, 5) && AtoiN(record, 0, 5) == length
  {
    hide Head, AtoiN, AllDigits, PadDecimal, OccursAt;
    HeadLength(leader, length, base);
    HeadFilledIn(leader, length, base);
    FiveDigits(length);
    var head := Head(leader, length, base);
    var record := head + dir + [FS] + texts + [RS];
    Longer(head, dir + [FS] + texts + [RS], PadDecimal(5, length));
    assert record == head + (dir + [FS] + texts + [RS]);
    NumberAt(record, 0, 5, length);
  }

  lemma Longer(a: seq<byte>, b: seq<byte>, t: seq<byte>)
    requires OccursAt(a, 0, t)
    ensures OccursAt(a + b, 0, t)
  {
    forall k | 0 <= k < |t| ensures (a + b)[0 + k] == t[k] { assert a[0 + k] == t[k]; }
  }

  // ---- padded numbers

  lemma PadDecimalIs(w: nat, v: nat)
    requires 1 <= w && v < Pow(10, w)
    ensures |PadDecimal(w, v)| == w && IsNumeral(10, PadDecimal(w, v)) && Numeral(10, PadDecimal(w, v)) == v
  {
    hide Digits, Value, Pow;
    var d := Pad(Digits(10, v), w);
    LengthBound(10, v, w);
    ValuePad(10, Digits(10, v), w);
    ValueDigits(10, v);
    DigitTextIs(d);
  }

  lemma DigitTextIs(d: seq<nat>)
    requires d != [] && forall k :: 0 <= k < |d| ==> d[k] < 10
    ensures IsNumeral(10, DigitText(d)) && Numeral(10, DigitText(d)) == Value(10, d)
  {
    hide Value, NumVal;
    DigitTextValue(d, |d|);
    assert d[..|d|] == d;
  }

  lemma NumberAt(s: seq<byte>, i: nat, w: nat, v: nat)
    requires 1 <= w && v < Pow(10, w) && v <= INT_MAX && OccursAt(s, i, PadDecimal(w, v))
    ensures i + w <= |s| && AllDigits(s, i, w) && AtoiN(s, i, w) == v
  {
    PadDecimalIs(w, v);
    var text := PadDecimal(w, v);
    forall k | i <= k < i + w ensures IsDigit(10, s[k]) { assert s[i + (k - i)] == text[k - i]; }
    NumValShift(10, s, i, text, w);
  }

  // ---- fields that survive

  predicate Plain(t: seq<byte>) {
    forall k :: 0 <= k < |t| ==> !IsSeparator(t[k])
  }

  /** It does not end a field, and does not begin a subfield in front of `next`. */
  predicate Harmless(b: byte, next: byte) { !EndsField(b) && (b == IDFS ==> next <= 32) }

  /** The octet behind `k`; behind the last one there is a delimiter or nothing. */
  function Behind(s: seq<byte>, k: nat, end: nat): byte
    requires end <= |s|
  {
    if k + 1 < end then s[k + 1] else IDFS
  }

  /** A delimiter inside a subfield is kept if a blank or a control character follows it. */
  predicate GoodSubfield(t: seq<byte>) {
    t != [] && t[0] > 32 && forall k :: 0 <= k < |t| ==> Harmless(t[k], Behind(t, k, |t|))
  }

  /** Three octet tags, "00x" exactly for control fields; non-empty control data; full-length
      indicators; non-empty subfields that start above blank; no separators inside, except for delimiters that
      begin no subfield. */
  predicate GoodField(f: Node, indicator: nat) {
    match f
    case Control(tag, data) => |tag| == 3 && tag[0] == 48 && tag[1] == 48 && data != [] && Plain(data)
    case Data(tag, ind, subfields) =>
      && |tag| == 3 && !(tag[0] == 48 && tag[1] == 48) && tag[0] != FS
      && |ind| == indicator && Plain(ind)
      && forall k :: 0 <= k < |subfields| ==> GoodSubfield(subfields[k])
    case _ => false
  }

  predicate GoodFields(fs: seq<Node>, indicator: nat) {
    forall k :: 0 <= k < |fs| ==> GoodField(fs[k], indicator)
  }

  /** Lengths and offsets fit the widths of the directory. */
  predicate Fits(fs: seq<Node>, w1: nat, w2: nat, offset: nat) {
    fs == [] || (|FieldText(fs[0])| < Pow(10, w1) && offset < Pow(10, w2)
                 && Fits(fs[1..], w1, w2, offset + |FieldText(fs[0])|))
  }

  // ---- reading one field

  lemma {:induction false} SkipHarmless(s: seq<byte>, a: nat, b: nat, code: nat, end: nat)
    requires code <= a <= b <= end < |s|
    requires forall k :: a <= k < b ==> Harmless(s[k], Behind(s, k, end))
    ensures Subfields(s, a, code, end) == Subfields(s, b, code, end)
    decreases b - a
  {
    if a < b { SkipHarmless(s, a + 1, b, code, end); }
  }

  /** At the start of a subfield, or at the end of all: what is pending plus the subfields to come. */
  lemma {:induction false} SubfieldsExact(s: seq<byte>, i: nat, code: nat, end: nat, subs: seq<seq<byte>>)
    requires code <= i + 1 && end < |s| && end == i + |SubfieldText(subs)|
    requires forall k :: 0 <= k < |subs| ==> GoodSubfield(subs[k])
    requires OccursAt(s, i, SubfieldText(subs))
    ensures Subfields(s, i, code, end) == ((if code < i then [s[code..i]] else []) + subs, end)
    decreases |subs|
  {
    hide OccursAt, Behind, Harmless, GoodSubfield, Subfields;
    if subs == [] {
      SubfieldsEnd(s, i, code);
    } else {
      var sub, rest := subs[0], subs[1..];
      var j := i + 1 + |sub|;
      SubfieldAt(s, i, subs);
      NextIsDelimiter(s, j, end, rest);
      SkipHarmless(s, i + 1, j, i + 1, end);
      SubfieldsExact(s, j, i + 1, end, rest);
      assert [sub] + rest == subs;
      SubfieldTurn(s, i, code, end, subs);
    }
  }

  lemma SubfieldsEnd(s: seq<byte>, i: nat, code: nat)
    requires code <= i + 1 && i < |s|
    ensures Subfields(s, i, code, i) == ((if code < i then [s[code..i]] else []) + [], i)
  {
    assert (if code < i then [s[code..i]] else []) + [] == if code < i then [s[code..i]] else [];
  }

  /** Behind a subfield there is the delimiter of the next, or the end. */
  lemma NextIsDelimiter(s: seq<byte>, j: nat, end: nat, rest: seq<seq<byte>>)
    requires OccursAt(s, j, SubfieldText(rest)) && end == j + |SubfieldText(rest)| < |s|
    ensures j < end ==> s[j] == IDFS
    ensures forall k :: 0 <= k < j ==> Behind(s, k, end) == Behind(s, k, j)
  {
    if rest != [] { assert s[j + 0] == SubfieldText(rest)[0]; }
  }

  lemma SubfieldTurn(s: seq<byte>, i: nat, code: nat, end: nat, subs: seq<seq<byte>>)
    requires code <= i + 1 && i + 1 < end < |s| && s[i] == IDFS && s[i + 1] > 32
    requires Subfields(s, i + 1, i + 1, end) == (subs, end)
    ensures Subfields(s, i, code, end) == ((if code < i then [s[code..i]] else []) + subs, end)
  {
  }

  lemma SubfieldAt(s: seq<byte>, i: nat, subs: seq<seq<byte>>)
    requires subs != [] && GoodSubfield(subs[0]) && OccursAt(s, i, SubfieldText(subs))
    ensures
      var j := i + 1 + |subs[0]|;
      && i + 1 < j <= |s| && j + |SubfieldText(subs[1..])| == i + |SubfieldText(subs)|
      && s[i] == IDFS && s[i + 1..j] == subs[0] && s[i + 1] > 32
      && (forall k :: i + 1 <= k < j ==> Harmless(s[k], Behind(s, k, j)))
      && OccursAt(s, j, SubfieldText(subs[1..]))
  {
    hide OccursAt, GoodSubfield, Harmless;
    var sub := subs[0];
    OccursSplit(s, i, [IDFS] + sub, SubfieldText(subs[1..]));
    OccursSplit(s, i, [IDFS], sub);
    OccursOne(s, i, IDFS);
    OccursSlice(s, i + 1, sub);
    GoodContents(s, i + 1, sub);
  }

  lemma GoodContents(s: seq<byte>, i: nat, sub: seq<byte>)
    requires GoodSubfield(sub) && OccursAt(s, i, sub)
    ensures |sub| > 0 && i < |s| && s[i] > 32
    ensures i + |sub| <= |s|
    ensures forall k :: i <= k < i + |sub| ==> Harmless(s[k], Behind(s, k, i + |sub|))
  {
    hide Harmless;
    assert s[i + 0] == sub[0];
    forall k | i <= k < i + |sub| ensures Harmless(s[k], Behind(s, k, i + |sub|)) {
      assert s[i + (k - i)] == sub[k - i];
      if k + 1 < i + |sub| { assert s[i + (k + 1 - i)] == sub[k + 1 - i]; }
      assert Behind(s, k, i + |sub|) == Behind(sub, k - i, |sub|);
    }
  }

  lemma ReadData(s: seq<byte>, i: nat, f: Node, indicator: nat)
    requires f.Data? && GoodField(f, indicator) && OccursAt(s, i, FieldText(f))
    ensures i + |FieldText(f)| <= |s|
    ensures ReadField(s, f.tag, indicator, i, i + |FieldText(f)| - 1) == [f]
  {
    hide OccursAt, Subfields, SubfieldText, GoodSubfield, ReadField;
    var j, end := i + indicator, i + |FieldText(f)| - 1;
    OccursSplit(s, i, f.indicator + SubfieldText(f.subfields), [FS]);
    OccursSplit(s, i, f.indicator, SubfieldText(f.subfields));
    OccursOne(s, end, FS);
    SubfieldsExact(s, j, j + 1, end, f.subfields);
    assert [] + f.subfields == f.subfields;
    DataFound(s, f, i, j, end);
  }

  /** The reader of one entry, given where its scan stops. */
  lemma DataFound(s: seq<byte>, f: Node, i: nat, j: nat, end: nat)
    requires f.Data? && |f.tag| == 3 && !(f.tag[0] == 48 && f.tag[1] == 48)
    requires i <= j <= end < |s| && s[i..j] == f.indicator && s[end] == FS
    requires Subfields(s, j, j + 1, end) == (f.subfields, end)
    ensures ReadField(s, f.tag, j - i, i, end) == [f]
  {
    hide Subfields;
  }

  lemma ReadControl(s: seq<byte>, i: nat, f: Node, indicator: nat)
    requires f.Control? && GoodField(f, indicator) && OccursAt(s, i, FieldText(f))
    requires IdentifierFlag(s, f.tag, indicator, i) == 0
    ensures i + |FieldText(f)| <= |s|
    ensures ReadField(s, f.tag, indicator, i, i + |FieldText(f)| - 1) == [f]
  {
    hide OccursAt, IdentifierFlag, Find, ReadField;
    var end := i + |f.data|;
    OccursSplit(s, i, f.data, [FS]);
    OccursOne(s, end, FS);
    forall k | i <= k < end ensures !EndsField(s[k]) { assert s[k] == s[i..end][k - i]; }
    FindIs(s, i, end, EndsField, end);
    ControlFound(s, f, indicator, i, end);
  }

  lemma ControlFound(s: seq<byte>, f: Node, indicator: nat, i: nat, end: nat)
    requires f.Control? && |f.tag| == 3 && IdentifierFlag(s, f.tag, indicator, i) == 0
    requires i <= end < |s| && s[i..end] == f.data && s[end] == FS && Find(s, i, end, EndsField) == end
    ensures ReadField(s, f.tag, indicator, i, end) == [f]
  {
    hide IdentifierFlag, Find;
  }

  /** Subfield delimiters keep their distance from the start of good fields. */
  lemma {:induction false} NoEarlyDelimiter(fs: seq<Node>, indicator: nat, k: nat)
    requires GoodFields(fs, indicator) && k < indicator && k < |FieldTexts(fs) + [RS]|
    ensures (FieldTexts(fs) + [RS])[k] != IDFS
    decreases |fs|
  {
    if fs != [] {
      var text, rest := FieldText(fs[0]), FieldTexts(fs[1..]);
      assert FieldTexts(fs) + [RS] == text + (rest + [RS]);
      if fs[0].Control? && k >= |text| {
        NoEarlyDelimiter(fs[1..], indicator, k - |text|);
      }
    }
  }

  /** A control field is not mistaken for one with subfields, although the reader looks at octets that
      may belong to the fields behind it. */
  lemma ControlFlag(s: seq<byte>, i: nat, fs: seq<Node>, indicator: nat)
    requires fs != [] && fs[0].Control? && GoodFields(fs, indicator)
    requires i + |FieldTexts(fs)| + 1 == |s| && OccursAt(s, i, FieldTexts(fs) + [RS])
    ensures IdentifierFlag(s, fs[0].tag, indicator, i) == 0
  {
    NoDelimiterAt(s, i, fs, indicator, indicator);
    NoDelimiterAt(s, i, fs, indicator, indicator + 1);
  }

  lemma NoDelimiterAt(s: seq<byte>, i: nat, fs: seq<Node>, indicator: nat, k: nat)
    requires fs != [] && fs[0].Control? && GoodFields(fs, indicator) && k <= indicator + 1
    requires i + |FieldTexts(fs)| + 1 == |s| && OccursAt(s, i, FieldTexts(fs) + [RS])
    ensures Peek(s, i + k) != IDFS
  {
    var text, rest := FieldText(fs[0]), FieldTexts(fs[1..]) + [RS];
    var all := FieldTexts(fs) + [RS];
    assert all == text + rest;
    if k < |all| {
      assert s[i + k] == all[k];
      if k >= |text| { NoEarlyDelimiter(fs[1..], indicator, k - |text|); }
    }
  }

  lemma GoodAreFields(fs: seq<Node>, indicator: nat)
    requires GoodFields(fs, indicator)
    ensures forall k :: 0 <= k < |fs| ==> IsField(fs[k])
  {
  }

  lemma FieldShape(f: Node, indicator: nat)
    requires GoodField(f, indicator)
    ensures IsField(f) && |f.tag| == 3 && f.tag[0] != FS && Tag3(f.tag) == f.tag && |FieldText(f)| >= 1
  {
  }

  lemma ReadOne(s: seq<byte>, i: nat, fs: seq<Node>, indicator: nat)
    requires fs != [] && GoodFields(fs, indicator)
    requires i + |FieldTexts(fs)| + 1 == |s| && OccursAt(s, i, FieldTexts(fs) + [RS])
    ensures |FieldText(fs[0])| >= 1 && |fs[0].tag| == 3 && i + |FieldText(fs[0])| < |s|
    ensures ReadField(s, fs[0].tag, indicator, i, i + |FieldText(fs[0])| - 1) == [fs[0]]
    ensures OccursAt(s, i + |FieldText(fs[0])|, FieldTexts(fs[1..]) + [RS])
  {
    hide OccursAt, ReadField, IdentifierFlag, FieldText, GoodField;
    FieldShape(fs[0], indicator);
    var f, rest := fs[0], FieldTexts(fs[1..]) + [RS];
    assert FieldTexts(fs) + [RS] == FieldText(f) + rest;
    OccursSplit(s, i, FieldText(f), rest);
    if f.Control? {
      ControlFlag(s, i, fs, indicator);
      ReadControl(s, i, f, indicator);
    } else {
      ReadData(s, i, f, indicator);
    }
  }

  // ---- reading the whole record

  lemma EntryAt(s: seq<byte>, p: nat, fs: seq<Node>, w1: nat, w2: nat, offset: nat, indicator: nat, tail: seq<byte>)
    requires fs != [] && GoodFields(fs, indicator) && Fits(fs, w1, w2, offset) && 1 <= w1 && 1 <= w2
    requires |FieldText(fs[0])| <= INT_MAX && offset <= INT_MAX
    requires OccursAt(s, p, Directory(fs, w1, w2, offset) + tail)
    ensures |Entry(fs[0], w1, w2, offset)| == 3 + w1 + w2
    ensures
      var l := 3 + w1 + w2;
      && p + l <= |s| && s[p..p + 3] == fs[0].tag && s[p] != FS && AllDigits(s, p + 3, l - 3)
      && AtoiN(s, p + 3, w1) == |FieldText(fs[0])| && AtoiN(s, p + 3 + w1, w2) == offset
      && OccursAt(s, p + l, Directory(fs[1..], w1, w2, offset + |FieldText(fs[0])|) + tail)
  {
    hide OccursAt, PadDecimal, AtoiN, FieldText, Pow, GoodField, Tag3;
    FieldShape(fs[0], indicator);
    GoodAreFields(fs, indicator);
    var f, len := fs[0], |FieldText(fs[0])|;
    var e, rest := Entry(f, w1, w2, offset), Directory(fs[1..], w1, w2, offset + len) + tail;
    assert Directory(fs, w1, w2, offset) + tail == e + rest;
    OccursSplit(s, p, e, rest);
    OccursSplit(s, p, Tag3(f.tag) + PadDecimal(w1, len), PadDecimal(w2, offset));
    OccursSplit(s, p, Tag3(f.tag), PadDecimal(w1, len));
    OccursSlice(s, p, f.tag);
    assert s[p] == s[p..p + 3][0];
    PadDecimalIs(w1, len);
    PadDecimalIs(w2, offset);
    NumberAt(s, p + 3, w1, len);
    NumberAt(s, p + 3 + w1, w2, offset);
  }

  /** The first pass of the reader finds the end of the directory. */
  lemma {:induction false} DirectoryRead(s: seq<byte>, p: nat, fs: seq<Node>, lay: Layout, offset: nat)
    requires GoodFields(fs, lay.indicator) && Fits(fs, lay.entry, lay.starting, offset)
    requires 1 <= lay.entry && 1 <= lay.starting && |s| <= INT_MAX && offset + |FieldTexts(fs)| <= |s|
    requires OccursAt(s, p, Directory(fs, lay.entry, lay.starting, offset) + [FS])
    requires p + |Directory(fs, lay.entry, lay.starting, offset)| + 1 < |s|
    ensures DirEnd(s, |s|, p, 3 + lay.entry + lay.starting)
         == Some((p + |Directory(fs, lay.entry, lay.starting, offset)|, false))
    decreases |fs|
  {
    hide OccursAt, Entry, FieldText, GoodField, AllDigits, AtoiN;
    var w1, w2 := lay.entry, lay.starting;
    if fs == [] {
      assert Directory(fs, w1, w2, offset) + [FS] == [FS];
      OccursSlice(s, p, [FS]);
      assert s[p] == s[p..p + 1][0];
    } else {
      EntryAt(s, p, fs, w1, w2, offset, lay.indicator, [FS]);
      DirectoryRead(s, p + 3 + w1 + w2, fs[1..], lay, offset + |FieldText(fs[0])|);
    }
  }

  /** The second pass of the reader restores the fields. */
  lemma {:induction false} FieldsRead(s: seq<byte>, p: nat, fs: seq<Node>, lay: Layout, offset: nat)
    requires GoodFields(fs, lay.indicator) && Fits(fs, lay.entry, lay.starting, offset)
    requires 1 <= lay.entry && 1 <= lay.starting && |s| <= INT_MAX
    requires lay.base + offset + |FieldTexts(fs)| + 1 == |s|
    requires OccursAt(s, p, Directory(fs, lay.entry, lay.starting, offset) + [FS])
    requires OccursAt(s, lay.base + offset, FieldTexts(fs) + [RS])
    requires p + |Directory(fs, lay.entry, lay.starting, offset)| <= |s|
    ensures Fields(s, |s|, lay, p, p + |Directory(fs, lay.entry, lay.starting, offset)|) == fs
    decreases |fs|
  {
    hide OccursAt, Entry, FieldText, GoodField, AllDigits, AtoiN, ReadField;
    var w1, w2 := lay.entry, lay.starting;
    if fs != [] {
      var len := |FieldText(fs[0])|;
      EntryAt(s, p, fs, w1, w2, offset, lay.indicator, [FS]);
      ReadOne(s, lay.base + offset, fs, lay.indicator);
      FieldsRead(s, p + 3 + w1 + w2, fs[1..], lay, offset + len);
      assert [fs[0]] + fs[1..] == fs;
    }
  }

  // ---- the record as a whole

  /** A leader that the reader takes as it is, apart from the two computed numbers. */
  predicate GoodLeader(leader: seq<byte>) {
    && |leader| == 24
    && (forall k :: 5 <= k <= 9 ==> IsAsciiText(leader[k]))
    && (forall k :: 17 <= k <= 19 ==> IsAsciiText(leader[k])) && IsAsciiText(leader[23])
    && 49 <= leader[10] <= 57 && 49 <= leader[11] <= 57
    && 51 <= leader[20] <= 57 && 52 <= leader[21] <= 57 && 48 <= leader[22] <= 57
  }

  /** The layout that a good leader declares. */
  function LayoutOf(leader: seq<byte>, base: nat): Layout
    requires |leader| == 24 && leader[10] >= 48 && leader[20] >= 48 && leader[21] >= 48
  {
    Layout(leader[10] - 48, base, leader[20] - 48, leader[21] - 48)
  }

  lemma SetGoodLeader(s: seq<byte>, base: nat)
    requires |s| >= 24 && GoodLeader(s[..24]) && AllDigits(s, 12, 5) && AtoiN(s, 12, 5) == base
    ensures SetLeader(s) == (Draft(s[..24], 0), LayoutOf(s[..24], base))
  {
    hide AtoiN, AllDigits;
  }

  /** A leader with its two numbers filled in. */
  ghost predicate FilledIn(head: seq<byte>, leader: seq<byte>, length: nat, base: nat) {
    && |head| == 24 == |leader|
    && OccursAt(head, 0, PadDecimal(5, length)) && OccursAt(head, 12, PadDecimal(5, base))
    && (forall k :: 5 <= k < 12 || 17 <= k < 24 ==> head[k] == leader[k])
  }

  lemma HeadFilledIn(leader: seq<byte>, length: nat, base: nat)
    requires |leader| == 24 && length <= MAX_RECORD && base <= MAX_RECORD
    ensures FilledIn(Head(leader, length, base), leader, length, base)
  {
    hide PadDecimal;
    FiveDigits(length);
    FiveDigits(base);
    var head := Head(leader, length, base);
    assert head[0..5] == PadDecimal(5, length) && head[12..17] == PadDecimal(5, base);
    assert forall k :: 0 <= k < 5 ==> head[0 + k] == head[0..5][k] && head[12 + k] == head[12..17][k];
  }

  lemma HeadLength(leader: seq<byte>, length: nat, base: nat)
    requires |leader| == 24 && length <= MAX_RECORD && base <= MAX_RECORD
    ensures |Head(leader, length, base)| == 24
  {
    hide PadDecimal;
    FiveDigits(length);
    FiveDigits(base);
  }

  lemma FiveDigits(v: nat)
    requires v <= MAX_RECORD
    ensures v < Pow(10, 5) && |PadDecimal(5, v)| == 5
  {
    assert Pow(10, 1) == 10 && Pow(10, 2) == 100 && Pow(10, 3) == 1000 && Pow(10, 4) == 10000;
    PadDecimalIs(5, v);
  }

  /** What the writer puts into the record, with the widths of its leader. */
  ghost predicate Writable(ns: seq<Node>, leader: seq<byte>, fs: seq<Node>) {
    && FindLeader(ns) == Some(leader) && GoodLeader(leader)
    && (var w1, w2 := leader[20] - 48, leader[21] - 48;
        && fs == FieldsOf(ns[..MakePlan(ns, w1, w2, [], 0).kept])
        && GoodFields(fs, leader[10] - 48) && Fits(fs, w1, w2, 0)
        && 26 + |Directory(fs, w1, w2, 0)| + |FieldTexts(fs)| <= MAX_RECORD)
  }

  /** The record is leader, directory and data, and its numbers are true. */
  lemma RecordParts(ns: seq<Node>, leader: seq<byte>, fs: seq<Node>)
    requires Writable(ns, leader, fs)
    ensures
      var dir := Directory(fs, leader[20] - 48, leader[21] - 48, 0);
      var base := 25 + |dir|;
      var length := base + |FieldTexts(fs)| + 1;
      && Write(ns) == Some(Head(leader, length, base) + dir + [FS] + FieldTexts(fs) + [RS])
      && |Head(leader, length, base)| == 24
  {
    hide Head, MakePlan, Directory, FieldsOf, GoodFields, Fits, FieldTexts, FindLeader, FilledIn;
    HeadLength(leader, 26 + |Directory(fs, leader[20] - 48, leader[21] - 48, 0)| + |FieldTexts(fs)|,
               25 + |Directory(fs, leader[20] - 48, leader[21] - 48, 0)|);
    var w1, w2 := leader[20] - 48, leader[21] - 48;
    var plan := MakePlan(ns, w1, w2, [], 0);
    PlanConserves(ns, w1, w2, [], 0);
    FieldTextsOfFields(ns[..plan.kept]);
    assert [] + Directory(fs, w1, w2, 0) == Directory(fs, w1, w2, 0);
  }

  /** ISO 2709 round trip: the reader accepts the whole record, restores every written field with its
      subfields, adds no comment, and keeps the leader except for the two computed numbers. */
  lemma RoundTrip(ns: seq<Node>, leader: seq<byte>, fs: seq<Node>) returns (record: seq<byte>, head: seq<byte>)
    requires Writable(ns, leader, fs)
    ensures Write(ns) == Some(record)
    ensures Read(record) == Outcome(|record|, [Leader(head)] + fs)
    ensures FilledIn(head, leader, |record|, 25 + |Directory(fs, leader[20] - 48, leader[21] - 48, 0)|)
  {
    hide Directory, FieldTexts, FieldsOf, MakePlan, Fits, GoodField, Write, Read, Head, FindLeader, FilledIn,
        IsAsciiText;
    var dir := Directory(fs, leader[20] - 48, leader[21] - 48, 0);
    var base, length := 25 + |dir|, 26 + |dir| + |FieldTexts(fs)|;
    RecordParts(ns, leader, fs);
    head := Head(leader, length, base);
    record := head + dir + [FS] + FieldTexts(fs) + [RS];
    assert |record| == length;
    HeadFilledIn(leader, length, base);
    ReadRecord(record, head, leader, fs);
  }

  lemma ReadRecord(s: seq<byte>, head: seq<byte>, leader: seq<byte>, fs: seq<Node>)
    requires GoodLeader(leader) && GoodFields(fs, leader[10] - 48) && Fits(fs, leader[20] - 48, leader[21] - 48, 0)
    requires
      var dir := Directory(fs, leader[20] - 48, leader[21] - 48, 0);
      && FilledIn(head, leader, |s|, 25 + |dir|) && |s| <= MAX_RECORD
      && s == head + dir + [FS] + FieldTexts(fs) + [RS]
    ensures Read(s) == Outcome(|s|, [Leader(head)] + fs)
  {
    hide DirEnd, Fields, SetLeader, Directory, FieldTexts, GoodFields, Fits, AtoiN, AllDigits, FilledIn, OccursAt, Read,
        IsAsciiText;
    GoodAreFields(fs, leader[10] - 48);
    var dir := Directory(fs, leader[20] - 48, leader[21] - 48, 0);
    var base := 25 + |dir|;
    assert |head| == 24 by { FilledLength(head, leader, |s|, base); }
    RecordAt(s, head, dir, FieldTexts(fs));
    HeadNumbers(s, head, leader, |s|, base);
    SetGoodLeader(s, base);
    var lay := LayoutOf(s[..24], base);
    DirectoryRead(s, 24, fs, lay, 0);
    FieldsRead(s, 24, fs, lay, 0);
    ReadGood(s, head, lay, fs);
  }

  lemma FilledLength(head: seq<byte>, leader: seq<byte>, length: nat, base: nat)
    requires FilledIn(head, leader, length, base)
    ensures |head| == 24
  {
  }

  /** The reader, once its parts are known to succeed. */
  lemma ReadGood(s: seq<byte>, head: seq<byte>, lay: Layout, fs: seq<Node>)
    requires |s| >= 25 && AllDigits(s, 0, 5) && AtoiN(s, 0, 5) == |s| && SetLeader(s) == (Draft(head, 0), lay)
    requires lay.base >= 25 && DirEnd(s, |s|, 24, 3 + lay.entry + lay.starting) == Some((lay.base - 1, false))
    requires Fields(s, |s|, lay, 24, lay.base - 1) == fs
    ensures Read(s) == Outcome(|s|, [Leader(head)] + fs)
  {
    hide DirEnd, Fields, SetLeader, AtoiN, AllDigits;
    assert Comments(0) == [];
    assert [] + [Leader(head)] + [] + [] + fs == [Leader(head)] + fs;
  }

  lemma RecordAt(s: seq<byte>, head: seq<byte>, dir: seq<byte>, data: seq<byte>)
    requires |head| == 24 && s == head + dir + [FS] + data + [RS]
    ensures s[..24] == head && OccursAt(s, 24, dir + [FS]) && OccursAt(s, 25 + |dir|, data + [RS])
  {
    var d := dir + [FS];
    assert s == head + d + (data + [RS]);
    forall k | 0 <= k < |d| ensures s[24 + k] == d[k] { }
  }

  lemma HeadNumbers(s: seq<byte>, head: seq<byte>, leader: seq<byte>, length: nat, base: nat)
    requires |s| >= 24 && s[..24] == head && FilledIn(head, leader, length, base) && GoodLeader(leader)
    requires length <= MAX_RECORD && base <= MAX_RECORD
    ensures GoodLeader(head) && head[10] == leader[10] && head[20] == leader[20] && head[21] == leader[21]
    ensures AllDigits(s, 0, 5) && AtoiN(s, 0, 5) == length
    ensures AllDigits(s, 12, 5) && AtoiN(s, 12, 5) == base
  {
    FiveDigits(length);
    FiveDigits(base);
    forall k | 0 <= k < 5 ensures s[0 + k] == PadDecimal(5, length)[k] && s[12 + k] == PadDecimal(5, base)[k] {
      assert s[0 + k] == head[0 + k] && s[12 + k] == head[12 + k];
    }
    NumberAt(s, 0, 5, length);
    NumberAt(s, 12, 5, base);
  }
}
