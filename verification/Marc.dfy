/** ISO 2709 MARC records: the writer of src/marcdisp.c and the reader of src/marc_read_iso2709.c. No
    character conversion takes place, so one character is one octet. */
module Marc {
  import opened Bytes
  import opened Radix
  import opened Atoin

  const RS: byte := 29
  const FS: byte := 30
  const IDFS: byte := 31
  const MAX_RECORD := 99999

  datatype Node =
    | Leader(text: seq<byte>)
    | Control(tag: seq<byte>, data: seq<byte>)
    | Data(tag: seq<byte>, indicator: seq<byte>, subfields: seq<seq<byte>>)
    | Comment

  predicate IsSeparator(b: byte) {
    b == RS || b == FS || b == IDFS
  }

  predicate IsField(n: Node) {
    n.Control? || n.Data?
  }

  // ---- writer

  /** printf's %0*d. */
  function PadDecimal(width: nat, v: nat): (text: seq<byte>)
    ensures forall k :: 0 <= k < |text| ==> 48 <= text[k] <= 57
  {
    DigitText(Pad(Digits(10, v), width))
  }

  /** printf's %3.3s. */
  function Tag3(tag: seq<byte>): (t: seq<byte>)
    ensures |t| == 3
  {
    if |tag| >= 3 then tag[..3]
    else if |tag| == 2 then [SPACE] + tag
    else if |tag| == 1 then [SPACE, SPACE] + tag
    else [SPACE, SPACE, SPACE]
  }

  function SubfieldText(subfields: seq<seq<byte>>): seq<byte> {
    if subfields == [] then [] else [IDFS] + subfields[0] + SubfieldText(subfields[1..])
  }

  /** What the second pass writes for a node. */
  function FieldText(n: Node): seq<byte> {
    match n
    case Control(_, data) => data + [FS]
    case Data(_, indicator, subfields) => indicator + SubfieldText(subfields) + [FS]
    case _ => []
  }

  function FieldTexts(ns: seq<Node>): seq<byte> {
    if ns == [] then [] else FieldText(ns[0]) + FieldTexts(ns[1..])
  }

  function Entry(n: Node, w1: nat, w2: nat, offset: nat): seq<byte>
    requires IsField(n)
  {
    Tag3(n.tag) + PadDecimal(w1, |FieldText(n)|) + PadDecimal(w2, offset)
  }

  /** Outcome of the first pass: the directory, the octets of data it covers, and how many nodes come
      before the size cap. */
  datatype Plan = Plan(dir: seq<byte>, size: nat, kept: nat)

  predicate Capped(n: Node, dir: seq<byte>, offset: nat) {
    IsField(n) && |dir| + 40 + offset + |FieldText(n)| > MAX_RECORD
  }

  /** The first pass over `ns`, with the directory and the data offset reached so far. */
  function MakePlan(ns: seq<Node>, w1: nat, w2: nat, dir: seq<byte>, offset: nat): (p: Plan)
    ensures p.kept <= |ns|
  {
    if ns == [] || Capped(ns[0], dir, offset) then Plan(dir, offset, 0)
    else
      var rest :=
        if IsField(ns[0])
        then MakePlan(ns[1..], w1, w2, dir + Entry(ns[0], w1, w2, offset), offset + |FieldText(ns[0])|)
        else MakePlan(ns[1..], w1, w2, dir, offset);
      rest.(kept := rest.kept + 1)
  }

  /** The last leader node, as the writer looks for it. */
  function FindLeader(ns: seq<Node>): Option<seq<byte>> {
    if ns == [] then None
    else if ns[|ns| - 1].Leader? then Some(ns[|ns| - 1].text)
    else FindLeader(ns[..|ns| - 1])
  }

  /** One digit of the leader. */
  function LeaderDigit(leader: seq<byte>, k: nat): (r: Option<nat>)
    requires k < |leader|
    ensures r.Some? ==> r.value <= 9
  {
    if IsDigit(10, leader[k]) then Some(DigitValue(leader[k])) else None
  }

  function Head(leader: seq<byte>, length: nat, base: nat): seq<byte>
    requires |leader| >= 24
  {
    PadDecimal(5, length) + leader[5..12] + PadDecimal(5, base) + leader[17..24]
  }

  /** yaz_marc_write_iso2709; None for a missing or unusable leader. */
  function Write(ns: seq<Node>): Option<seq<byte>> {
    match FindLeader(ns)
    case None => None
    case Some(leader) =>
      if |leader| < 24 || LeaderDigit(leader, 10).None? || LeaderDigit(leader, 11).None?
         || LeaderDigit(leader, 20).None? || LeaderDigit(leader, 21).None? || LeaderDigit(leader, 22).None?
      then None
      else
        var plan := MakePlan(ns, LeaderDigit(leader, 20).value, LeaderDigit(leader, 21).value, [], 0);
        var base := 24 + |plan.dir| + 1;
        var head := Head(leader, base + plan.size + 1, base);
        Some((if |head| > 24 then head[..24] else head) + plan.dir + [FS] + FieldTexts(ns[..plan.kept]) + [RS])
  }

  // ---- reader

  /** The lengths that the leader declares, after the reader's corrections. */
  datatype Layout = Layout(indicator: nat, base: nat, entry: nat, starting: nat)

  predicate AllDigits(s: seq<byte>, i: nat, n: nat)
    requires i + n <= |s|
  {
    forall k :: i <= k < i + n ==> IsDigit(10, s[k])
  }

  /** atoi_n: the value of exactly `n` digits, otherwise 0. */
  function AtoiN(s: seq<byte>, i: nat, n: nat): nat
    requires i + n <= |s|
  {
    if AllDigits(s, i, n) && NumVal(10, s, i, i + n) <= INT_MAX then NumVal(10, s, i, i + n) else 0
  }

  predicate IsAsciiText(b: byte) {
    32 <= b <= 127
  }

  /** A leader under correction, and the comments made about it. */
  datatype Draft = Draft(leader: seq<byte>, comments: nat)

  /** check_ascii. */
  function FixAscii(d: Draft, k: nat, default: byte): (r: Draft)
    requires k < |d.leader|
    ensures |r.leader| == |d.leader|
  {
    if IsAsciiText(d.leader[k]) then d else Draft(d.leader[k := default], d.comments + 1)
  }

  /** A digit position of the leader with its least value. */
  function FixDigit(d: Draft, k: nat, least: nat, default: byte): (r: Draft)
    requires k < |d.leader| && least <= 9 && 48 + least <= default <= 57
    ensures |r.leader| == |d.leader| && least <= DigitValue(r.leader[k]) <= 9
    ensures forall m :: 0 <= m < |d.leader| && m != k ==> r.leader[m] == d.leader[m]
  {
    if LeaderDigit(d.leader, k).Some? && LeaderDigit(d.leader, k).value >= least then d
    else Draft(d.leader[k := default], d.comments + 1)
  }

  /** yaz_marc_set_leader: corrected leader, comments and layout. */
  function SetLeader(s: seq<byte>): (r: (Draft, Layout))
    requires |s| >= 24
    ensures |r.0.leader| == 24 && r.1.indicator >= 1 && r.1.entry >= 3 && r.1.starting >= 4
    ensures r.1.indicator <= 9 && r.1.entry <= 9 && r.1.starting <= 9
  {
    var d := Draft(s[..24], 0);
    var d := FixAscii(FixAscii(FixAscii(d, 5, 97), 6, 97), 7, 97);
    var d := FixAscii(FixAscii(d, 8, 35), 9, 35);
    var d := FixDigit(FixDigit(d, 10, 1, 50), 11, 1, 50);
    var d := if AllDigits(s, 12, 5) then d else d.(comments := d.comments + 1);
    var d := FixAscii(FixAscii(FixAscii(d, 17, 35), 18, 35), 19, 35);
    var d := FixDigit(FixDigit(FixDigit(d, 20, 3, 52), 21, 4, 53), 22, 0, 48);
    var d' := FixAscii(d, 23, 48);
    (d', Layout(DigitValue(d.leader[10]), AtoiN(s, 12, 5), DigitValue(d.leader[20]), DigitValue(d.leader[21])))
  }

  /** `end` is reached from `p` in whole steps of `l`. */
  predicate Steps(p: nat, end: nat, l: nat)
    decreases end - p
  {
    p == end || (l > 0 && p + l <= end && Steps(p + l, end, l))
  }

  /** The first pass: where the directory ends, and whether it was cut short by a bad entry. */
  function DirEnd(s: seq<byte>, rl: nat, p: nat, l: nat): (r: Option<(nat, bool)>)
    requires p < rl <= |s| && l >= 3
    ensures r.Some? ==> p <= r.value.0 < rl && Steps(p, r.value.0, l)
    decreases rl - p
  {
    if s[p] == FS then Some((p, false))
    else if p + l >= rl then None
    else if !AllDigits(s, p + 3, l - 3) then Some((p, true))
    else DirEnd(s, rl, p + l, l)
  }

  predicate EndsField(b: byte) {
    b == RS || b == FS
  }

  /** The octet at `i`; 0 beyond the buffer. */
  function Peek(s: seq<byte>, i: nat): byte {
    if i < |s| then s[i] else 0
  }

  /** The scan for subfields up to `end`: those found, and where the scan stops. */
  function Subfields(s: seq<byte>, i: nat, code: nat, end: nat): (r: (seq<seq<byte>>, nat))
    requires code <= i + 1 && end <= |s|
    ensures i <= r.1 && (i <= end ==> r.1 <= end)
    decreases end - i
  {
    if i < end && !EndsField(s[i]) then
      if s[i] == IDFS && i < end - 1 && s[i + 1] > 32 then
        var rest := Subfields(s, i + 1, i + 1, end);
        ((if i > code then [s[code..i]] else []) + rest.0, rest.1)
      else Subfields(s, i + 1, code, end)
    else (if code < i <= |s| then [s[code..i]] else [], i)
  }

  /** Whether a field has subfields: 0 no, 1 yes, 2 yes after one octet (Danmarc). */
  function IdentifierFlag(s: seq<byte>, tag: seq<byte>, indicator: nat, i: nat): (r: nat)
    requires |tag| == 3
    ensures r <= 2
  {
    if tag[0] != 48 || tag[1] != 48 then 1
    else if 0 < indicator < 4 then
      if Peek(s, i + indicator) == IDFS then 1
      else if Peek(s, i + indicator + 1) == IDFS then 2
      else 0
    else 0
  }

  /** The nodes for one directory entry whose data is s[i..end + 1]. */
  function ReadField(s: seq<byte>, tag: seq<byte>, indicator: nat, i: nat, end: nat): seq<Node>
    requires |tag| == 3 && i <= end < |s|
  {
    var flag := IdentifierFlag(s, tag, indicator, i);
    if flag > 0 then
      var i1 := i + flag - 1;
      var i2 := i1 + indicator;
      var (subs, stop) := Subfields(s, i2, i2 + 1, end);
      [Data(tag, s[i1..if i2 <= |s| then i2 else |s|], subs)] + Trouble(s, stop, end)
    else
      var stop := Find(s, i, end, EndsField);
      [Control(tag, s[i..stop])] + Trouble(s, stop, end)
  }

  /** The comments about a field whose scan stopped at `stop`. */
  function Trouble(s: seq<byte>, stop: nat, end: nat): seq<Node> {
    (if stop < end then [Comment] else []) + (if EndsField(Peek(s, stop)) then [] else [Comment])
  }

  /** The second pass, from the directory entry at `p`. */
  function Fields(s: seq<byte>, rl: nat, lay: Layout, p: nat, dirEnd: nat): seq<Node>
    requires dirEnd <= rl <= |s|
    decreases dirEnd - p
  {
    if p + 3 + lay.entry + lay.starting > dirEnd then []
    else
      var len := AtoiN(s, p + 3, lay.entry);
      var i := AtoiN(s, p + 3 + lay.entry, lay.starting) + lay.base;
      if len == 0 then []
      else if i + len - 1 >= rl then [Comment]
      else
        ReadField(s, s[p..p + 3], lay.indicator, i, i + len - 1)
        + Fields(s, rl, lay, p + 3 + lay.entry + lay.starting, dirEnd)
  }

  function Comments(n: nat): seq<Node> {
    seq(n, _ => Comment)
  }

  /** Return code and nodes of the reader. */
  datatype Outcome = Outcome(rc: int, nodes: seq<Node>)

  /** yaz_marc_read_iso2709 on a buffer of known size. */
  function Read(s: seq<byte>): Outcome {
    if |s| < 5 || !AllDigits(s, 0, 5) then Outcome(-1, [Comment])
    else
      var rl := AtoiN(s, 0, 5);
      if rl < 25 || rl > |s| then Outcome(-1, [Comment])
      else
        var (draft, lay) := SetLeader(s);
        var start := Comments(draft.comments) + [Leader(draft.leader)];
        match DirEnd(s, rl, 24, 3 + lay.entry + lay.starting)
        case None => Outcome(-1, start + [Comment])
        case Some((end, bad)) =>
          Outcome(rl, start + (if bad then [Comment] else [])
                      + (if lay.base != end + 1 then [Comment] else [])
                      + Fields(s, rl, lay, 24, end))
  }
}
