/** What the modifiers of a CQL proximity mean, and that both compilers keep it: src/cql2ccl.c:181-216 and
    src/cqltransform.c:511-580. */
module CqlProximity {
  import opened Bytes
  import opened Chars
  import opened Radix
  import opened CqlTree
  import CqlToCcl
  import CqlToPqf

  // ---- numbers

  lemma {:induction false} DigitsRead(s: string, i: nat, d: seq<nat>, acc: nat)
    requires i <= |s| && (forall k :: 0 <= k < |d| ==> d[k] < 10) && s[i..] == DigitChars(d)
    ensures DigitsFrom(s, i, 10, acc) == Value(10, [acc] + d)
    decreases |d|
  {
    if d == [] {
      assert s[i..] == "" && [acc] + d == [acc] && [acc][..0] == [];
    } else {
      assert s[i] == s[i..][0] == DigitChars(d)[0];
      assert s[i + 1..] == s[i..][1..] == DigitChars(d[1..]);
      DigitsRead(s, i + 1, d[1..], acc * 10 + d[0]);
      FirstTwo(acc, d);
    }
  }

  lemma FirstTwo(acc: nat, d: seq<nat>)
    requires d != []
    ensures Value(10, [acc] + d) == Value(10, [acc * 10 + d[0]] + d[1..])
  {
    hide Value, Pow;
    ValueAppend(10, [acc] + [d[0]], d[1..]);
    ValueAppend(10, [acc * 10 + d[0]], d[1..]);
    assert [acc] + d == [acc] + [d[0]] + d[1..];
    ValueSnoc(10, [acc], d[0]);
    ValueSingle(10, acc);
    ValueSingle(10, acc * 10 + d[0]);
  }

  lemma NaturalRead(s: string, i: nat, n: nat)
    requires i <= |s| && s[i..] == DigitChars(Digits(10, n))
    ensures DigitsFrom(s, i, 10, 0) == n
  {
    hide Value;
    DigitsRead(s, i, Digits(10, n), 0);
    ValueLeadingZero(10, Digits(10, n));
    ValueDigits(10, n);
  }

  lemma NoLeadingZero(n: nat)
    requires n > 0
    ensures Digits(10, n)[0] != 0
  {
    if n >= 10 {
      Shrinks(n, 10);
      NoLeadingZero(n / 10);
    }
  }

  /** What printf's %d writes, atoi and strtol read, in base 10 or in any base. */
  lemma NumberRead(n: int, anyBase: bool)
    ensures Number(IntText(n), anyBase) == n
  {
    hide DigitsFrom, Digits;
    var s := IntText(n);
    var m: nat := if n >= 0 then n else -n;
    var j := if n >= 0 then 0 else 1;
    assert s[j..] == DigitChars(Digits(10, m));
    NaturalRead(s, j, m);
    assert SkipWhite(s, 0) == 0;
    assert s[j] == s[j..][0];
    if m > 0 {
      NoLeadingZero(m);
    } else {
      ZeroRead(s, j);
    }
  }

  lemma ZeroRead(s: string, j: nat)
    requires j <= |s| && s[j..] == DigitChars(Digits(10, 0))
    ensures s[j..] == "0" && DigitsFrom(s, j, 8, 0) == 0
  {
    assert s[j] == s[j..][0];
  }

  // ---- CCL

  predicate IsDistance(m: Modifier) { SameWord(m.name, "distance") }
  predicate IsOrder(m: Modifier) { SameWord(m.name, "ordered") || SameWord(m.name, "unordered") }

  /** What CCL can express: words as units, distances up to a number, and order. */
  predicate CclKnows(m: Modifier) {
    || (SameWord(m.name, "unit") && SameWord(m.term, "word"))
    || (IsDistance(m) && (m.relation == "<=" || m.relation == "<"))
    || IsOrder(m)
  }

  /** The distance `x` satisfies the modifier. */
  predicate Satisfies(m: Modifier, x: int) {
    match m.relation
    case "<" => x < Number(m.term, false)
    case _ => x <= Number(m.term, false)
  }

  lemma Different(m: Modifier)
    ensures IsDistance(m) ==> !IsOrder(m) && !SameWord(m.name, "unit")
    ensures IsOrder(m) ==> !SameWord(m.name, "unit")
    ensures SameWord(m.name, "ordered") ==> !SameWord(m.name, "unordered")
  {
    assert |"unit"| == 4 && |"distance"| == 8 && |"ordered"| == 7 && |"unordered"| == 9;
  }

  lemma CclStep(op: CqlToCcl.Operator, m: Modifier)
    requires op.JoinProx?
    ensures CqlToCcl.ProxStep(op, m).Some? <==> CclKnows(m)
    ensures CclKnows(m) ==>
              var next := CqlToCcl.ProxStep(op, m).value;
              && (if IsOrder(m) then next.ordered == SameWord(m.name, "ordered") else next.ordered == op.ordered)
              && (!IsDistance(m) ==> next.distance == op.distance)
              && (IsDistance(m) ==> forall x: int :: x <= next.distance <==> Satisfies(m, x))
  {
    hide SameWord, Number;
    Different(m);
  }

  /** The last modifier of a kind. */
  predicate Last(ms: seq<Modifier>, k: nat, kind: Modifier -> bool)
    requires k < |ms|
  {
    kind(ms[k]) && forall j :: k < j < |ms| ==> !kind(ms[j])
  }

  predicate Free(ms: seq<Modifier>, kind: Modifier -> bool) { forall j :: 0 <= j < |ms| ==> !kind(ms[j]) }

  /** From any operator on: modifiers that CCL knows are all accepted, and the last of each kind counts. */
  lemma {:induction false} CclLoop(op: CqlToCcl.Operator, ms: seq<Modifier>)
    requires op.JoinProx?
    ensures CqlToCcl.ProxLoop(op, ms).Some? <==> forall j :: 0 <= j < |ms| ==> CclKnows(ms[j])
    ensures var r := CqlToCcl.ProxLoop(op, ms);
            r.Some? ==>
              && (Free(ms, IsOrder) ==> r.value.ordered == op.ordered)
              && (Free(ms, IsDistance) ==> r.value.distance == op.distance)
    ensures var r := CqlToCcl.ProxLoop(op, ms);
            forall k :: 0 <= k < |ms| && r.Some? ==>
              && (Last(ms, k, IsOrder) ==> r.value.ordered == SameWord(ms[k].name, "ordered"))
              && (Last(ms, k, IsDistance) ==> forall x: int :: x <= r.value.distance <==> Satisfies(ms[k], x))
    decreases |ms|
  {
    hide CqlToCcl.ProxStep, CclKnows, IsOrder, IsDistance, SameWord, Satisfies;
    if ms != [] {
      var first, rest := ms[0], ms[1..];
      CclStep(op, first);
      assert forall j :: 0 < j < |ms| ==> ms[j] == rest[j - 1];
      assert forall j :: 0 <= j < |rest| ==> rest[j] == ms[j + 1];
      if CclKnows(first) {
        var next := CqlToCcl.ProxStep(op, first).value;
        CclLoop(next, rest);
        LastShifts(ms, IsOrder);
        LastShifts(ms, IsDistance);
      }
    }
  }

  lemma LastShifts(ms: seq<Modifier>, kind: Modifier -> bool)
    requires ms != []
    ensures Free(ms, kind) <==> !kind(ms[0]) && Free(ms[1..], kind)
    ensures forall k :: 0 < k < |ms| ==> (Last(ms, k, kind) <==> Last(ms[1..], k - 1, kind))
    ensures Last(ms, 0, kind) <==> kind(ms[0]) && Free(ms[1..], kind)
  {
    var rest := ms[1..];
    assert forall j :: 0 < j < |ms| ==> ms[j] == rest[j - 1];
    assert forall j :: 0 <= j < |rest| ==> rest[j] == ms[j + 1];
  }

  /** A proximity is printed if and only if CCL knows all its modifiers; without a distance it is 1, without an
      order it has none; and with one, the distances up to the number printed are those that the last distance
      modifier asks for. */
  lemma CclProximity(ms: seq<Modifier>)
    ensures var r := CqlToCcl.Resolve(CqlProx, ms);
            && (r.Some? <==> forall j :: 0 <= j < |ms| ==> CclKnows(ms[j]))
            && (r.Some? && Free(ms, IsOrder) ==> !r.value.ordered)
            && (r.Some? && Free(ms, IsDistance) ==> r.value.distance == 1)
            && (forall k :: 0 <= k < |ms| && r.Some? ==>
                  && (Last(ms, k, IsOrder) ==> r.value.ordered == SameWord(ms[k].name, "ordered"))
                  && (Last(ms, k, IsDistance) ==> forall x: int :: x <= r.value.distance <==> Satisfies(ms[k], x)))
  {
    hide CclKnows, IsOrder, IsDistance, SameWord, Satisfies, Free, Last;
    CclLoop(CqlToCcl.JoinProx(false, 1), ms);
  }

  // ---- prefix notation

  predicate SetsDistance(m: Modifier) { m.name == "distance" }
  predicate SetsOrder(m: Modifier) { m.name == "ordered" || m.name == "unordered" }
  predicate SetsUnit(m: Modifier) { m.name == "unit" }

  const RELATIONS := {"<", "<=", "=", ">=", ">", "<>"}

  predicate PqfKnows(m: Modifier, units: string -> nat) {
    || (SetsDistance(m) && m.relation in RELATIONS)
    || SetsOrder(m)
    || (SetsUnit(m) && units(m.term) != 0)
  }

  /** The relation as CQL writes it. */
  predicate CqlRelated(relation: string, a: int, b: int) {
    match relation
    case "<" => a < b
    case "<=" => a <= b
    case "=" => a == b
    case ">=" => a >= b
    case ">" => a > b
    case _ => a != b
  }

  /** The relation type of a Z39.50 proximity operator. */
  predicate Related(code: nat, a: int, b: int) {
    match code
    case 1 => a < b
    case 2 => a <= b
    case 3 => a == b
    case 4 => a >= b
    case 5 => a > b
    case _ => a != b
  }

  lemma RelationKept(relation: string, a: int, b: int)
    requires relation in RELATIONS
    ensures 1 <= CqlToPqf.ProxRelation(relation) <= 6
    ensures Related(CqlToPqf.ProxRelation(relation), a, b) <==> CqlRelated(relation, a, b)
  {
  }

  lemma RelationUnknown(relation: string)
    ensures CqlToPqf.ProxRelation(relation) != 0 <==> relation in RELATIONS
  {
  }

  lemma PqfStep(st: CqlToPqf.ProxState, m: Modifier, units: string -> nat)
    ensures CqlToPqf.ProxStep(st, m, units).Some? <==> PqfKnows(m, units)
    ensures PqfKnows(m, units) ==>
              var next := CqlToPqf.ProxStep(st, m, units).value;
              && next.ordered == (if SetsOrder(m) then m.name == "ordered" else st.ordered)
              && next.unit == (if SetsUnit(m) then units(m.term) else st.unit)
              && next.distance == (if SetsDistance(m) then Number(m.term, true) else st.distance)
              && next.relation == (if SetsDistance(m) then CqlToPqf.ProxRelation(m.relation) else st.relation)
  {
    hide CqlToPqf.ProxRelation, Number;
    RelationUnknown(m.relation);
  }

  lemma {:induction false} PqfLoop(st: CqlToPqf.ProxState, ms: seq<Modifier>, units: string -> nat)
    ensures CqlToPqf.ProxLoop(st, ms, units).Some? <==> forall j :: 0 <= j < |ms| ==> PqfKnows(ms[j], units)
    ensures var r := CqlToPqf.ProxLoop(st, ms, units);
            r.Some? ==>
              && (Free(ms, SetsOrder) ==> r.value.ordered == st.ordered)
              && (Free(ms, SetsUnit) ==> r.value.unit == st.unit)
              && (Free(ms, SetsDistance) ==> r.value.distance == st.distance && r.value.relation == st.relation)
    ensures var r := CqlToPqf.ProxLoop(st, ms, units);
            forall k :: 0 <= k < |ms| && r.Some? ==>
              && (Last(ms, k, SetsOrder) ==> r.value.ordered == (ms[k].name == "ordered"))
              && (Last(ms, k, SetsUnit) ==> r.value.unit == units(ms[k].term))
              && (Last(ms, k, SetsDistance) ==>
                    r.value.distance == Number(ms[k].term, true) &&
                    r.value.relation == CqlToPqf.ProxRelation(ms[k].relation))
    decreases |ms|
  {
    hide CqlToPqf.ProxStep, PqfKnows, SetsOrder, SetsDistance, SetsUnit, Number, CqlToPqf.ProxRelation;
    if ms != [] {
      var first, rest := ms[0], ms[1..];
      PqfStep(st, first, units);
      assert forall j :: 0 < j < |ms| ==> ms[j] == rest[j - 1];
      assert forall j :: 0 <= j < |rest| ==> rest[j] == ms[j + 1];
      if PqfKnows(first, units) {
        PqfLoop(CqlToPqf.ProxStep(st, first, units).value, rest, units);
        LastShifts(ms, SetsOrder);
        LastShifts(ms, SetsUnit);
        LastShifts(ms, SetsDistance);
      }
    }
  }

  /** A proximity is printed if and only if all its modifiers are known. The last of each kind counts: the
      number, the relation as Z39.50 counts them, the order and the unit; without a distance it is at most
      one word, or nothing of another unit. */
  lemma PqfProximity(ms: seq<Modifier>, units: string -> nat)
    ensures var r := CqlToPqf.ProxLoop(CqlToPqf.PROX_START, ms, units);
            && (r.Some? <==> forall j :: 0 <= j < |ms| ==> PqfKnows(ms[j], units))
            && (r.Some? && Free(ms, SetsOrder) ==> !r.value.ordered)
            && (r.Some? && Free(ms, SetsUnit) ==> r.value.unit == 2)
            && (r.Some? && Free(ms, SetsDistance) ==>
                  r.value.relation == 2 && CqlToPqf.Distance(r.value) == if r.value.unit == 2 then 1 else 0)
    ensures var r := CqlToPqf.ProxLoop(CqlToPqf.PROX_START, ms, units);
            forall k :: 0 <= k < |ms| && r.Some? ==>
              && (Last(ms, k, SetsOrder) ==> r.value.ordered == (ms[k].name == "ordered"))
              && (Last(ms, k, SetsUnit) ==> r.value.unit == units(ms[k].term))
              && (Last(ms, k, SetsDistance) ==> Number(ms[k].term, true) != -1 ==>
                    CqlToPqf.Distance(r.value) == Number(ms[k].term, true))
              && (Last(ms, k, SetsDistance) ==>
                    forall a: int, b: int :: Related(r.value.relation, a, b) <==> CqlRelated(ms[k].relation, a, b))
  {
    hide PqfKnows, SetsOrder, SetsUnit, Number, Free, CqlToPqf.ProxRelation, Related, CqlRelated, CqlToPqf.ProxLoop;
    PqfLoop(CqlToPqf.PROX_START, ms, units);
    var r := CqlToPqf.ProxLoop(CqlToPqf.PROX_START, ms, units);
    forall k, a: int, b: int | 0 <= k < |ms| && r.Some? && Last(ms, k, SetsDistance)
      ensures Related(CqlToPqf.ProxRelation(ms[k].relation), a, b) <==> CqlRelated(ms[k].relation, a, b)
    {
      assert PqfKnows(ms[k], units);
      KnownRelation(ms[k], units);
      RelationKept(ms[k].relation, a, b);
    }
  }

  lemma KnownRelation(m: Modifier, units: string -> nat)
    requires PqfKnows(m, units) && SetsDistance(m)
    ensures m.relation in RELATIONS
  {
  }
}
