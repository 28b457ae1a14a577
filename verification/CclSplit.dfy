/** Split-list expansion of CCL terms, src/cclfind.c:120-135 and 552-665: a list of term tokens
    becomes a tree over all ways to cut it into short phrases. Tokens are named by their positions. */
module CclSplit {
  import opened Bytes

  /** A term node covers the tokens start..start+len under one use attribute, if any. */
  datatype Node =
    | Term(start: nat, len: nat, use: Option<nat>)
    | And(left: Node, right: Node)
    | Or(left: Node, right: Node)

  /** The number of use attributes of the first qualifier, and which terms can be made. */
  datatype Qualifier = Qualifier(uses: nat, makes: (nat, nat, Option<nat>) -> bool)

  type Match = (nat, nat, Option<nat>) -> bool

  // ---- the expansion

  /** ccl_rpn_node_mkbool. */
  function MkOr(l: Option<Node>, r: Option<Node>): Option<Node> {
    if l.Some? && r.Some? then Some(Or(l.value, r.value)) else if r.Some? then r else l
  }

  function MkAnd(l: Option<Node>, r: Option<Node>): Option<Node> {
    if l.Some? && r.Some? then Some(And(l.value, r.value)) else if r.Some? then r else l
  }

  /** ccl_term_one_use. */
  function OneUse(q: Qualifier, i: nat, l: nat, use: Option<nat>): Option<Node> {
    if q.makes(i, l, use) then Some(Term(i, l, use)) else None
  }

  /** ccl_term_multi_use from use attribute `u` on. */
  function MultiUse(q: Qualifier, i: nat, l: nat, u: nat, top: Option<Node>): Option<Node>
    decreases q.uses - u
  {
    if u >= q.uses then (if top.Some? then top else OneUse(q, i, l, None))
    else
      match OneUse(q, i, l, Some(u))
      case None => None
      case Some(t) => MultiUse(q, i, l, u + 1, MkOr(top, Some(t)))
  }

  /** split_recur on the tokens i..n, from phrase length `l` on. */
  function Split(q: Qualifier, n: nat, i: nat, subLen: nat, l: nat, top: Option<Node>): Option<Node>
    requires i < n && 1 <= l
    decreases n - i, n - l
  {
    if l > n - i || l > subLen then top
    else
      var phrase := MultiUse(q, i, l, 0, None);
      if phrase.None? then None
      else if n - i > l then
        var rest := Split(q, n, i + l, subLen, 1, None);
        if rest.None? then None
        else Split(q, n, i, subLen, l + 1, MkOr(top, MkAnd(phrase, rest)))
      else Split(q, n, i, subLen, l + 1, MkOr(top, phrase))
  }

  /** The longest sub-phrase for a number of tokens. */
  function SubLen(n: nat): nat {
    if n >= 7 then 1 else if n >= 5 then 2 else 3
  }

  // ---- the loops

  method TermMultiUse(q: Qualifier, i: nat, l: nat) returns (p: Option<Node>)
    ensures p == MultiUse(q, i, l, 0, None)
  {
    p := None;
    var u := 0;
    while u < q.uses
      invariant u <= q.uses
      invariant MultiUse(q, i, l, 0, None) == MultiUse(q, i, l, u, p)
    {
      var t := OneUse(q, i, l, Some(u));
      if t.None? {
        return None;
      }
      p := MkOr(p, t);
      u := u + 1;
    }
    if p.None? {
      p := OneUse(q, i, l, None);
    }
  }

  method SplitRecur(q: Qualifier, n: nat, i: nat, subLen: nat) returns (top: Option<Node>)
    requires i < n
    ensures top == Split(q, n, i, subLen, 1, None)
    decreases n - i
  {
    hide MultiUse;
    top := None;
    var l := 1;
    while l <= n - i && l <= subLen
      invariant 1 <= l
      invariant Split(q, n, i, subLen, 1, None) == Split(q, n, i, subLen, l, top)
      decreases n - l
    {
      var p2 := TermMultiUse(q, i, l);
      if p2.None? {
        return None;
      }
      if n - i > l {
        var p1 := SplitRecur(q, n, i + l, subLen);
        if p1.None? {
          return None;
        }
        p2 := MkAnd(p2, p1);
      }
      top := MkOr(top, p2);
      l := l + 1;
    }
  }

  /** search_term_split_list on tokens told apart by whether they are accepted as terms: how many are
      consumed, and the tree; none accepted is the error "term expected". */
  method SearchTermSplitList(q: Qualifier, isTerm: seq<bool>) returns (sz: nat, p: Option<Node>)
    ensures sz <= |isTerm| && (forall k :: 0 <= k < sz ==> isTerm[k]) && (sz < |isTerm| ==> !isTerm[sz])
    ensures p == if sz == 0 then None else Split(q, sz, 0, SubLen(sz), 1, None)
  {
    sz := 0;
    while sz < |isTerm| && isTerm[sz]
      invariant sz <= |isTerm| && forall k :: 0 <= k < sz ==> isTerm[k]
    {
      sz := sz + 1;
    }
    if sz == 0 {
      return sz, None;
    }
    p := SplitRecur(q, sz, 0, SubLen(sz));
  }

  // ---- when there is a tree

  predicate PhraseMade(q: Qualifier, i: nat, l: nat) {
    if q.uses == 0 then q.makes(i, l, None) else forall u :: 0 <= u < q.uses ==> q.makes(i, l, Some(u))
  }

  lemma {:induction false} MultiUseMade(q: Qualifier, i: nat, l: nat, u: nat, top: Option<Node>)
    requires u <= q.uses && (top.Some? <==> u > 0)
    ensures MultiUse(q, i, l, u, top).Some? <==>
              if q.uses == 0 then q.makes(i, l, None) else forall v :: u <= v < q.uses ==> q.makes(i, l, Some(v))
    decreases q.uses - u
  {
    if u < q.uses && q.makes(i, l, Some(u)) {
      MultiUseMade(q, i, l, u + 1, MkOr(top, OneUse(q, i, l, Some(u))));
    }
  }

  /** Every phrase of at most subLen tokens inside i..n can be made, those at `i` from length `l` on. */
  predicate AllMade(q: Qualifier, n: nat, i: nat, subLen: nat, l: nat) {
    forall j, m :: i <= j && 1 <= m <= subLen && j + m <= n && (j == i ==> m >= l) ==> PhraseMade(q, j, m)
  }

  lemma {:induction false} SplitMadeFrom(q: Qualifier, n: nat, i: nat, subLen: nat, l: nat, top: Option<Node>)
    requires i < n && 1 <= l && subLen >= 1 && (top.Some? <==> l > 1)
    ensures l > 1 && AllMade(q, n, i + 1, subLen, 1) ==>
              (Split(q, n, i, subLen, l, top).Some? <==> AllMade(q, n, i, subLen, l))
    ensures l == 1 ==> (Split(q, n, i, subLen, l, top).Some? <==> AllMade(q, n, i, subLen, 1))
    decreases n - i, n - l
  {
    hide MultiUse, PhraseMade;
    if l <= n - i && l <= subLen {
      var phrase := MultiUse(q, i, l, 0, None);
      assert phrase.Some? <==> PhraseMade(q, i, l) by { PhraseIsMade(q, i, l); }
      if n - i > l {
        SplitMadeFrom(q, n, i + l, subLen, 1, None);
        assert AllMade(q, n, i + 1, subLen, 1) ==> AllMade(q, n, i + l, subLen, 1);
        var rest := Split(q, n, i + l, subLen, 1, None);
        if phrase.Some? && rest.Some? {
          SplitMadeFrom(q, n, i, subLen, l + 1, MkOr(top, MkAnd(phrase, rest)));
        }
      } else if phrase.Some? {
        SplitMadeFrom(q, n, i, subLen, l + 1, MkOr(top, phrase));
      }
    }
  }

  lemma PhraseIsMade(q: Qualifier, i: nat, l: nat)
    ensures MultiUse(q, i, l, 0, None).Some? <==> PhraseMade(q, i, l)
  {
    MultiUseMade(q, i, l, 0, None);
  }

  // ---- what the tree means

  predicate Eval(p: Node, m: Match) {
    match p
    case Term(i, l, use) => m(i, l, use)
    case And(l, r) => Eval(l, m) && Eval(r, m)
    case Or(l, r) => Eval(l, m) || Eval(r, m)
  }

  predicate PhraseMatches(q: Qualifier, i: nat, l: nat, m: Match) {
    if q.uses == 0 then m(i, l, None) else exists u :: 0 <= u < q.uses && m(i, l, Some(u))
  }

  /** `cuts` are the lengths of consecutive phrases that cover i..n, none longer than `subLen`, and all
      of them match. */
  predicate Segmentation(q: Qualifier, n: nat, i: nat, subLen: nat, cuts: seq<nat>, m: Match)
    decreases |cuts|
  {
    if cuts == [] then i == n
    else 1 <= cuts[0] <= subLen && i + cuts[0] <= n && PhraseMatches(q, i, cuts[0], m) &&
         Segmentation(q, n, i + cuts[0], subLen, cuts[1..], m)
  }

  /** Some cut of i..n into consecutive phrases that all match. */
  ghost predicate Cuttable(q: Qualifier, n: nat, i: nat, subLen: nat, m: Match) {
    exists cuts: seq<nat> :: Segmentation(q, n, i, subLen, cuts, m)
  }

  predicate Holds(p: Option<Node>, m: Match) {
    p.Some? && Eval(p.value, m)
  }

  lemma OrHolds(a: Option<Node>, b: Option<Node>, m: Match)
    ensures Holds(MkOr(a, b), m) <==> Holds(a, m) || Holds(b, m)
  {
  }

  lemma AndHolds(a: Option<Node>, b: Option<Node>, m: Match)
    requires a.Some? && b.Some?
    ensures Holds(MkAnd(a, b), m) <==> Holds(a, m) && Holds(b, m)
  {
  }

  lemma {:induction false} MultiUseMeaning(q: Qualifier, i: nat, l: nat, u: nat, top: Option<Node>, m: Match)
    requires u <= q.uses && (top.Some? <==> u > 0) && MultiUse(q, i, l, u, top).Some?
    ensures Holds(MultiUse(q, i, l, u, top), m) <==>
              if q.uses == 0 then m(i, l, None)
              else Holds(top, m) || exists v :: u <= v < q.uses && m(i, l, Some(v))
    decreases q.uses - u
  {
    if u < q.uses {
      OrHolds(top, OneUse(q, i, l, Some(u)), m);
      MultiUseMeaning(q, i, l, u + 1, MkOr(top, OneUse(q, i, l, Some(u))), m);
    }
  }

  lemma PhraseMeaning(q: Qualifier, i: nat, l: nat, m: Match)
    requires MultiUse(q, i, l, 0, None).Some?
    ensures Holds(MultiUse(q, i, l, 0, None), m) <==> PhraseMatches(q, i, l, m)
  {
    MultiUseMeaning(q, i, l, 0, None, m);
  }

  /** Some cut of i..n whose first phrase has at least `l` tokens. */
  ghost predicate Segmentable(q: Qualifier, n: nat, i: nat, subLen: nat, l: nat, m: Match) {
    exists cuts: seq<nat> :: cuts != [] && cuts[0] >= l && Segmentation(q, n, i, subLen, cuts, m)
  }

  lemma SegmentableStep(q: Qualifier, n: nat, i: nat, subLen: nat, l: nat, m: Match)
    requires i < n && 1 <= l && l <= n - i && l <= subLen
    ensures Segmentable(q, n, i, subLen, l, m) <==>
              Segmentable(q, n, i, subLen, l + 1, m) ||
              (PhraseMatches(q, i, l, m) && (i + l < n ==> Segmentable(q, n, i + l, subLen, 1, m)))
  {
    if PhraseMatches(q, i, l, m) && (i + l < n ==> Segmentable(q, n, i + l, subLen, 1, m)) {
      var rest: seq<nat> := [];
      if i + l < n {
        rest :| rest != [] && rest[0] >= 1 && Segmentation(q, n, i + l, subLen, rest, m);
      }
      var cuts := [l] + rest;
      assert cuts[1..] == rest;
      assert Segmentation(q, n, i, subLen, cuts, m);
    }
    if cuts: seq<nat> :| cuts != [] && cuts[0] >= l && Segmentation(q, n, i, subLen, cuts, m) {
      if cuts[0] == l && i + l < n {
        var rest := cuts[1..];
        assert Segmentation(q, n, i + l, subLen, rest, m);
        assert rest != [] && rest[0] >= 1;
      }
    }
  }

  lemma {:induction false} SplitMeaningFrom(q: Qualifier, n: nat, i: nat, subLen: nat, l: nat,
      top: Option<Node>, m: Match)
    requires i < n && 1 <= l && Split(q, n, i, subLen, l, top).Some?
    ensures Holds(Split(q, n, i, subLen, l, top), m) <==> Holds(top, m) || Segmentable(q, n, i, subLen, l, m)
    decreases n - i, n - l
  {
    hide MultiUse, PhraseMatches, Segmentable;
    if l > n - i || l > subLen {
      NoLongerCut(q, n, i, subLen, l, m);
    } else {
      SegmentableStep(q, n, i, subLen, l, m);
      var phrase := MultiUse(q, i, l, 0, None);
      PhraseMeaning(q, i, l, m);
      if n - i > l {
        var rest := Split(q, n, i + l, subLen, 1, None);
        SplitMeaningFrom(q, n, i + l, subLen, 1, None, m);
        AndHolds(phrase, rest, m);
        OrHolds(top, MkAnd(phrase, rest), m);
        SplitMeaningFrom(q, n, i, subLen, l + 1, MkOr(top, MkAnd(phrase, rest)), m);
      } else {
        OrHolds(top, phrase, m);
        SplitMeaningFrom(q, n, i, subLen, l + 1, MkOr(top, phrase), m);
      }
    }
  }

  lemma NoLongerCut(q: Qualifier, n: nat, i: nat, subLen: nat, l: nat, m: Match)
    requires i < n && (l > n - i || l > subLen)
    ensures !Segmentable(q, n, i, subLen, l, m)
  {
  }

  // ---- size

  /** Phrases expanded for `sz` tokens from phrase length `l` on. */
  function Expanded(sz: nat, subLen: nat, l: nat): nat
    requires 1 <= l
    decreases sz, sz + 1 - l
  {
    if l > sz || l > subLen then 0
    else 1 + (if sz > l then Expanded(sz - l, subLen, 1) else 0) + Expanded(sz, subLen, l + 1)
  }

  function Terms(p: Node): nat {
    match p
    case Term(_, _, _) => 1
    case And(l, r) => Terms(l) + Terms(r)
    case Or(l, r) => Terms(l) + Terms(r)
  }

  function Size(p: Option<Node>): nat {
    if p.Some? then Terms(p.value) else 0
  }

  function Fields(q: Qualifier): nat { if q.uses == 0 then 1 else q.uses }

  lemma JoinSize(a: Option<Node>, b: Option<Node>)
    ensures Size(MkOr(a, b)) == Size(a) + Size(b) && Size(MkAnd(a, b)) == Size(a) + Size(b)
  {
  }

  lemma {:induction false} MultiUseSize(q: Qualifier, i: nat, l: nat, u: nat, top: Option<Node>)
    requires u <= q.uses && (top.Some? <==> u > 0) && MultiUse(q, i, l, u, top).Some?
    ensures Size(MultiUse(q, i, l, u, top)) == Size(top) + Fields(q) - u
    decreases q.uses - u
  {
    if u < q.uses {
      JoinSize(top, OneUse(q, i, l, Some(u)));
      MultiUseSize(q, i, l, u + 1, MkOr(top, OneUse(q, i, l, Some(u))));
    }
  }

  lemma {:induction false} SplitSizeFrom(q: Qualifier, n: nat, i: nat, subLen: nat, l: nat, top: Option<Node>)
    requires i < n && 1 <= l && Split(q, n, i, subLen, l, top).Some?
    ensures Size(Split(q, n, i, subLen, l, top)) == Size(top) + Expanded(n - i, subLen, l) * Fields(q)
    decreases n - i, n - l
  {
    hide MultiUse, Fields;
    if l <= n - i && l <= subLen {
      var phrase := MultiUse(q, i, l, 0, None);
      MultiUseSize(q, i, l, 0, None);
      var here := if n - i > l then Expanded(n - i - l, subLen, 1) else 0;
      var later := Expanded(n - i, subLen, l + 1);
      if n - i > l {
        var rest := Split(q, n, i + l, subLen, 1, None);
        SplitSizeFrom(q, n, i + l, subLen, 1, None);
        JoinSize(phrase, rest);
        JoinSize(top, MkAnd(phrase, rest));
        SplitSizeFrom(q, n, i, subLen, l + 1, MkOr(top, MkAnd(phrase, rest)));
      } else {
        JoinSize(top, phrase);
        SplitSizeFrom(q, n, i, subLen, l + 1, MkOr(top, phrase));
      }
      Distribute(here, later, Fields(q));
    }
  }

  lemma Distribute(a: nat, b: nat, f: nat)
    ensures (1 + a + b) * f == f + a * f + b * f
  {
  }

  lemma {:induction false} ExpandedSingle(sz: nat)
    ensures Expanded(sz, 1, 1) == sz
  {
    if sz > 0 {
      assert Expanded(sz, 1, 2) == 0;
      if sz > 1 {
        ExpandedSingle(sz - 1);
      }
    }
  }

  /** The chosen sub-phrase length keeps the expansion small. */
  lemma ExpandedBound(n: nat)
    requires n >= 1
    ensures Expanded(n, SubLen(n), 1) <= if n > 32 then n else 32
  {
    if n >= 7 {
      ExpandedSingle(n);
    } else if n >= 5 {
      ExpandedPairs();
    } else {
      ExpandedTriples();
    }
  }

  lemma ExpandedPairs()
    ensures Expanded(5, 2, 1) == 19 && Expanded(6, 2, 1) == 32
  {
    assert Expanded(1, 2, 1) == 1;
    assert Expanded(2, 2, 1) == 3 by { assert Expanded(2, 2, 2) == 1; }
    assert Expanded(3, 2, 1) == 6 by { assert Expanded(3, 2, 2) == 2; }
    assert Expanded(4, 2, 1) == 11 by { assert Expanded(4, 2, 2) == 4; }
    assert Expanded(5, 2, 1) == 19 by { assert Expanded(5, 2, 2) == 7; }
    assert Expanded(6, 2, 1) == 32 by { assert Expanded(6, 2, 2) == 12; }
  }

  lemma ExpandedTriples()
    ensures Expanded(1, 3, 1) == 1 && Expanded(2, 3, 1) == 3
    ensures Expanded(3, 3, 1) == 7 && Expanded(4, 3, 1) == 14
  {
    assert Expanded(2, 3, 1) == 3 by { assert Expanded(2, 3, 2) == 1; }
    assert Expanded(3, 3, 1) == 7 by { assert Expanded(3, 3, 3) == 1; assert Expanded(3, 3, 2) == 3; }
    assert Expanded(4, 3, 1) == 14 by { assert Expanded(4, 3, 3) == 2; assert Expanded(4, 3, 2) == 6; }
  }

  // ---- main results

  /** Short phrases have up to three tokens, fewer if there are five tokens or more. There is a tree exactly if
      every short phrase can be made; it is true exactly if the tokens can be cut into consecutive short phrases
      that all match; and it has at most max(32, n) phrases, each
      with one term for every use attribute. */
  lemma SplitDenotesSegmentation(q: Qualifier, n: nat, m: Match)
    requires n >= 1
    ensures (n <= 4 ==> SubLen(n) == 3) && (5 <= n <= 6 ==> SubLen(n) == 2) && (n >= 7 ==> SubLen(n) == 1)
    ensures var p := Split(q, n, 0, SubLen(n), 1, None);
            && (p.Some? <==> forall i: nat, l :: 1 <= l <= SubLen(n) && i + l <= n ==> PhraseMade(q, i, l))
            && (p.Some? ==> (Eval(p.value, m) <==> Cuttable(q, n, 0, SubLen(n), m)))
            && (p.Some? ==> Terms(p.value) <= (if n > 32 then n else 32) * Fields(q))
  {
    hide Segmentable;
    var p := Split(q, n, 0, SubLen(n), 1, None);
    SplitMadeFrom(q, n, 0, SubLen(n), 1, None);
    if p.Some? {
      SplitMeaningFrom(q, n, 0, SubLen(n), 1, None, m);
      SplitSizeFrom(q, n, 0, SubLen(n), 1, None);
      ExpandedBound(n);
      Scale(Expanded(n, SubLen(n), 1), if n > 32 then n else 32, Fields(q));
      AnyCut(q, n, 0, SubLen(n), m);
    }
  }

  lemma AnyCut(q: Qualifier, n: nat, i: nat, subLen: nat, m: Match)
    requires i < n
    ensures Segmentable(q, n, i, subLen, 1, m) <==> Cuttable(q, n, i, subLen, m)
  {
    if cuts: seq<nat> :| Segmentation(q, n, i, subLen, cuts, m) {
      assert cuts != [] && cuts[0] >= 1;
    }
  }

  lemma Scale(a: nat, b: nat, f: nat)
    requires a <= b
    ensures a * f <= b * f
  {
  }
}
