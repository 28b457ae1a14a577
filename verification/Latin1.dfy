/** The composing ISO-8859-1 encoder, src/iconv_encode_iso_8859_1.c, and the loop of src/siconv.c that
    feeds it. Characters are unsigned numbers; an output buffer is the number of its free octets. */
module Latin1 {
  import opened Bytes

  /** A base character, a combining character and the octet they compose to. */
  datatype Pair = Pair(x1: nat, x2: nat, y: byte)

  const ENTRIES := 53

  /** latin1_comb. */
  function Entry(i: nat): Pair
    requires i < ENTRIES
  {
    match i
    case 0 => Pair(0x41, 0x300, 0xc0)
    case 1 => Pair(0x41, 0x301, 0xc1)
    case 2 => Pair(0x41, 0x302, 0xc2)
    case 3 => Pair(0x41, 0x303, 0xc3)
    case 4 => Pair(0x41, 0x308, 0xc4)
    case 5 => Pair(0x41, 0x30a, 0xc5)
    case 6 => Pair(0x43, 0x327, 0xc7)
    case 7 => Pair(0x45, 0x300, 0xc8)
    case 8 => Pair(0x45, 0x301, 0xc9)
    case 9 => Pair(0x45, 0x302, 0xca)
    case 10 => Pair(0x45, 0x308, 0xcb)
    case 11 => Pair(0x49, 0x300, 0xcc)
    case 12 => Pair(0x49, 0x301, 0xcd)
    case 13 => Pair(0x49, 0x302, 0xce)
    case 14 => Pair(0x49, 0x308, 0xcf)
    case 15 => Pair(0x4e, 0x303, 0xd1)
    case 16 => Pair(0x4f, 0x300, 0xd2)
    case 17 => Pair(0x4f, 0x301, 0xd3)
    case 18 => Pair(0x4f, 0x302, 0xd4)
    case 19 => Pair(0x4f, 0x303, 0xd5)
    case 20 => Pair(0x4f, 0x308, 0xd6)
    case 21 => Pair(0x55, 0x300, 0xd9)
    case 22 => Pair(0x55, 0x301, 0xda)
    case 23 => Pair(0x55, 0x302, 0xdb)
    case 24 => Pair(0x55, 0x308, 0xdc)
    case 25 => Pair(0x59, 0x301, 0xdd)
    case 26 => Pair(0x61, 0x300, 0xe0)
    case 27 => Pair(0x61, 0x301, 0xe1)
    case 28 => Pair(0x61, 0x302, 0xe2)
    case 29 => Pair(0x61, 0x303, 0xe3)
    case 30 => Pair(0x61, 0x308, 0xe4)
    case 31 => Pair(0x61, 0x30a, 0xe5)
    case 32 => Pair(0x63, 0x327, 0xe7)
    case 33 => Pair(0x65, 0x300, 0xe8)
    case 34 => Pair(0x65, 0x301, 0xe9)
    case 35 => Pair(0x65, 0x302, 0xea)
    case 36 => Pair(0x65, 0x308, 0xeb)
    case 37 => Pair(0x69, 0x300, 0xec)
    case 38 => Pair(0x69, 0x301, 0xed)
    case 39 => Pair(0x69, 0x302, 0xee)
    case 40 => Pair(0x69, 0x308, 0xef)
    case 41 => Pair(0x6e, 0x303, 0xf1)
    case 42 => Pair(0x6f, 0x300, 0xf2)
    case 43 => Pair(0x6f, 0x301, 0xf3)
    case 44 => Pair(0x6f, 0x302, 0xf4)
    case 45 => Pair(0x6f, 0x303, 0xf5)
    case 46 => Pair(0x6f, 0x308, 0xf6)
    case 47 => Pair(0x75, 0x300, 0xf9)
    case 48 => Pair(0x75, 0x301, 0xfa)
    case 49 => Pair(0x75, 0x302, 0xfb)
    case 50 => Pair(0x75, 0x308, 0xfc)
    case 51 => Pair(0x79, 0x301, 0xfd)
    case _ => Pair(0x79, 0x308, 0xff)
  }

  /** Characters that are held back, since a combining character may follow. */
  predicate IsBase(x: nat) { 32 < x < 127 }

  lemma TableRanges()
    ensures forall k: nat :: k < ENTRIES ==> IsBase(Entry(k).x1) && Entry(k).x2 > 255 && 0xc0 <= Entry(k).y
  {
  }

  function Key(p: Pair): nat { p.x1 * 0x10000 + p.x2 }

  lemma TableStep(k: nat)
    requires k + 1 < ENTRIES
    ensures Entry(k).y < Entry(k + 1).y && Key(Entry(k)) < Key(Entry(k + 1))
  {
  }

  lemma {:induction false} TableSorted(j: nat, k: nat)
    requires j < k < ENTRIES
    ensures Entry(j).y < Entry(k).y && Key(Entry(j)) < Key(Entry(k))
  {
    hide Entry;
    if j + 1 < k {
      TableSorted(j, k - 1);
    }
    TableStep(k - 1);
  }

  // ---- table lookups

  /** Position of the first entry from `i` on that composes x1 and x2. */
  function FindX12(x1: nat, x2: nat, i: nat): (k: nat)
    requires i <= ENTRIES
    ensures i <= k <= ENTRIES
    ensures k < ENTRIES ==> Entry(k).x1 == x1 && Entry(k).x2 == x2
    ensures forall m :: i <= m < k ==> Entry(m).x1 != x1 || Entry(m).x2 != x2
    decreases ENTRIES - i
  {
    hide Entry;
    if i == ENTRIES || (Entry(i).x1 == x1 && Entry(i).x2 == x2) then i else FindX12(x1, x2, i + 1)
  }

  /** The octet that x1 and x2 compose to. */
  function Compose(x1: nat, x2: nat): (y: Option<byte>)
    ensures y.Some? ==> IsBase(x1) && x2 > 255 && 0xc0 <= y.value
  {
    hide Entry;
    TableRanges();
    var k := FindX12(x1, x2, 0);
    if k < ENTRIES then Some(Entry(k).y) else None
  }

  // ---- what the table composes

  /** The first of the accented forms of a capital letter in ISO-8859-1, and the accents in the order of the
      forms that follow. */
  function FirstForm(u: nat): byte {
    match u
    case 0x41 => 0xc0
    case 0x43 => 0xc7
    case 0x45 => 0xc8
    case 0x49 => 0xcc
    case 0x4e => 0xd1
    case 0x4f => 0xd2
    case 0x55 => 0xd9
    case _ => 0xdd
  }

  const GRAVE := 0x300
  const ACUTE := 0x301
  const CIRCUMFLEX := 0x302
  const TILDE := 0x303
  const DIAERESIS := 0x308
  const RING := 0x30a
  const CEDILLA := 0x327

  function Accents(u: nat): seq<nat> {
    match u
    case 0x41 => [GRAVE, ACUTE, CIRCUMFLEX, TILDE, DIAERESIS, RING]
    case 0x43 => [CEDILLA]
    case 0x45 => [GRAVE, ACUTE, CIRCUMFLEX, DIAERESIS]
    case 0x49 => [GRAVE, ACUTE, CIRCUMFLEX, DIAERESIS]
    case 0x4e => [TILDE]
    case 0x4f => [GRAVE, ACUTE, CIRCUMFLEX, TILDE, DIAERESIS]
    case 0x55 => [GRAVE, ACUTE, CIRCUMFLEX, DIAERESIS]
    case 0x59 => [ACUTE]
    case _ => []
  }

  function Capital(x: nat): nat { if 97 <= x <= 122 then x - 32 else x }

  /** The letter `x1` with the accent `x2` is the octet `y`: small letters are 32 behind capitals, and there is
      no capital Y with diaeresis. */
  predicate IsAccented(x1: nat, x2: nat, y: byte) {
    || (x1 == 0x79 && x2 == DIAERESIS && y == 0xff)
    || (var u := Capital(x1);
        exists j :: 0 <= j < |Accents(u)| && Accents(u)[j] == x2 && y == FirstForm(u) + j + (x1 - u))
  }

  lemma CapitalAccented(k: nat)
    requires k < 26
    ensures var e := Entry(k); IsAccented(e.x1, e.x2, e.y)
  {
    var e := Entry(k);
    var j := e.y - FirstForm(e.x1);
    assert 0 <= j < |Accents(e.x1)| && Accents(e.x1)[j] == e.x2;
    AccentedAt(e.x1, e.x2, e.y, j);
  }

  lemma SmallAccented(k: nat)
    requires 26 <= k < 52
    ensures var e := Entry(k); IsAccented(e.x1, e.x2, e.y)
  {
    var e := Entry(k);
    var u := e.x1 - 32;
    var j := e.y - FirstForm(u) - 32;
    assert 0 <= j < |Accents(u)| && Accents(u)[j] == e.x2;
    AccentedAt(e.x1, e.x2, e.y, j);
  }

  lemma AccentedAt(x1: nat, x2: nat, y: byte, j: nat)
    requires var u := Capital(x1); j < |Accents(u)| && Accents(u)[j] == x2 && y == FirstForm(u) + j + (x1 - u)
    ensures IsAccented(x1, x2, y)
  {
  }

  lemma EntryIsAccented(k: nat)
    requires k < ENTRIES
    ensures IsAccented(Entry(k).x1, Entry(k).x2, Entry(k).y)
  {
    if k < 26 {
      hide Entry, IsAccented;
      CapitalAccented(k);
    } else if k < 52 {
      hide Entry, IsAccented;
      SmallAccented(k);
    }
  }

  /** Where the table has the forms of a letter. */
  function FirstEntry(u: nat): nat {
    match u
    case 0x41 => 0
    case 0x43 => 6
    case 0x45 => 7
    case 0x49 => 11
    case 0x4e => 15
    case 0x4f => 16
    case 0x55 => 21
    case _ => 25
  }

  lemma CapitalEntry(u: nat, j: nat)
    requires j < |Accents(u)|
    ensures 0x41 <= u <= 0x59 && FirstEntry(u) + j < 26
    ensures Entry(FirstEntry(u) + j) == Pair(u, Accents(u)[j], FirstForm(u) + j)
  {
  }

  lemma SmallEntry(u: nat, j: nat)
    requires j < |Accents(u)|
    ensures FirstEntry(u) + j < 26
    ensures Entry(FirstEntry(u) + j + 26) == Pair(u + 32, Accents(u)[j], FirstForm(u) + j + 32)
  {
  }

  lemma LastEntry()
    ensures Entry(52) == Pair(0x79, DIAERESIS, 0xff)
  {
  }

  lemma AccentedHasEntry(x1: nat, x2: nat, y: byte) returns (k: nat)
    requires IsAccented(x1, x2, y)
    ensures k < ENTRIES && Entry(k) == Pair(x1, x2, y)
  {
    hide Entry, Accents, FirstForm, FirstEntry;
    if x1 == 0x79 && x2 == DIAERESIS && y == 0xff {
      k := 52;
      LastEntry();
    } else {
      var u := Capital(x1);
      var j: nat :| j < |Accents(u)| && Accents(u)[j] == x2 && y == FirstForm(u) + j + (x1 - u);
      k := FirstEntry(u) + j + (if u < x1 then 26 else 0);
      CapitalEntry(u, j);
      SmallEntry(u, j);
    }
  }

  /** Two characters compose if and only if they are a letter and an accent that ISO-8859-1 has together. */
  lemma ComposeExactly(x1: nat, x2: nat, y: byte)
    ensures Compose(x1, x2) == Some(y) <==> IsAccented(x1, x2, y)
  {
    hide Entry, IsAccented;
    var k := FindX12(x1, x2, 0);
    if k < ENTRIES { EntryIsAccented(k); }
    if IsAccented(x1, x2, y) {
      var m := AccentedHasEntry(x1, x2, y);
      if k < m { TableSorted(k, m); }
    }
  }

  /** yaz_iso_8859_1_lookup_x12. */
  method LookupX12(x1: nat, x2: nat) returns (y: Option<byte>)
    ensures y == Compose(x1, x2)
  {
    hide Entry, FindX12;
    var i := 0;
    while i < ENTRIES
      invariant i <= ENTRIES
      invariant FindX12(x1, x2, 0) == FindX12(x1, x2, i)
    {
      FindX12Step(x1, x2, i);
      if x2 == Entry(i).x2 && x1 == Entry(i).x1 {
        return Some(Entry(i).y);
      }
      i := i + 1;
    }
    FindX12Step(x1, x2, i);
    y := None;
  }

  lemma FindX12Step(x1: nat, x2: nat, i: nat)
    requires i <= ENTRIES
    ensures FindX12(x1, x2, i) ==
              if i == ENTRIES || (Entry(i).x1 == x1 && Entry(i).x2 == x2) then i else FindX12(x1, x2, i + 1)
  {
    hide Entry;
  }

  /** yaz_iso_8859_1_lookup_y: the one pair that composes to `v`, if there is one. */
  method LookupY(v: nat) returns (p: Option<(nat, nat)>)
    ensures p.Some? ==> Compose(p.value.0, p.value.1) == Some(v)
    ensures forall x1: nat, x2: nat :: Compose(x1, x2) == Some(v) ==> p == Some((x1, x2))
  {
    hide Entry, Compose;
    forall x1: nat, x2: nat | Compose(x1, x2) == Some(v)
      ensures 0xc0 <= v <= 0xff && exists k: nat :: k < ENTRIES && Entry(k) == Pair(x1, x2, v)
    {
      ComposeIsEntry(x1, x2, v);
    }
    p := None;
    if v >= 0xc0 && v <= 0xff {
      var i := 0;
      while i < ENTRIES
        invariant i <= ENTRIES
        invariant forall k: nat :: k < i ==> Entry(k).y != v
      {
        if v == Entry(i).y {
          EntryComposes(i);
          EntryUnique(i);
          return Some((Entry(i).x1, Entry(i).x2));
        }
        i := i + 1;
      }
    }
  }

  lemma ComposeIsEntry(x1: nat, x2: nat, v: nat)
    requires Compose(x1, x2) == Some(v)
    ensures 0xc0 <= v <= 0xff && exists k: nat :: k < ENTRIES && Entry(k) == Pair(x1, x2, v)
  {
    hide Entry;
    var k := FindX12(x1, x2, 0);
    assert Entry(k) == Pair(x1, x2, v);
  }

  lemma EntryComposes(i: nat)
    requires i < ENTRIES
    ensures Compose(Entry(i).x1, Entry(i).x2) == Some(Entry(i).y)
  {
    hide Entry;
    var k := FindX12(Entry(i).x1, Entry(i).x2, 0);
    if k < i { TableSorted(k, i); }
  }

  lemma EntryUnique(i: nat)
    requires i < ENTRIES
    ensures forall k: nat :: k < ENTRIES && Entry(k).y == Entry(i).y ==> k == i
  {
    hide Entry;
    forall k: nat | k < ENTRIES && Entry(k).y == Entry(i).y ensures k == i {
      if k < i { TableSorted(k, i); }
      if i < k { TableSorted(i, k); }
    }
  }

  // ---- the encoder

  datatype Status = Ok | TooBig | Illegal

  /** Octets written, the character held back (0 for none) and the outcome. */
  datatype Step = Step(out: seq<byte>, held: nat, status: Status)

  /** What the encoder may hold back. */
  predicate Held(held: nat) { held == 0 || IsBase(held) }

  /** write_iso_8859_1 once the held character is out of the way: `out` is already written. */
  function Put(out: seq<byte>, x: nat, room: nat): Step {
    if IsBase(x) then Step(out, x, Ok)
    else if x > 255 || x < 1 then Step(out, 0, Illegal)
    else if |out| >= room then Step(out, 0, TooBig)
    else Step(out + [x], 0, Ok)
  }

  /** write_iso_8859_1. */
  function WriteChar(held: nat, x: nat, room: nat): (s: Step)
    requires Held(held)
    ensures Held(s.held) && |s.out| <= room
    ensures s.status == TooBig ==> |s.out| == room
  {
    if held == 0 then Put([], x, room)
    else if room < 1 then Step([], held, TooBig)
    else
      match Compose(held, x)
      case Some(y) => Put([], y, room)
      case None => Put([held], x, room)
  }

  /** flush_iso_8859_1. */
  function FlushChar(held: nat, room: nat): Step
    requires Held(held)
  {
    if held == 0 then Step([], 0, Ok)
    else if room < 1 then Step([], held, TooBig)
    else Step([held], 0, Ok)
  }

  /** One call of yaz_iconv with input: what is written, what is held back, and the characters left
      over when the buffer is full. NUL is not passed on and illegal characters are passed over. */
  datatype Call = Call(out: seq<byte>, held: nat, rest: seq<nat>)

  function Convert(held: nat, xs: seq<nat>, room: nat): (c: Call)
    requires Held(held)
    ensures Held(c.held) && |c.out| <= room
    ensures c.rest != [] ==> |c.out| == room
    decreases |xs|
  {
    if xs == [] then Call([], held, [])
    else if xs[0] == 0 then Convert(held, xs[1..], room)
    else
      var s := WriteChar(held, xs[0], room);
      if s.status == TooBig then Call(s.out, s.held, xs)
      else
        var c := Convert(s.held, xs[1..], room - |s.out|);
        Call(s.out + c.out, c.held, c.rest)
  }

  // ---- greedy pairwise composition

  function NonNul(xs: seq<nat>): seq<nat> {
    if xs == [] then [] else (if xs[0] == 0 then [] else [xs[0]]) + NonNul(xs[1..])
  }

  /** From the left: a pair that composes becomes one octet, another ISO-8859-1 character itself, and
      any other character nothing. */
  function Greedy(xs: seq<nat>): seq<byte> {
    if xs == [] then []
    else if |xs| > 1 && Compose(xs[0], xs[1]).Some? then [Compose(xs[0], xs[1]).value] + Greedy(xs[2..])
    else (if 1 <= xs[0] <= 255 then [xs[0]] else []) + Greedy(xs[1..])
  }

  /** The held character, if there is one, in front of what follows. */
  function Pending(held: nat, xs: seq<nat>): seq<nat> {
    if held == 0 then xs else [held] + xs
  }

  /** One character: what is written and what then remains to be written make up the whole. */
  lemma WriteCharGreedy(held: nat, x: nat, room: nat, rest: seq<nat>)
    requires Held(held)
    ensures var s := WriteChar(held, x, room);
            Greedy(Pending(held, [x] + rest)) ==
              s.out + Greedy(Pending(s.held, if s.status == TooBig then [x] + rest else rest))
  {
    var s := WriteChar(held, x, room);
    if held == 0 {
      PutGreedy([], x, room, rest);
    } else if room >= 1 {
      var xs := [held, x] + rest;
      assert [held] + ([x] + rest) == xs && xs[1..] == [x] + rest && xs[2..] == rest;
      match Compose(held, x)
      case Some(y) =>
        assert Greedy(xs) == [y] + Greedy(rest);
        assert [] + [y] == [y];
      case None =>
        assert Greedy(xs) == [held] + Greedy([x] + rest);
        PutGreedy([held], x, room, rest);
    }
  }

  lemma PutGreedy(out: seq<byte>, x: nat, room: nat, rest: seq<nat>)
    ensures var s := Put(out, x, room);
            out + Greedy([x] + rest) ==
              s.out + Greedy(Pending(s.held, if s.status == TooBig then [x] + rest else rest))
  {
    hide Greedy, Compose;
    if !IsBase(x) {
      GreedyStep(x, rest);
    }
  }

  lemma GreedyStep(x: nat, rest: seq<nat>)
    requires !IsBase(x)
    ensures Greedy([x] + rest) == (if 1 <= x <= 255 then [x] else []) + Greedy(rest)
  {
    var xs := [x] + rest;
    assert xs[1..] == rest;
    assert |xs| > 1 ==> Compose(xs[0], xs[1]).None?;
  }

  lemma GreedyWrites(xs: seq<nat>)
    requires xs != [] && 1 <= xs[0] <= 255
    ensures |Greedy(xs)| > 0
  {
  }

  lemma NonNulStep(xs: seq<nat>)
    requires xs != []
    ensures NonNul(xs) == if xs[0] == 0 then NonNul(xs[1..]) else [xs[0]] + NonNul(xs[1..])
  {
    assert [] + NonNul(xs[1..]) == NonNul(xs[1..]);
  }

  /** One call, whatever its buffer: what it writes, followed by the composition of what it holds back
      and leaves over, is the composition of what it was given. */
  lemma {:induction false} ConvertGreedy(held: nat, xs: seq<nat>, room: nat)
    requires Held(held)
    ensures var c := Convert(held, xs, room);
            Greedy(Pending(held, NonNul(xs))) == c.out + Greedy(Pending(c.held, NonNul(c.rest)))
    decreases |xs|
  {
    hide WriteChar, Greedy, Pending, NonNul;
    if xs == [] {
      NonNulEmpty();
    } else {
      NonNulStep(xs);
      if xs[0] == 0 {
        ConvertGreedy(held, xs[1..], room);
      } else {
        var s := WriteChar(held, xs[0], room);
        WriteCharGreedy(held, xs[0], room, NonNul(xs[1..]));
        if s.status != TooBig {
          ConvertGreedy(s.held, xs[1..], room - |s.out|);
        }
      }
    }
  }

  /** A call that leaves characters over has at least one more octet to write. */
  lemma {:induction false} LeftOver(held: nat, xs: seq<nat>, room: nat)
    requires Held(held) && Convert(held, xs, room).rest != []
    ensures var c := Convert(held, xs, room); |Greedy(Pending(c.held, NonNul(c.rest)))| > 0
    decreases |xs|
  {
    hide Greedy, Compose, NonNul;
    NonNulStep(xs);
    if xs[0] == 0 {
      LeftOver(held, xs[1..], room);
    } else {
      var s := WriteChar(held, xs[0], room);
      if s.status == TooBig {
        GreedyWrites(Pending(s.held, NonNul(xs)));
      } else {
        LeftOver(s.held, xs[1..], room - |s.out|);
      }
    }
  }

  // ---- whole runs

  /** Calls with the given buffer sizes, the characters left over by one given to the next. */
  function Calls(held: nat, xs: seq<nat>, sizes: seq<nat>): (c: Call)
    requires Held(held)
    ensures Held(c.held)
    decreases |sizes|
  {
    if sizes == [] then Call([], held, xs)
    else
      var first := Convert(held, xs, sizes[0]);
      var more := Calls(first.held, first.rest, sizes[1..]);
      Call(first.out + more.out, more.held, more.rest)
  }

  function Sum(sizes: seq<nat>): nat {
    if sizes == [] then 0 else sizes[0] + Sum(sizes[1..])
  }

  lemma {:induction false} CallsGreedy(held: nat, xs: seq<nat>, sizes: seq<nat>)
    requires Held(held)
    ensures var c := Calls(held, xs, sizes);
            && Greedy(Pending(held, NonNul(xs))) == c.out + Greedy(Pending(c.held, NonNul(c.rest)))
            && (c.rest != [] ==> |c.out| == Sum(sizes))
    decreases |sizes|
  {
    hide Convert, Greedy, Pending, NonNul;
    if sizes != [] {
      var first := Convert(held, xs, sizes[0]);
      ConvertGreedy(held, xs, sizes[0]);
      CallsGreedy(first.held, first.rest, sizes[1..]);
      if first.rest == [] {
        NothingLeft(first.held, sizes[1..]);
      }
    }
  }

  lemma {:induction false} NothingLeft(held: nat, sizes: seq<nat>)
    requires Held(held)
    ensures Calls(held, [], sizes) == Call([], held, [])
  {
    if sizes != [] {
      NothingLeft(held, sizes[1..]);
    }
  }

  lemma {:induction false} CallsLeftOver(held: nat, xs: seq<nat>, sizes: seq<nat>)
    requires Held(held) && sizes != [] && Calls(held, xs, sizes).rest != []
    ensures var c := Calls(held, xs, sizes); |Greedy(Pending(c.held, NonNul(c.rest)))| > 0
    decreases |sizes|
  {
    hide Convert, Greedy, Pending, NonNul;
    var first := Convert(held, xs, sizes[0]);
    if |sizes| == 1 {
      LeftOver(held, xs, sizes[0]);
    } else {
      CallsLeftOver(first.held, first.rest, sizes[1..]);
    }
  }

  /** Every run, from a fresh encoder and with any buffer sizes: what was written is the beginning of
      the composition of the characters; if all were taken, a flush with room for one octet completes
      it; and if not, every buffer was filled and together they were too small. */
  lemma RestartTransparent(xs: seq<nat>, sizes: seq<nat>, room: nat)
    requires sizes != [] && room >= 1
    ensures var c := Calls(0, xs, sizes);
            && (c.rest == [] ==> c.out + FlushChar(c.held, room).out == Greedy(NonNul(xs)))
            && (c.rest != [] ==> |c.out| == Sum(sizes) < |Greedy(NonNul(xs))|)
            && (c.rest != [] ==> c.out == Greedy(NonNul(xs))[..Sum(sizes)])
  {
    hide Calls, NonNul, Greedy, FlushChar;
    CallsGreedy(0, xs, sizes);
    var c := Calls(0, xs, sizes);
    if c.rest == [] {
      NonNulEmpty();
      FlushGreedy(c.held, room);
    } else {
      CallsLeftOver(0, xs, sizes);
    }
  }

  lemma FlushGreedy(held: nat, room: nat)
    requires Held(held) && room >= 1
    ensures Greedy(Pending(held, [])) == FlushChar(held, room).out
  {
    assert held != 0 ==> Greedy([held]) == [held] + Greedy([]);
  }

  lemma NonNulEmpty()
    ensures NonNul([]) == []
  {
  }

  /** The same octets as with one unlimited buffer. */
  lemma SameAsUnlimited(xs: seq<nat>, sizes: seq<nat>, big: nat, room: nat)
    requires sizes != [] && room >= 1 && Calls(0, xs, sizes).rest == [] && big > |Greedy(NonNul(xs))|
    ensures Convert(0, xs, big).rest == []
    ensures Calls(0, xs, sizes).out + FlushChar(Calls(0, xs, sizes).held, room).out ==
              Convert(0, xs, big).out + FlushChar(Convert(0, xs, big).held, room).out
  {
    hide Convert, NonNul, Greedy, FlushChar;
    RestartTransparent(xs, sizes, room);
    RestartTransparent(xs, [big], room);
    OneCall(xs, big);
  }

  lemma OneCall(xs: seq<nat>, big: nat)
    ensures Calls(0, xs, [big]) == Convert(0, xs, big) && Sum([big]) == big
  {
    hide Convert;
    var c := Convert(0, xs, big);
    assert [big][1..] == [];
    assert Calls(c.held, c.rest, []) == Call([], c.held, c.rest);
    assert c.out + [] == c.out;
  }

  // ---- finishing while a character is still to be retried

  /** yaz_iconv without input: a character saved after E2BIG is written, then the encoder flushed; only
      the outcome of the flush is reported. */
  function Finish(held: nat, saved: nat, room: nat): Step
    requires Held(held)
  {
    if saved == 0 then FlushChar(held, room)
    else
      var s := WriteChar(held, saved, room);
      var f := FlushChar(s.held, room - |s.out|);
      Step(s.out + f.out, f.held, f.status)
  }

  /** Nothing is missing exactly if the buffer has room for all that is pending. */
  lemma FinishExact(held: nat, saved: nat, room: nat)
    requires Held(held) && saved != 0
    ensures var all := Greedy(Pending(held, [saved]));
            Finish(held, saved, room).out == all <==> room >= |all|
  {
    hide Compose, Greedy;
    GreedyPending(held, saved);
  }

  lemma GreedyPending(held: nat, x: nat)
    requires Held(held) && x != 0
    ensures Greedy(Pending(held, [x])) ==
              if held != 0 && Compose(held, x).Some? then [Compose(held, x).value]
              else (if held != 0 then [held] else []) + if x <= 255 then [x] else []
  {
    hide Compose;
    assert Greedy([]) == [];
    assert Greedy([x]) == (if x <= 255 then [x] else []) + [];
    if held != 0 {
      var xs := [held, x];
      assert [held] + [x] == xs && xs[1..] == [x] && xs[2..] == [];
    }
  }

  /** Otherwise the saved character can be lost although success is reported. */
  lemma SavedCharacterLost()
    ensures exists held: nat, saved: nat, room: nat :: Held(held) &&
              Finish(held, saved, room).status == Ok && Finish(held, saved, room).held == 0 &&
              Finish(held, saved, room).out != Greedy(Pending(held, [saved]))
  {
    hide Entry, Greedy;
    var held, saved, room: nat := 65, 0xe9, 1;
    assert Compose(held, saved).None?;
    GreedyPending(held, saved);
    FinishExact(held, saved, room);
    assert Held(held) && Finish(held, saved, room) == Step([65], 0, Ok);
  }

  // ---- the converter

  /** The call once `out` is written and the characters `xs` remain. */
  ghost function Resume(out: seq<byte>, held: nat, xs: seq<nat>, room: nat): Call
    requires Held(held) && |out| <= room
  {
    var c := Convert(held, xs, room - |out|);
    Call(out + c.out, c.held, c.rest)
  }

  lemma ResumeStart(held: nat, xs: seq<nat>, room: nat)
    requires Held(held)
    ensures Resume([], held, xs, room) == Convert(held, xs, room)
  {
    hide Convert;
    var c := Convert(held, xs, room);
    assert [] + c.out == c.out;
  }

  lemma ResumeStep(out: seq<byte>, held: nat, xs: seq<nat>, room: nat)
    requires Held(held) && |out| <= room
    ensures xs == [] ==> Resume(out, held, xs, room) == Call(out, held, [])
    ensures xs != [] && xs[0] == 0 ==> Resume(out, held, xs, room) == Resume(out, held, xs[1..], room)
    ensures xs != [] && xs[0] != 0 ==>
              var s := WriteChar(held, xs[0], room - |out|);
              Resume(out, held, xs, room) ==
                if s.status == TooBig then Call(out + s.out, s.held, xs)
                else Resume(out + s.out, s.held, xs[1..], room)
  {
    hide WriteChar;
    if xs == [] {
      assert out + [] == out;
    } else if xs[0] != 0 {
      var s := WriteChar(held, xs[0], room - |out|);
      if s.status != TooBig {
        var c := Convert(s.held, xs[1..], room - |out| - |s.out|);
        assert out + (s.out + c.out) == out + s.out + c.out;
      }
    }
  }

  class Converter {
    /** compose_char of the encoder. */
    var composeChar: nat
    /** unget_x: the character that did not fit. */
    var saved: nat

    ghost predicate Valid()
      reads this
    {
      Held(composeChar)
    }

    constructor ()
      ensures Valid() && composeChar == 0 && saved == 0
    {
      composeChar, saved := 0, 0;
    }

    /** write_iso_8859_1. */
    method Write(c: nat, room: nat) returns (out: seq<byte>, status: Status)
      requires Valid()
      modifies this`composeChar
      ensures Valid() && Step(out, composeChar, status) == WriteChar(old(composeChar), c, room)
    {
      hide Compose;
      var x := c;
      out := [];
      if composeChar != 0 {
        var y := LookupX12(composeChar, x);
        if room < 1 {
          return [], TooBig;
        }
        if y.Some? {
          x := y.value;
        } else {
          out := [composeChar];
        }
        composeChar := 0;
      }
      if IsBase(x) {
        composeChar := x;
        return out, Ok;
      } else if x > 255 || x < 1 {
        return out, Illegal;
      } else if room - |out| < 1 {
        return out, TooBig;
      }
      return out + [x], Ok;
    }

    /** flush_iso_8859_1. */
    method Flush(room: nat) returns (out: seq<byte>, status: Status)
      requires Valid()
      modifies this`composeChar
      ensures Valid() && Step(out, composeChar, status) == FlushChar(old(composeChar), room)
    {
      out := [];
      if composeChar != 0 {
        if room < 1 {
          return [], TooBig;
        }
        out := [composeChar];
        composeChar := 0;
      }
      status := Ok;
    }

    /** yaz_iconv with input: `taken` characters are consumed; the caller passes the others again. */
    method ConvertInput(xs: seq<nat>, room: nat) returns (out: seq<byte>, taken: nat)
      requires Valid() && (saved != 0 ==> xs != [] && xs[0] == saved)
      modifies this
      ensures Valid() && taken <= |xs|
      ensures Call(out, composeChar, xs[taken..]) == Convert(old(composeChar), xs, room)
      ensures saved == if taken < |xs| then xs[taken] else 0
    {
      hide WriteChar, Convert, Resume;
      ResumeStart(composeChar, xs, room);
      assert xs[0..] == xs;
      out, taken := [], 0;
      while true
        invariant Valid() && taken <= |xs| && |out| <= room
        invariant saved != 0 ==> taken < |xs| && xs[taken] == saved
        invariant Convert(old(composeChar), xs, room) == Resume(out, composeChar, xs[taken..], room)
        decreases |xs| - taken
      {
        ResumeStep(out, composeChar, xs[taken..], room);
        var x: nat;
        if saved != 0 {
          x := saved;
        } else if taken == |xs| {
          return;
        } else {
          x := xs[taken];
        }
        assert xs[taken..][0] == x && xs[taken..][1..] == xs[taken + 1..];
        if x != 0 {
          var more, status := Write(x, room - |out|);
          out := out + more;
          if status == TooBig {
            saved := x;
            return;
          }
          saved := 0;
        }
        taken := taken + 1;
      }
    }

    /** yaz_iconv without input. */
    method FinishOutput(room: nat) returns (out: seq<byte>, status: Status)
      requires Valid()
      modifies this
      ensures Valid() && saved == 0
      ensures Step(out, composeChar, status) == Finish(old(composeChar), old(saved), room)
    {
      hide WriteChar;
      out := [];
      if saved != 0 {
        out, status := Write(saved, room);
      }
      var more;
      more, status := Flush(room - |out|);
      out := out + more;
      saved := 0;
    }
  }
}
