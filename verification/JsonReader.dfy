/** A reader for JSON texts, written from sections 2 to 7 of RFC 8259, and what it
    makes of canonical text. Member order and repeated names are kept as read. */
module JsonReader {
  import opened Wrappers
  import opened CodeUnits
  import opened Sorting
  import opened CanonicalJson

  datatype Reading<+T> = Fail | Got(value: T, rest: Text)

  predicate Whitespace(c: Unit) { c == 0x20 || c == 0x09 || c == 0x0A || c == 0x0D }

  function Skip(t: Text): (r: Text)
    ensures |r| <= |t|
  {
    if t != [] && Whitespace(t[0]) then Skip(t[1..]) else t
  }

  /** The text starts with this character, whitespace aside. */
  predicate At(t: Text, c: Unit) { Skip(t) != [] && Skip(t)[0] == c }

  // --- Strings ------------------------------------------------------------------

  function HexDigitValue(c: Unit): (r: Option<int>)
    ensures r.Some? ==> 0 <= r.value < 16
  {
    if 0x30 <= c <= 0x39 then Some(c - 0x30)
    else if 0x41 <= c <= 0x46 then Some(c - 0x41 + 10)
    else if 0x61 <= c <= 0x66 then Some(c - 0x61 + 10)
    else None
  }

  function FourHexDigits(t: Text): (r: Option<int>)
    requires |t| >= 4
    ensures r.Some? ==> 0 <= r.value < 0x10000
  {
    var a, b, c, d := HexDigitValue(t[0]), HexDigitValue(t[1]), HexDigitValue(t[2]), HexDigitValue(t[3]);
    if a.Some? && b.Some? && c.Some? && d.Some?
    then Some(((a.value * 16 + b.value) * 16 + c.value) * 16 + d.value)
    else None
  }

  /** What a letter after a backslash stands for. */
  function Unescape(c: Unit): Option<Unit> {
    match c
    case 0x22 => Some(0x22)
    case 0x5C => Some(0x5C)
    case 0x2F => Some(0x2F)
    case 0x62 => Some(0x08)
    case 0x66 => Some(0x0C)
    case 0x6E => Some(0x0A)
    case 0x72 => Some(0x0D)
    case 0x74 => Some(0x09)
    case _ => None
  }

  function Prepend(c: Unit, r: Reading<Text>): Reading<Text> {
    if r.Got? then Got([c] + r.value, r.rest) else Fail
  }

  /** A string after its opening quotation mark. */
  function ReadString(t: Text): (r: Reading<Text>)
    ensures r.Got? ==> |r.rest| < |t|
  {
    if t == [] || t[0] < 0x20 then Fail
    else if t[0] == 0x22 then Got([], t[1..])
    else if t[0] != 0x5C then Prepend(t[0], ReadString(t[1..]))
    else if |t| >= 2 && Unescape(t[1]).Some? then Prepend(Unescape(t[1]).value, ReadString(t[2..]))
    else if |t| >= 6 && t[1] == 0x75 && FourHexDigits(t[2..6]).Some? then
      Prepend(FourHexDigits(t[2..6]).value, ReadString(t[6..]))
    else Fail
  }

  // --- Values ---------------------------------------------------------------------

  /** The length of the numeral a text starts with. */
  function NumeralLength(t: Text): (n: nat)
    ensures n <= |t|
  {
    if t != [] && NumeralUnit(t[0]) then 1 + NumeralLength(t[1..]) else 0
  }

  function ReadNumber(t: Text): (r: Reading<Json>)
    ensures r.Got? ==> |r.rest| < |t|
  {
    var n := NumeralLength(t);
    if IsNumeral(t[..n]) then Got(Num(t[..n]), t[n..]) else Fail
  }

  function ReadValue(t: Text): (r: Reading<Json>)
    ensures r.Got? ==> |r.rest| < |t|
    decreases |t|, 2
  {
    var u := Skip(t);
    if u == [] then Fail
    else if u[0] == 0x22 then
      var s := ReadString(u[1..]);
      if s.Got? then Got(Str(s.value), s.rest) else Fail
    else if u[0] == 0x5B then
      if At(u[1..], 0x5D) then Got(Arr([]), Skip(u[1..])[1..])
      else
        var xs := ReadItems(u[1..]);
        if xs.Got? then Got(Arr(xs.value), xs.rest) else Fail
    else if u[0] == 0x7B then
      if At(u[1..], 0x7D) then Got(Obj([]), Skip(u[1..])[1..])
      else
        var ms := ReadMembers(u[1..]);
        if ms.Got? then Got(Obj(ms.value), ms.rest) else Fail
    else if [0x6E, 0x75, 0x6C, 0x6C] <= u then Got(Null, u[4..])
    else if [0x74, 0x72, 0x75, 0x65] <= u then Got(Bool(true), u[4..])
    else if [0x66, 0x61, 0x6C, 0x73, 0x65] <= u then Got(Bool(false), u[5..])
    else ReadNumber(u)
  }

  /** Values separated by commas, up to the closing bracket. */
  function ReadItems(t: Text): (r: Reading<seq<Json>>)
    ensures r.Got? ==> |r.rest| < |t|
    decreases |t|, 3
  {
    var v := ReadValue(t);
    if v.Fail? then Fail
    else if At(v.rest, 0x5D) then Got([v.value], Skip(v.rest)[1..])
    else if At(v.rest, 0x2C) then
      var more := ReadItems(Skip(v.rest)[1..]);
      if more.Got? then Got([v.value] + more.value, more.rest) else Fail
    else Fail
  }

  /** A name, a colon and a value. */
  function ReadMember(t: Text): (r: Reading<Member>)
    ensures r.Got? ==> |r.rest| < |t|
    decreases |t|, 3
  {
    if !At(t, 0x22) then Fail
    else
      var k := ReadString(Skip(t)[1..]);
      if k.Fail? || !At(k.rest, 0x3A) then Fail
      else
        var v := ReadValue(Skip(k.rest)[1..]);
        if v.Got? then Got(Member(k.value, v.value), v.rest) else Fail
  }

  /** Members separated by commas, up to the closing brace. */
  function ReadMembers(t: Text): (r: Reading<seq<Member>>)
    ensures r.Got? ==> |r.rest| < |t|
    decreases |t|, 4
  {
    var m := ReadMember(t);
    if m.Fail? then Fail
    else if At(m.rest, 0x7D) then Got([m.value], Skip(m.rest)[1..])
    else if At(m.rest, 0x2C) then
      var more := ReadMembers(Skip(m.rest)[1..]);
      if more.Got? then Got([m.value] + more.value, more.rest) else Fail
    else Fail
  }

  /** A JSON text: one value, with nothing but whitespace after it. */
  function ReadText(t: Text): Option<Json> {
    var v := ReadValue(t);
    if v.Got? && Skip(v.rest) == [] then Some(v.value) else None
  }

  // ---------------------------------------------------------------------
  // Strings read back
  // ---------------------------------------------------------------------

  lemma {:induction false} HexDigitReads(d: int)
    requires 0 <= d < 16
    ensures HexDigitValue(HexDigit(d)) == Some(d)
  {
  }

  lemma {:induction false} HexReads(c: Unit)
    ensures FourHexDigits(Hex(c)) == Some(c)
  {
    hide HexDigit, HexDigitValue;
    HexValue(c);
    HexDigitReads(c / 4096);
    HexDigitReads(c / 256 % 16);
    HexDigitReads(c / 16 % 16);
    HexDigitReads(c % 16);
  }

  lemma {:induction false} EscapeReads(c: Unit, paired: bool, x: Text)
    ensures ReadString(Escape(c, paired) + x) == Prepend(c, ReadString(x))
  {
    hide HexDigit, FourHexDigits, Prepend;
    var e := Escape(c, paired);
    var t := e + x;
    if |e| == 1 {
      assert t[0] == c && t[1..] == x;
    } else if |e| == 2 {
      assert t[0] == e[0] && t[1] == e[1] && t[2..] == x;
    } else {
      HexReads(c);
      assert t[0] == 0x5C && t[1] == 0x75 && t[2..6] == Hex(c) && t[6..] == x;
    }
  }

  lemma {:induction false} ClosingQuoteReads(x: Text)
    ensures ReadString([QUOTE] + x) == Got([], x)
  {
    assert ([QUOTE] + x)[1..] == x;
  }

  lemma {:induction false} BodyReads(s: Text, i: nat, x: Text)
    requires i <= |s|
    ensures ReadString(Body(s, i) + ([QUOTE] + x)) == Got(s[i..], x)
    decreases |s| - i
  {
    hide Escape, Paired, Body, ReadString;
    BodyUnfolds(s, i);
    var u := [QUOTE] + x;
    if i == |s| {
      assert [] + u == u && s[i..] == [];
      ClosingQuoteReads(x);
    } else {
      var e := Escape(s[i], Paired(s, i));
      assert (e + Body(s, i + 1)) + u == e + (Body(s, i + 1) + u);
      EscapeReads(s[i], Paired(s, i), Body(s, i + 1) + u);
      BodyReads(s, i + 1, x);
      assert s[i..] == [s[i]] + s[i + 1..];
    }
  }

  lemma {:induction false} QuoteReads(s: Text, x: Text)
    ensures var t := Quote(s) + x;
            t != [] && t[0] == QUOTE && ReadString(t[1..]) == Got(s, x)
  {
    hide Body, ReadString;
    BodyReads(s, 0, x);
    assert (Quote(s) + x)[1..] == Body(s, 0) + ([QUOTE] + x);
    assert s[0..] == s;
  }

  // ---------------------------------------------------------------------
  // Values read back
  // ---------------------------------------------------------------------

  /** The value with its members in the order in which they are printed. */
  function Ordered(v: Json): Json
    decreases v, 1
  {
    match v
    case Arr(items) => Arr(OrderedItems(items))
    case Obj(members) => Obj(OrderedMembers(members, SortedKeys(members)))
    case _ => v
  }

  function OrderedItems(items: seq<Json>): (r: seq<Json>)
    ensures |r| == |items| && forall i :: 0 <= i < |items| ==> r[i] == Ordered(items[i])
    decreases items, 0
  {
    if items == [] then [] else [Ordered(items[0])] + OrderedItems(items[1..])
  }

  function OrderedMembers(ms: seq<Member>, keys: seq<Text>): (r: seq<Member>)
    requires forall k :: k in keys ==> k in Keys(ms)
    ensures |r| == |keys| && forall i :: 0 <= i < |keys| ==> r[i] == Member(keys[i], OrderedAt(ms, keys[i]))
    decreases ms, 0, |keys|, 1
  {
    if keys == [] then [] else [Member(keys[0], OrderedAt(ms, keys[0]))] + OrderedMembers(ms, keys[1..])
  }

  function OrderedAt(ms: seq<Member>, k: Text): Json
    requires k in Keys(ms)
    decreases ms, 0, 0, 0
  {
    var v := Get(ms, k);
    assert Member(k, v) in ms;
    Ordered(v)
  }

  lemma {:induction false} NumeralLengthIs(a: Text, x: Text)
    requires (forall i :: 0 <= i < |a| ==> NumeralUnit(a[i])) && Delimited(x)
    ensures NumeralLength(a + x) == |a|
    decreases |a|
  {
    if a == [] {
      assert a + x == x;
    } else {
      assert (a + x)[1..] == a[1..] + x;
      NumeralLengthIs(a[1..], x);
    }
  }

  lemma {:induction false} NumeralStarts(n: Numeral)
    ensures n != [] && (0x30 <= n[0] <= 0x39 || n[0] == 0x2D) && forall i :: 0 <= i < |n| ==> NumeralUnit(n[i])
  {
    hide FirstIndex, IsExponent, AllDigits;
  }

  lemma {:induction false} NumeralReads(n: Numeral, x: Text)
    requires Delimited(x)
    ensures ReadNumber(n + x) == Got(Num(n), x)
  {
    hide IsNumeral, NumeralLength;
    NumeralStarts(n);
    NumeralLengthIs(n, x);
    assert (n + x)[..|n|] == n && (n + x)[|n|..] == x;
  }

  lemma {:induction false} NumberReads(n: Numeral, x: Text)
    requires Delimited(x)
    ensures ReadValue(n + x) == Got(Num(n), x)
  {
    hide IsNumeral, ReadNumber, ReadString, ReadItems, ReadMembers;
    NumeralStarts(n);
    NumeralReads(n, x);
    assert (n + x)[0] == n[0];
    assert Skip(n + x) == n + x;
  }

  lemma {:induction false} LiteralReads(v: Json, x: Text)
    requires v.Null? || v.Bool?
    ensures ReadValue(Canonicalize(v) + x) == Got(v, x)
  {
    var a := Canonicalize(v);
    var t := a + x;
    assert t[0] == a[0] && t[1] == a[1] && t[2] == a[2] && t[3] == a[3] && t[|a|..] == x;
    assert Skip(t) == t;
    assert a <= t;
  }

  lemma {:induction false} StringReads(s: Text, x: Text)
    ensures ReadValue(Quote(s) + x) == Got(Str(s), x)
  {
    hide Quote, ReadString;
    QuoteReads(s, x);
    assert Skip(Quote(s) + x) == Quote(s) + x;
  }

  /** Canonical text reads back as the value in the order printed, and the reader
      stops exactly at its end. */
  lemma {:induction false} ValueReads(v: Json, x: Text)
    requires Delimited(x)
    ensures ReadValue(Canonicalize(v) + x) == Got(Ordered(v), x)
    decreases v, 1
  {
    hide ReadValue, Ordered, Delimited;
    match v
    case Num(n) =>
      NumberReads(n, x);
      OrderedLeaf(v);
    case Str(s) =>
      StringReads(s, x);
      OrderedLeaf(v);
    case Arr(items) => ArrReads(items, x);
    case Obj(members) => ObjReads(members, x);
    case _ =>
      LiteralReads(v, x);
      OrderedLeaf(v);
  }

  lemma {:induction false} OrderedLeaf(v: Json)
    requires !v.Arr? && !v.Obj?
    ensures Ordered(v) == v
  {
  }

  /** One step of the reader at an opening bracket. */
  lemma {:induction false} ReadArr(w: Text)
    ensures ReadValue([LBRACKET] + w)
         == if At(w, RBRACKET) then Got(Arr([]), Skip(w)[1..])
            else
              var xs := ReadItems(w);
              if xs.Got? then Got(Arr(xs.value), xs.rest) else Fail
  {
    hide ReadItems, ReadMembers, ReadString, At;
    var t := [LBRACKET] + w;
    assert t[0] == LBRACKET && t[1..] == w;
    assert Skip(t) == t;
  }

  lemma {:induction false} ReadObj(w: Text)
    ensures ReadValue([LBRACE] + w)
         == if At(w, RBRACE) then Got(Obj([]), Skip(w)[1..])
            else
              var ms := ReadMembers(w);
              if ms.Got? then Got(Obj(ms.value), ms.rest) else Fail
  {
    hide ReadItems, ReadMembers, ReadString, At;
    var t := [LBRACE] + w;
    assert t[0] == LBRACE && t[1..] == w;
    assert Skip(t) == t;
  }

  /** A text that starts with a unit other than whitespace. */
  lemma {:induction false} StartsWith(t: Text, c: Unit)
    requires t != [] && !Whitespace(t[0])
    ensures Skip(t) == t && (At(t, c) <==> t[0] == c)
  {
  }

  lemma {:induction false} ArrReads(xs: seq<Json>, x: Text)
    ensures ReadValue(Canonicalize(Arr(xs)) + x) == Got(Ordered(Arr(xs)), x)
    decreases xs, 1
  {
    hide Canonicalize, Items, MoreItems, ReadValue, ReadItems, At, Skip;
    var u := [RBRACKET] + x;
    var w := Items(xs) + u;
    ArrText(xs, x);
    ReadArr(w);
    ItemsStart(xs, u);
    if xs == [] {
      StartsWith(w, RBRACKET);
      assert w[1..] == x;
    } else {
      FirstUnit(xs[0], MoreItems(xs[1..]) + u);
      ItemsText(xs, u);
      StartsWith(w, RBRACKET);
      ItemsRead(xs, x);
    }
  }

  lemma {:induction false} ItemsRead(xs: seq<Json>, x: Text)
    requires xs != []
    ensures ReadItems(Items(xs) + ([RBRACKET] + x)) == Got(OrderedItems(xs), x)
    decreases xs, 0
  {
    hide Canonicalize, Items, MoreItems, ReadValue, ReadItems, At, Skip, Ordered;
    var u := [RBRACKET] + x;
    var tail := MoreItems(xs[1..]) + u;
    ItemsText(xs, u);
    ItemsStart(xs[1..], u);
    ValueReads(xs[0], tail);
    StartsWith(tail, RBRACKET);
    StartsWith(tail, COMMA);
    ReadItemsStep(Items(xs) + u);
    if |xs| == 1 {
      assert xs[1..] == [] && tail[1..] == x;
      assert OrderedItems(xs) == [Ordered(xs[0])];
    } else {
      ItemsText(xs[1..], u);
      assert tail[1..] == Items(xs[1..]) + u;
      ItemsRead(xs[1..], x);
    }
  }

  lemma {:induction false} ReadItemsStep(t: Text)
    requires ReadValue(t).Got?
    ensures var v := ReadValue(t);
            ReadItems(t)
            == if At(v.rest, RBRACKET) then Got([v.value], Skip(v.rest)[1..])
               else if At(v.rest, COMMA) then
                 var more := ReadItems(Skip(v.rest)[1..]);
                 if more.Got? then Got([v.value] + more.value, more.rest) else Fail
               else Fail
  {
    hide ReadValue, At, Skip;
  }

  lemma {:induction false} ObjReads(ms: seq<Member>, x: Text)
    ensures ReadValue(Canonicalize(Obj(ms)) + x) == Got(Ordered(Obj(ms)), x)
    decreases ms, 1
  {
    hide Canonicalize, Members, MoreMembers, SortedKeys, ReadValue, ReadMembers, At, Skip;
    var u, keys := [RBRACE] + x, SortedKeys(ms);
    var w := Members(ms, keys) + u;
    ObjText(ms, x);
    ReadObj(w);
    MembersStart(ms, keys, u);
    StartsWith(w, RBRACE);
    if keys == [] {
      assert w[1..] == x;
    } else {
      MembersRead(ms, keys, x);
    }
  }

  lemma {:induction false} MembersRead(ms: seq<Member>, keys: seq<Text>, x: Text)
    requires keys != [] && forall k :: k in keys ==> k in Keys(ms)
    ensures ReadMembers(Members(ms, keys) + ([RBRACE] + x)) == Got(OrderedMembers(ms, keys), x)
    decreases ms, 0, |keys|
  {
    hide Canonicalize, Members, MoreMembers, ReadMember, ReadMembers, At, Skip, Ordered, OrderedAt, Get, Quote;
    var u := [RBRACE] + x;
    var tail := MoreMembers(ms, keys[1..]) + u;
    MembersStart(ms, keys[1..], u);
    MemberReads(ms, keys, u);
    StartsWith(tail, RBRACE);
    StartsWith(tail, COMMA);
    ReadMembersStep(Members(ms, keys) + u);
    if |keys| == 1 {
      assert keys[1..] == [] && tail[1..] == x;
      assert OrderedMembers(ms, keys) == [Member(keys[0], OrderedAt(ms, keys[0]))];
    } else {
      MembersText(ms, keys[1..], u);
      assert tail[1..] == Members(ms, keys[1..]) + u;
      MembersRead(ms, keys[1..], x);
    }
  }

  lemma {:induction false} ReadMembersStep(t: Text)
    requires ReadMember(t).Got?
    ensures var m := ReadMember(t);
            ReadMembers(t)
            == if At(m.rest, RBRACE) then Got([m.value], Skip(m.rest)[1..])
               else if At(m.rest, COMMA) then
                 var more := ReadMembers(Skip(m.rest)[1..]);
                 if more.Got? then Got([m.value] + more.value, more.rest) else Fail
               else Fail
  {
    hide ReadMember, At, Skip;
  }

  lemma {:induction false} MemberReads(ms: seq<Member>, keys: seq<Text>, u: Text)
    requires keys != [] && forall k :: k in keys ==> k in Keys(ms)
    requires Delimited(MoreMembers(ms, keys[1..]) + u)
    ensures ReadMember(Members(ms, keys) + u)
         == Got(Member(keys[0], OrderedAt(ms, keys[0])), MoreMembers(ms, keys[1..]) + u)
    decreases ms, 0, 0
  {
    hide Canonicalize, Members, MoreMembers, ReadValue, ReadString, At, Skip, Ordered, Quote, Delimited;
    var k, tail := keys[0], MoreMembers(ms, keys[1..]) + u;
    var v := Get(ms, k);
    assert Member(k, v) in ms;
    var rest := [COLON] + (Canonicalize(v) + tail);
    MembersText(ms, keys, u);
    QuoteReads(k, rest);
    StartsWith(Quote(k) + rest, QUOTE);
    StartsWith(rest, COLON);
    assert rest[1..] == Canonicalize(v) + tail;
    ValueReads(v, tail);
  }

  // ---------------------------------------------------------------------
  // What is read back
  // ---------------------------------------------------------------------

  /** At every depth the keys of an object ascend by code units, so none repeats. */
  ghost predicate Ascending(v: Json) {
    match v
    case Arr(items) => forall x :: x in items ==> Ascending(x)
    case Obj(members) => StrictlySorted(Less, Keys(members)) && forall m :: m in members ==> Ascending(m.value)
    case _ => true
  }

  lemma {:induction false} OrderedAscends(v: Json)
    requires WellFormed(v)
    ensures Ascending(Ordered(v))
    decreases v
  {
    hide SortedKeys, Less;
    match v
    case Arr(items) =>
      forall x | x in OrderedItems(items) ensures Ascending(x) {
        var i :| 0 <= i < |items| && OrderedItems(items)[i] == x;
        OrderedAscends(items[i]);
      }
    case Obj(ms) =>
      var keys := SortedKeys(ms);
      var r := OrderedMembers(ms, keys);
      assert Keys(r) == keys;
      SortedKeysAscend(ms);
      forall m | m in r ensures Ascending(m.value) {
        var i :| 0 <= i < |keys| && r[i] == m;
        var w := Get(ms, keys[i]);
        assert Member(keys[i], w) in ms;
        OrderedAscends(w);
      }
    case _ =>
  }

  lemma {:induction false} GetOrdered(ms: seq<Member>, keys: seq<Text>, k: Text)
    requires (forall k :: k in keys ==> k in Keys(ms)) && k in keys
    ensures var r := OrderedMembers(ms, keys);
            k in Keys(r) && Get(r, k) == OrderedAt(ms, k)
    decreases |keys|
  {
    hide OrderedAt;
    var r := OrderedMembers(ms, keys);
    assert Keys(r) == keys;
    if keys[0] != k {
      GetOrdered(ms, keys[1..], k);
      assert r[1..] == OrderedMembers(ms, keys[1..]);
    }
  }

  lemma {:induction false} OrderedSame(v: Json)
    ensures Same(v, Ordered(v))
    decreases v
  {
    hide SortedKeys;
    match v
    case Arr(items) =>
      forall i | 0 <= i < |items| ensures Same(items[i], OrderedItems(items)[i]) {
        OrderedSame(items[i]);
      }
    case Obj(ms) =>
      var keys := SortedKeys(ms);
      var r := OrderedMembers(ms, keys);
      assert Keys(r) == keys;
      forall k | k in Keys(ms) ensures k in Keys(r) && Same(Get(ms, k), Get(r, k)) {
        var w := Get(ms, k);
        assert Member(k, w) in ms;
        OrderedSame(w);
        GetOrdered(ms, keys, k);
      }
    case _ =>
  }

  /** Reading canonical text gives back the value, equal up to the order of
      members, with the keys of every object in ascending order. */
  lemma {:induction false} CanonicalTextReadsBack(v: Json)
    requires WellFormed(v)
    ensures var r := ReadText(Canonicalize(v));
            r.Some? && Same(v, r.value) && Ascending(r.value)
  {
    hide Canonicalize, ReadValue, Ordered, Same, Ascending;
    ValueReads(v, []);
    assert Canonicalize(v) + [] == Canonicalize(v);
    OrderedSame(v);
    OrderedAscends(v);
  }
}
