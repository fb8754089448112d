/** `canonicalize` of src/contractMetadata.ts: JSON text with object keys sorted
    at every depth. A number is the text JSON.stringify prints for it. */
module CanonicalJson {
  import opened CodeUnits
  import opened Sorting

  const QUOTE: Unit := 0x22
  const BACKSLASH: Unit := 0x5C
  const COMMA: Unit := 0x2C
  const COLON: Unit := 0x3A
  const LBRACKET: Unit := 0x5B
  const RBRACKET: Unit := 0x5D
  const LBRACE: Unit := 0x7B
  const RBRACE: Unit := 0x7D
  const NULL_TEXT: Text := [0x6E, 0x75, 0x6C, 0x6C]
  const TRUE_TEXT: Text := [0x74, 0x72, 0x75, 0x65]
  const FALSE_TEXT: Text := [0x66, 0x61, 0x6C, 0x73, 0x65]

  /** Digits, signs, the point and the exponent letter. */
  predicate NumeralUnit(c: Unit) {
    0x30 <= c <= 0x39 || c == 0x2D || c == 0x2B || c == 0x2E || c == 0x65 || c == 0x45
  }

  predicate AllDigits(s: Text) { s != [] && forall i :: 0 <= i < |s| ==> 0x30 <= s[i] <= 0x39 }

  /** Where a unit that satisfies `p` first stands, or the length. */
  function FirstIndex(s: Text, p: Unit -> bool): (n: nat)
    ensures n <= |s|
  {
    if s == [] || p(s[0]) then 0 else 1 + FirstIndex(s[1..], p)
  }

  /** `number` of section 6 of RFC 8259: a minus, an integer without leading
      zeros, a fraction and an exponent, of which only the integer is required. */
  predicate IsNumeral(s: Text) {
    && s != [] && (0x30 <= s[0] <= 0x39 || s[0] == 0x2D) && (forall i :: 0 <= i < |s| ==> NumeralUnit(s[i]))
    && var unsigned := if s[0] == 0x2D then s[1..] else s;
       var e := FirstIndex(unsigned, c => c == 0x65 || c == 0x45);
       var p := FirstIndex(unsigned[..e], c => c == 0x2E);
       && AllDigits(unsigned[..p]) && (p > 1 ==> unsigned[0] != 0x30)
       && (p < e ==> AllDigits(unsigned[p + 1..e]))
       && (e < |unsigned| ==> IsExponent(unsigned[e + 1..]))
  }

  predicate IsExponent(s: Text) { AllDigits(if s != [] && (s[0] == 0x2B || s[0] == 0x2D) then s[1..] else s) }

  type Numeral = s: Text | IsNumeral(s) witness [0x30]

  datatype Json =
    | Null
    | Bool(b: bool)
    | Num(text: Numeral)
    | Str(s: Text)
    | Arr(items: seq<Json>)
    | Obj(members: seq<Member>)

  datatype Member = Member(key: Text, value: Json)

  function Keys(ms: seq<Member>): (ks: seq<Text>)
    ensures |ks| == |ms| && forall i :: 0 <= i < |ms| ==> ks[i] == ms[i].key
  {
    seq(|ms|, i requires 0 <= i < |ms| => ms[i].key)
  }

  function Get(ms: seq<Member>, k: Text): (v: Json)
    requires k in Keys(ms)
    ensures Member(k, v) in ms
  {
    if ms[0].key == k then ms[0].value
    else
      assert forall i :: 0 < i < |ms| ==> Keys(ms[1..])[i - 1] == Keys(ms)[i];
      Get(ms[1..], k)
  }

  // --- Strings, as in section 7 of RFC 8259 ---------------------------------

  predicate HighSurrogate(c: Unit) { 0xD800 <= c <= 0xDBFF }
  predicate LowSurrogate(c: Unit) { 0xDC00 <= c <= 0xDFFF }

  /** Is unit `i` half of a surrogate pair? */
  predicate Paired(s: Text, i: nat)
    requires i < |s|
  {
    || (HighSurrogate(s[i]) && i + 1 < |s| && LowSurrogate(s[i + 1]))
    || (LowSurrogate(s[i]) && i > 0 && HighSurrogate(s[i - 1]))
  }

  function HexDigit(d: int): Unit
    requires 0 <= d < 16
  {
    if d < 10 then 0x30 + d else 0x57 + d
  }

  function Hex(c: Unit): Text { [HexDigit(c / 4096), HexDigit(c / 256 % 16), HexDigit(c / 16 % 16), HexDigit(c % 16)] }

  /** The letter of a two-unit escape, or 0. */
  function ShortEscape(c: Unit): Unit {
    if c == 0x22 then 0x22 else if c == 0x5C then 0x5C else if c == 0x08 then 0x62 else if c == 0x0C then 0x66
    else if c == 0x0A then 0x6E else if c == 0x0D then 0x72 else if c == 0x09 then 0x74 else 0
  }

  function Escape(c: Unit, paired: bool): Text {
    if ShortEscape(c) != 0 then [BACKSLASH, ShortEscape(c)]
    else if c < 0x20 || ((HighSurrogate(c) || LowSurrogate(c)) && !paired) then [BACKSLASH, 0x75] + Hex(c)
    else [c]
  }

  /** QuoteJSONString of ECMAScript: seven units have a letter of their own, other
      control characters and lone surrogates are written as four lower-case
      hexadecimal digits, and everything else as it is. */
  lemma {:induction false} EscapeExactly(c: Unit, paired: bool)
    ensures var t := Escape(c, paired);
            && (c == 0x22 ==> t == [0x5C, 0x22]) && (c == 0x5C ==> t == [0x5C, 0x5C])
            && (c == 0x08 ==> t == [0x5C, 0x62]) && (c == 0x09 ==> t == [0x5C, 0x74])
            && (c == 0x0A ==> t == [0x5C, 0x6E]) && (c == 0x0C ==> t == [0x5C, 0x66])
            && (c == 0x0D ==> t == [0x5C, 0x72])
            && (c >= 0x20 && c != 0x22 && c != 0x5C && (paired || !(0xD800 <= c <= 0xDFFF)) ==> t == [c])
            && ((c < 0x20 && c !in {0x08, 0x09, 0x0A, 0x0C, 0x0D}) || (0xD800 <= c <= 0xDFFF && !paired) ==>
                  && |t| == 6 && t[0] == 0x5C && t[1] == 0x75
                  && forall i :: 2 <= i < 6 ==> 0x30 <= t[i] <= 0x39 || 0x61 <= t[i] <= 0x66)
  {
  }

  function Body(s: Text, i: nat): Text
    requires i <= |s|
    decreases |s| - i
  {
    if i == |s| then [] else Escape(s[i], Paired(s, i)) + Body(s, i + 1)
  }

  function Quote(s: Text): Text { [QUOTE] + Body(s, 0) + [QUOTE] }

  // --- The canonical text -----------------------------------------------------

  function SortedKeys(ms: seq<Member>): (ks: seq<Text>)
    ensures forall k :: k in ks <==> k in Keys(ms)
  {
    forall k ensures k in Sort(Less, Keys(ms)) <==> k in Keys(ms) {
      SortKeepsElements(Less, Keys(ms), k);
    }
    Sort(Less, Keys(ms))
  }

  function Canonicalize(v: Json): Text
    decreases v, 1
  {
    match v
    case Null => NULL_TEXT
    case Bool(b) => if b then TRUE_TEXT else FALSE_TEXT
    case Num(text) => text
    case Str(s) => Quote(s)
    case Arr(items) => [LBRACKET] + Items(items) + [RBRACKET]
    case Obj(members) => [LBRACE] + Members(members, SortedKeys(members)) + [RBRACE]
  }

  /** `map` and `join(',')`. */
  function Items(items: seq<Json>): Text
    decreases items, 0, 1
  {
    if items == [] then [] else Canonicalize(items[0]) + MoreItems(items[1..])
  }

  function MoreItems(items: seq<Json>): Text
    decreases items, 0, 0
  {
    if items == [] then [] else [COMMA] + Canonicalize(items[0]) + MoreItems(items[1..])
  }

  function Members(ms: seq<Member>, keys: seq<Text>): Text
    requires forall k :: k in keys ==> k in Keys(ms)
    decreases ms, 0, |keys| + 1
  {
    if keys == [] then [] else MemberText(ms, keys[0]) + MoreMembers(ms, keys[1..])
  }

  function MoreMembers(ms: seq<Member>, keys: seq<Text>): Text
    requires forall k :: k in keys ==> k in Keys(ms)
    decreases ms, 0, |keys|
  {
    if keys == [] then [] else [COMMA] + MemberText(ms, keys[0]) + MoreMembers(ms, keys[1..])
  }

  function MemberText(ms: seq<Member>, k: Text): Text
    requires k in Keys(ms)
    decreases ms, 0, 0
  {
    var v := Get(ms, k);
    assert Member(k, v) in ms;
    Quote(k) + [COLON] + Canonicalize(v)
  }

  // ---------------------------------------------------------------------
  // Equality up to the order of members
  // ---------------------------------------------------------------------

  ghost predicate DistinctKeys(ms: seq<Member>) {
    forall i, j :: 0 <= i < j < |ms| ==> ms[i].key != ms[j].key
  }

  /** No object at any depth repeats a key. */
  ghost predicate WellFormed(v: Json) {
    match v
    case Arr(items) => forall x :: x in items ==> WellFormed(x)
    case Obj(members) => DistinctKeys(members) && forall m :: m in members ==> WellFormed(m.value)
    case _ => true
  }

  ghost predicate Same(a: Json, b: Json)
    decreases a
  {
    match a
    case Arr(items) =>
      b.Arr? && |items| == |b.items| && forall i :: 0 <= i < |items| ==> Same(items[i], b.items[i])
    case Obj(members) =>
      && b.Obj? && (forall k :: k in Keys(members) <==> k in Keys(b.members))
      && forall k :: k in Keys(members) ==>
           var v := Get(members, k);
           Member(k, v) in members && Same(v, Get(b.members, k))
    case _ => a == b
  }

  // ---------------------------------------------------------------------
  // The text can be read in one way only
  // ---------------------------------------------------------------------

  lemma {:induction false} Cancel(a: Text, x: Text, b: Text, y: Text)
    requires a + x == b + y && |a| == |b|
    ensures a == b && x == y
  {
    assert a == (a + x)[..|a|] && b == (b + y)[..|a|];
    assert x == (a + x)[|a|..] && y == (b + y)[|a|..];
  }

  lemma {:induction false} HexValue(c: Unit)
    ensures c == 4096 * (c / 4096) + 256 * (c / 256 % 16) + 16 * (c / 16 % 16) + c % 16
  {
    assert c / 256 == c / 16 / 16 && c / 4096 == c / 256 / 16;
  }

  lemma {:induction false} HexDigitReadable(a: int, b: int)
    requires 0 <= a < 16 && 0 <= b < 16 && HexDigit(a) == HexDigit(b)
    ensures a == b
  {
  }

  lemma {:induction false} HexReadable(c: Unit, d: Unit)
    requires Hex(c) == Hex(d)
    ensures c == d
  {
    hide HexDigit;
    HexValue(c);
    HexValue(d);
    HexDigitReadable(c / 4096, d / 4096);
    HexDigitReadable(c / 256 % 16, d / 256 % 16);
    HexDigitReadable(c / 16 % 16, d / 16 % 16);
    HexDigitReadable(c % 16, d % 16);
  }

  lemma {:induction false} EscapeReadable(c: Unit, p: bool, x: Text, d: Unit, q: bool, y: Text)
    requires Escape(c, p) + x == Escape(d, q) + y
    ensures c == d && x == y
  {
    var e, f := Escape(c, p), Escape(d, q);
    assert (e + x)[0] == e[0] && (f + y)[0] == f[0];
    assert |e| > 1 ==> (e + x)[1] == e[1];
    assert |f| > 1 ==> (f + y)[1] == f[1];
    assert |e| == |f|;
    Cancel(e, x, f, y);
    if |e| == 6 {
      assert e[2..] == Hex(c) && f[2..] == Hex(d);
      HexReadable(c, d);
    }
  }

  lemma {:induction false} BodyReadable(s: Text, i: nat, x: Text, t: Text, j: nat, y: Text)
    requires i <= |s| && j <= |t|
    requires Body(s, i) + ([QUOTE] + x) == Body(t, j) + ([QUOTE] + y)
    ensures s[i..] == t[j..] && x == y
    decreases |s| - i
  {
    hide Escape, Paired;
    var sx, ty := Body(s, i) + ([QUOTE] + x), Body(t, j) + ([QUOTE] + y);
    BodyStarts(s, i, [QUOTE] + x);
    BodyStarts(t, j, [QUOTE] + y);
    if i == |s| || j == |t| {
      assert i == |s| && j == |t|;
      assert sx == [QUOTE] + x && ty == [QUOTE] + y;
      Cancel([QUOTE], x, [QUOTE], y);
    } else {
      var e, f := Escape(s[i], Paired(s, i)), Escape(t[j], Paired(t, j));
      assert sx == e + (Body(s, i + 1) + ([QUOTE] + x));
      assert ty == f + (Body(t, j + 1) + ([QUOTE] + y));
      EscapeReadable(s[i], Paired(s, i), Body(s, i + 1) + ([QUOTE] + x),
                     t[j], Paired(t, j), Body(t, j + 1) + ([QUOTE] + y));
      BodyReadable(s, i + 1, x, t, j + 1, y);
      assert s[i..] == [s[i]] + s[i + 1..] && t[j..] == [t[j]] + t[j + 1..];
    }
  }

  /** Only a finished string body is followed at once by its closing quote. */
  lemma {:induction false} BodyStarts(s: Text, i: nat, u: Text)
    requires i <= |s| && u != [] && u[0] == QUOTE
    ensures (Body(s, i) + u)[0] == QUOTE <==> i == |s|
  {
    hide Hex;
    assert i == |s| ==> Body(s, i) + u == u;
  }

  lemma {:induction false} QuoteReadable(s: Text, x: Text, t: Text, y: Text)
    requires Quote(s) + x == Quote(t) + y
    ensures s == t && x == y
  {
    assert Quote(s) + x == [QUOTE] + (Body(s, 0) + ([QUOTE] + x));
    assert Quote(t) + y == [QUOTE] + (Body(t, 0) + ([QUOTE] + y));
    Cancel([QUOTE], Body(s, 0) + ([QUOTE] + x), [QUOTE], Body(t, 0) + ([QUOTE] + y));
    BodyReadable(s, 0, x, t, 0, y);
    assert s[0..] == s && t[0..] == t;
  }

  /** What may follow a value: nothing, or a unit that cannot extend a numeral. */
  predicate Delimited(x: Text) { x != [] ==> !NumeralUnit(x[0]) }

  lemma {:induction false} NumeralReadable(a: Numeral, x: Text, b: Numeral, y: Text)
    requires a + x == b + y && Delimited(x) && Delimited(y)
    ensures a == b && x == y
  {
    NumeralNotShorter(a, x, b, y);
    NumeralNotShorter(b, y, a, x);
    Cancel(a, x, b, y);
  }

  lemma {:induction false} NumeralNotShorter(a: Numeral, x: Text, b: Numeral, y: Text)
    requires a + x == b + y && Delimited(x)
    ensures |a| >= |b|
  {
    assert |a| + |x| == |b| + |y|;
    assert |x| > 0 ==> (a + x)[|a|] == x[0];
    assert forall i :: 0 <= i < |b| ==> (b + y)[i] == b[i];
  }

  /** The first unit of a value's text tells what kind of value it is. */
  lemma {:induction false} FirstUnit(v: Json, x: Text)
    ensures Canonicalize(v) != []
    ensures var c := (Canonicalize(v) + x)[0];
            match v
            case Null => c == 0x6E
            case Bool(b) => c == if b then 0x74 else 0x66
            case Num(_) => 0x30 <= c <= 0x39 || c == 0x2D
            case Str(_) => c == QUOTE
            case Arr(_) => c == LBRACKET
            case Obj(_) => c == LBRACE
  {
  }

  lemma {:induction false} Readable(a: Json, x: Text, b: Json, y: Text)
    requires WellFormed(a) && WellFormed(b)
    requires Canonicalize(a) + x == Canonicalize(b) + y && Delimited(x) && Delimited(y)
    ensures Same(a, b) && x == y
    decreases a, 2
  {
    FirstUnit(a, x);
    FirstUnit(b, y);
    match a
    case Null => Cancel(NULL_TEXT, x, NULL_TEXT, y);
    case Bool(p) => Cancel(Canonicalize(a), x, Canonicalize(b), y);
    case Num(n) => NumeralReadable(n, x, b.text, y);
    case Str(s) => QuoteReadable(s, x, b.s, y);
    case Arr(items) => ArrReadable(items, x, b.items, y);
    case Obj(members) => ObjReadable(members, x, b.members, y);
  }

  lemma {:induction false} ArrText(xs: seq<Json>, x: Text)
    ensures Canonicalize(Arr(xs)) + x == [LBRACKET] + (Items(xs) + ([RBRACKET] + x))
  {
    hide Items;
  }

  lemma {:induction false} ItemsText(xs: seq<Json>, u: Text)
    requires xs != []
    ensures Items(xs) + u == Canonicalize(xs[0]) + (MoreItems(xs[1..]) + u)
    ensures MoreItems(xs) + u == [COMMA] + (Canonicalize(xs[0]) + (MoreItems(xs[1..]) + u))
  {
    hide Canonicalize;
    var c, more := Canonicalize(xs[0]), MoreItems(xs[1..]);
    PrependJoin(c, more, u);
  }

  lemma {:induction false} PrependJoin(c: Text, more: Text, u: Text)
    ensures (c + more) + u == c + (more + u)
    ensures ([COMMA] + c + more) + u == [COMMA] + (c + (more + u))
  {
  }

  /** How the text of items, closed by `u`, starts. */
  lemma {:induction false} ItemsStart(xs: seq<Json>, u: Text)
    requires u != [] && u[0] == RBRACKET
    ensures xs == [] ==> Items(xs) + u == u && MoreItems(xs) + u == u
    ensures xs != [] ==> (Items(xs) + u)[0] != RBRACKET && (MoreItems(xs) + u)[0] == COMMA
  {
    if xs != [] {
      FirstUnit(xs[0], MoreItems(xs[1..]) + u);
      ItemsText(xs, u);
    }
  }

  lemma {:induction false} ArrReadable(xs: seq<Json>, x: Text, ys: seq<Json>, y: Text)
    requires WellFormed(Arr(xs)) && WellFormed(Arr(ys))
    requires Canonicalize(Arr(xs)) + x == Canonicalize(Arr(ys)) + y
    ensures Same(Arr(xs), Arr(ys)) && x == y
    decreases xs, 1
  {
    hide Canonicalize, Items, MoreItems;
    var u, w := [RBRACKET] + x, [RBRACKET] + y;
    ArrText(xs, x);
    ArrText(ys, y);
    Cancel([LBRACKET], Items(xs) + u, [LBRACKET], Items(ys) + w);
    ItemsStart(xs, u);
    ItemsStart(ys, w);
    if xs == [] {
      Cancel([RBRACKET], x, [RBRACKET], y);
    } else {
      ItemsText(xs, u);
      ItemsText(ys, w);
      MoreItemsReadable(xs, x, ys, y);
    }
  }

  lemma {:induction false} MoreItemsReadable(xs: seq<Json>, x: Text, ys: seq<Json>, y: Text)
    requires (forall v :: v in xs ==> WellFormed(v)) && (forall v :: v in ys ==> WellFormed(v))
    requires MoreItems(xs) + ([RBRACKET] + x) == MoreItems(ys) + ([RBRACKET] + y)
    ensures |xs| == |ys| && x == y && forall i :: 0 <= i < |xs| ==> Same(xs[i], ys[i])
    decreases xs, 0
  {
    hide Canonicalize, Items, MoreItems, Same, WellFormed;
    var u, w := [RBRACKET] + x, [RBRACKET] + y;
    ItemsStart(xs, u);
    ItemsStart(ys, w);
    if xs == [] {
      Cancel([RBRACKET], x, [RBRACKET], y);
    } else {
      var tx, ty := MoreItems(xs[1..]) + u, MoreItems(ys[1..]) + w;
      ItemsText(xs, u);
      ItemsText(ys, w);
      Cancel([COMMA], Canonicalize(xs[0]) + tx, [COMMA], Canonicalize(ys[0]) + ty);
      ItemsStart(xs[1..], u);
      ItemsStart(ys[1..], w);
      Readable(xs[0], tx, ys[0], ty);
      MoreItemsReadable(xs[1..], x, ys[1..], y);
      forall i | 0 <= i < |xs| ensures Same(xs[i], ys[i]) {
        assert i > 0 ==> Same(xs[1..][i - 1], ys[1..][i - 1]);
      }
    }
  }

  lemma {:induction false} ObjText(ms: seq<Member>, x: Text)
    ensures Canonicalize(Obj(ms)) + x == [LBRACE] + (Members(ms, SortedKeys(ms)) + ([RBRACE] + x))
  {
    hide Members, SortedKeys;
  }

  lemma {:induction false} MembersText(ms: seq<Member>, keys: seq<Text>, u: Text)
    requires keys != [] && forall k :: k in keys ==> k in Keys(ms)
    ensures var rest := [COLON] + (Canonicalize(Get(ms, keys[0])) + (MoreMembers(ms, keys[1..]) + u));
            && Members(ms, keys) + u == Quote(keys[0]) + rest
            && MoreMembers(ms, keys) + u == [COMMA] + (Quote(keys[0]) + rest)
  {
    hide Canonicalize, Quote, Get;
    var q, v, more := Quote(keys[0]), Canonicalize(Get(ms, keys[0])), MoreMembers(ms, keys[1..]);
    Reassociate(q, COLON, v, more, u);
    assert Members(ms, keys) == (q + [COLON] + v) + more;
    assert MoreMembers(ms, keys) == [COMMA] + (q + [COLON] + v) + more;
    assert ([COMMA] + (q + [COLON] + v) + more) + u == [COMMA] + (((q + [COLON] + v) + more) + u);
  }

  lemma {:induction false} Reassociate(q: Text, c: Unit, v: Text, more: Text, u: Text)
    ensures ((q + [c] + v) + more) + u == q + ([c] + (v + (more + u)))
  {
  }

  /** How the text of members, closed by `u`, starts. */
  lemma {:induction false} MembersStart(ms: seq<Member>, keys: seq<Text>, u: Text)
    requires u != [] && u[0] == RBRACE && forall k :: k in keys ==> k in Keys(ms)
    ensures keys == [] ==> Members(ms, keys) + u == u && MoreMembers(ms, keys) + u == u
    ensures keys != [] ==> (Members(ms, keys) + u)[0] == QUOTE && (MoreMembers(ms, keys) + u)[0] == COMMA
  {
    if keys != [] {
      MembersText(ms, keys, u);
    }
  }

  lemma {:induction false} ObjSame(am: seq<Member>, bm: seq<Member>)
    requires SortedKeys(am) == SortedKeys(bm)
    requires forall k :: k in Keys(am) ==> k in Keys(bm) && Same(Get(am, k), Get(bm, k))
    ensures Same(Obj(am), Obj(bm))
  {
    hide SortedKeys, Get;
    forall k ensures k in Keys(am) <==> k in Keys(bm) {
      assert k in SortedKeys(am) <==> k in SortedKeys(bm);
    }
  }

  lemma {:induction false} ObjReadable(am: seq<Member>, x: Text, bm: seq<Member>, y: Text)
    requires WellFormed(Obj(am)) && WellFormed(Obj(bm))
    requires Canonicalize(Obj(am)) + x == Canonicalize(Obj(bm)) + y
    ensures Same(Obj(am), Obj(bm)) && x == y
    decreases am, 1
  {
    hide Canonicalize, Members, MoreMembers, SortedKeys, Same, Get, Quote;
    var ak, bk := SortedKeys(am), SortedKeys(bm);
    var u, w := [RBRACE] + x, [RBRACE] + y;
    ObjText(am, x);
    ObjText(bm, y);
    Cancel([LBRACE], Members(am, ak) + u, [LBRACE], Members(bm, bk) + w);
    MembersStart(am, ak, u);
    MembersStart(bm, bk, w);
    if ak == [] {
      Cancel([RBRACE], x, [RBRACE], y);
    } else {
      MembersText(am, ak, u);
      MembersText(bm, bk, w);
      MoreMembersReadable(am, ak, x, bm, bk, y);
    }
    ObjSame(am, bm);
  }

  lemma {:induction false} MoreMembersReadable(am: seq<Member>, ak: seq<Text>, x: Text,
                                               bm: seq<Member>, bk: seq<Text>, y: Text)
    requires (forall m :: m in am ==> WellFormed(m.value)) && (forall m :: m in bm ==> WellFormed(m.value))
    requires (forall k :: k in ak ==> k in Keys(am)) && (forall k :: k in bk ==> k in Keys(bm))
    requires MoreMembers(am, ak) + ([RBRACE] + x) == MoreMembers(bm, bk) + ([RBRACE] + y)
    ensures ak == bk && x == y && forall k :: k in ak ==> Same(Get(am, k), Get(bm, k))
    decreases am, 0, |ak|
  {
    hide Canonicalize, Members, MoreMembers, Quote, Same, WellFormed, Get;
    var u, w := [RBRACE] + x, [RBRACE] + y;
    MembersStart(am, ak, u);
    MembersStart(bm, bk, w);
    if ak == [] {
      Cancel([RBRACE], x, [RBRACE], y);
    } else {
      var av, bv := Get(am, ak[0]), Get(bm, bk[0]);
      var tx, ty := MoreMembers(am, ak[1..]) + u, MoreMembers(bm, bk[1..]) + w;
      var vx, vy := [COLON] + (Canonicalize(av) + tx), [COLON] + (Canonicalize(bv) + ty);
      MembersText(am, ak, u);
      MembersText(bm, bk, w);
      Cancel([COMMA], Quote(ak[0]) + vx, [COMMA], Quote(bk[0]) + vy);
      QuoteReadable(ak[0], vx, bk[0], vy);
      Cancel([COLON], Canonicalize(av) + tx, [COLON], Canonicalize(bv) + ty);
      MembersStart(am, ak[1..], u);
      MembersStart(bm, bk[1..], w);
      Readable(av, tx, bv, ty);
      MoreMembersReadable(am, ak[1..], x, bm, bk[1..], y);
      assert ak == [ak[0]] + ak[1..] && bk == [bk[0]] + bk[1..];
    }
  }

  // ---------------------------------------------------------------------
  // Equal values have equal texts
  // ---------------------------------------------------------------------

  /** The keys are printed in ascending order of their code units. */
  lemma {:induction false} SortedKeysAscend(ms: seq<Member>)
    requires DistinctKeys(ms)
    ensures StrictlySorted(Less, SortedKeys(ms))
  {
    hide Less;
    LessOrders();
    SortStrict(Less, Keys(ms));
  }

  lemma {:induction false} SortedKeysSame(am: seq<Member>, bm: seq<Member>)
    requires DistinctKeys(am) && DistinctKeys(bm)
    requires forall k :: k in Keys(am) <==> k in Keys(bm)
    ensures SortedKeys(am) == SortedKeys(bm) && StrictlySorted(Less, SortedKeys(am))
  {
    hide Less;
    LessOrders();
    SortStrict(Less, Keys(am));
    SortStrict(Less, Keys(bm));
    StrictlySortedUnique(Less, SortedKeys(am), SortedKeys(bm));
  }

  lemma {:induction false} SameText(a: Json, b: Json)
    requires WellFormed(a) && WellFormed(b) && Same(a, b)
    ensures Canonicalize(a) == Canonicalize(b)
    decreases a, 1
  {
    hide Items, Members, SortedKeys;
    match a
    case Arr(items) => ItemsSame(items, b.items);
    case Obj(members) =>
      SortedKeysSame(members, b.members);
      MembersSame(members, b.members, SortedKeys(members));
    case _ =>
  }

  lemma {:induction false} ItemsSame(xs: seq<Json>, ys: seq<Json>)
    requires (forall v :: v in xs ==> WellFormed(v)) && (forall v :: v in ys ==> WellFormed(v))
    requires |xs| == |ys| && forall i :: 0 <= i < |xs| ==> Same(xs[i], ys[i])
    ensures Items(xs) == Items(ys) && MoreItems(xs) == MoreItems(ys)
    decreases xs, 0
  {
    hide Canonicalize, Same, WellFormed;
    if xs != [] {
      SameText(xs[0], ys[0]);
      ItemsSame(xs[1..], ys[1..]);
    }
  }

  lemma {:induction false} MembersSame(am: seq<Member>, bm: seq<Member>, keys: seq<Text>)
    requires (forall m :: m in am ==> WellFormed(m.value)) && (forall m :: m in bm ==> WellFormed(m.value))
    requires forall k :: k in keys ==> k in Keys(am) && k in Keys(bm) && Same(Get(am, k), Get(bm, k))
    ensures Members(am, keys) == Members(bm, keys) && MoreMembers(am, keys) == MoreMembers(bm, keys)
    decreases am, 0, |keys|
  {
    hide Canonicalize, Same, WellFormed, Get, Quote;
    if keys != [] {
      assert keys[0] in keys;
      var av, bv := Get(am, keys[0]), Get(bm, keys[0]);
      assert Member(keys[0], av) in am && Member(keys[0], bv) in bm;
      SameText(av, bv);
      MembersSame(am, bm, keys[1..]);
    }
  }

  /** Two JSON values have the same canonical text exactly when they are equal
      up to the order of members at every depth. */
  lemma {:induction false} CanonicalTextExactly(a: Json, b: Json)
    requires WellFormed(a) && WellFormed(b)
    ensures Canonicalize(a) == Canonicalize(b) <==> Same(a, b)
  {
    if Canonicalize(a) == Canonicalize(b) {
      Readable(a, [], b, []);
    }
    if Same(a, b) {
      SameText(a, b);
    }
  }

  // ---------------------------------------------------------------------
  // The text survives UTF-8
  // ---------------------------------------------------------------------

  /** No control character and no lone surrogate. */
  ghost predicate Clean(t: Text) {
    forall i :: 0 <= i < |t| ==>
      t[i] >= 0x20 && (HighSurrogate(t[i]) || LowSurrogate(t[i]) ==> Paired(t, i))
  }

  lemma {:induction false} CleanJoin(a: Text, b: Text)
    requires Clean(a) && Clean(b)
    ensures Clean(a + b)
  {
    var t := a + b;
    forall i | 0 <= i < |t|
      ensures t[i] >= 0x20 && (HighSurrogate(t[i]) || LowSurrogate(t[i]) ==> Paired(t, i))
    {
      if i < |a| {
        assert t[i] == a[i];
        assert i + 1 < |a| ==> t[i + 1] == a[i + 1];
      } else {
        assert t[i] == b[i - |a|];
        assert i + 1 < |t| ==> t[i + 1] == b[i + 1 - |a|];
      }
    }
  }

  lemma {:induction false} EscapeClean(c: Unit, paired: bool)
    requires paired ==> !HighSurrogate(c) && !LowSurrogate(c)
    ensures Clean(Escape(c, paired))
  {
    hide HexDigit;
    assert Clean(Hex(c)) by { HexClean(c); }
    if ShortEscape(c) == 0 && |Escape(c, paired)| > 1 {
      CleanJoin([BACKSLASH, 0x75], Hex(c));
    }
  }

  lemma {:induction false} HexClean(c: Unit)
    ensures Clean(Hex(c))
  {
    assert forall d :: 0 <= d < 16 ==> 0x30 <= HexDigit(d) <= 0x66;
  }

  /** `i` does not stand between the halves of a pair. */
  ghost predicate Between(s: Text, i: nat)
    requires i <= |s|
  {
    0 < i < |s| ==> !(HighSurrogate(s[i - 1]) && LowSurrogate(s[i]))
  }

  lemma {:induction false} BodyClean(s: Text, i: nat)
    requires i <= |s| && Between(s, i)
    ensures Clean(Body(s, i))
    decreases |s| - i
  {
    hide Clean, Escape, Body;
    BodyUnfolds(s, i);
    if i == |s| {
      NothingClean();
    } else if HighSurrogate(s[i]) && i + 1 < |s| && LowSurrogate(s[i + 1]) {
      BodyClean(s, i + 2);
      PairEscapes(s, i);
      CleanJoin([s[i], s[i + 1]], Body(s, i + 2));
    } else {
      BodyClean(s, i + 1);
      EscapeClean(s[i], Paired(s, i));
      CleanJoin(Escape(s[i], Paired(s, i)), Body(s, i + 1));
    }
  }

  lemma {:induction false} BodyUnfolds(s: Text, i: nat)
    requires i <= |s|
    ensures Body(s, i) == if i == |s| then [] else Escape(s[i], Paired(s, i)) + Body(s, i + 1)
  {
    hide Escape, Paired;
  }

  lemma {:induction false} NothingClean()
    ensures Clean([])
  {
  }

  /** Both halves of a pair are printed as they are. */
  lemma {:induction false} PairEscapes(s: Text, i: nat)
    requires i + 1 < |s| && HighSurrogate(s[i]) && LowSurrogate(s[i + 1])
    ensures Body(s, i) == [s[i], s[i + 1]] + Body(s, i + 2)
    ensures Clean([s[i], s[i + 1]])
  {
    hide Body, Hex;
    BodyUnfolds(s, i);
    BodyUnfolds(s, i + 1);
    var rest := Body(s, i + 2);
    assert [s[i]] + ([s[i + 1]] + rest) == [s[i], s[i + 1]] + rest;
  }

  lemma {:induction false} QuoteClean(s: Text)
    ensures Clean(Quote(s))
  {
    BodyClean(s, 0);
    CleanJoin([QUOTE], Body(s, 0));
    CleanJoin([QUOTE] + Body(s, 0), [QUOTE]);
  }

  /** The canonical text has no control character and no lone surrogate, so
      encoding it as UTF-8 for hashing loses nothing. */
  lemma {:induction false} CanonicalTextClean(v: Json)
    ensures Clean(Canonicalize(v))
    decreases v, 1
  {
    match v
    case Str(s) => QuoteClean(s);
    case Arr(items) =>
      ItemsClean(items);
      CleanJoin([LBRACKET], Items(items));
      CleanJoin([LBRACKET] + Items(items), [RBRACKET]);
    case Obj(members) =>
      var text := Members(members, SortedKeys(members));
      MembersClean(members, SortedKeys(members));
      CleanJoin([LBRACE], text);
      CleanJoin([LBRACE] + text, [RBRACE]);
    case _ =>
  }

  lemma {:induction false} ItemsClean(xs: seq<Json>)
    ensures Clean(Items(xs)) && Clean(MoreItems(xs))
    decreases xs, 0
  {
    hide Canonicalize;
    if xs != [] {
      CanonicalTextClean(xs[0]);
      ItemsClean(xs[1..]);
      CleanJoin(Canonicalize(xs[0]), MoreItems(xs[1..]));
      CleanJoin([COMMA], Canonicalize(xs[0]));
      CleanJoin([COMMA] + Canonicalize(xs[0]), MoreItems(xs[1..]));
    }
  }

  lemma {:induction false} MembersClean(ms: seq<Member>, keys: seq<Text>)
    requires forall k :: k in keys ==> k in Keys(ms)
    ensures Clean(Members(ms, keys)) && Clean(MoreMembers(ms, keys))
    decreases ms, 0, |keys|
  {
    hide Canonicalize, Quote, Get;
    if keys != [] {
      var v := Get(ms, keys[0]);
      assert Member(keys[0], v) in ms;
      CanonicalTextClean(v);
      QuoteClean(keys[0]);
      CleanJoin(Quote(keys[0]), [COLON]);
      CleanJoin(Quote(keys[0]) + [COLON], Canonicalize(v));
      MembersClean(ms, keys[1..]);
      CleanJoin(MemberText(ms, keys[0]), MoreMembers(ms, keys[1..]));
      CleanJoin([COMMA], MemberText(ms, keys[0]));
      CleanJoin([COMMA] + MemberText(ms, keys[0]), MoreMembers(ms, keys[1..]));
    }
  }
}
