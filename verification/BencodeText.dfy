/** Bencoded values, their order-preserving rendering, and the numbers inside it. */
module BencodeText {
  import opened Common

  const ASCII_ZERO: Byte := 48
  const ASCII_NINE: Byte := 57
  const COLON: Byte := 58
  const MINUS: Byte := 45
  const PLUS: Byte := 43
  const LOWER_D: Byte := 100
  const LOWER_E: Byte := 101
  const LOWER_I: Byte := 105
  const LOWER_L: Byte := 108

  const I64_MIN: int := -0x8000_0000_0000_0000
  const I64_MAX: int := 0x7fff_ffff_ffff_ffff
  const U64_MAX: int := 0xffff_ffff_ffff_ffff
  /** The longest slice the platform can hold (`isize::MAX` on 64 bits). */
  const ISIZE_MAX: int := 0x7fff_ffff_ffff_ffff

  // ----- decimal numbers -----

  predicate IsDigit(b: Byte) { ASCII_ZERO <= b <= ASCII_NINE }

  predicate AllDigits(s: Bytes) { forall i | 0 <= i < |s| :: IsDigit(s[i]) }

  /** No leading zero, except the number zero itself. */
  predicate Canonic(s: Bytes) { |s| > 0 && AllDigits(s) && (|s| > 1 ==> s[0] != ASCII_ZERO) }

  /** Decimal text of a natural number. */
  function Dec(n: nat): (s: Bytes)
    ensures Canonic(s)
    ensures s[0] == ASCII_ZERO ==> n == 0
  {
    if n < 10 then [ASCII_ZERO + n] else Dec(n / 10) + [ASCII_ZERO + n % 10]
  }

  /** The number a digit string stands for. */
  function DecVal(s: Bytes): nat
    requires AllDigits(s)
  {
    if s == [] then 0 else 10 * DecVal(s[..|s| - 1]) + (s[|s| - 1] - ASCII_ZERO)
  }

  lemma {:induction false} DecValDec(n: nat)
    ensures DecVal(Dec(n)) == n
  {
    if n < 10 {
      assert Dec(n)[..0] == [];
    } else {
      DecValDec(n / 10);
      assert Dec(n)[..|Dec(n)| - 1] == Dec(n / 10);
    }
  }

  lemma {:induction false} DecDecVal(s: Bytes)
    requires Canonic(s)
    ensures Dec(DecVal(s)) == s
    ensures DecVal(s) == 0 ==> s == [ASCII_ZERO]
  {
    var front, last := s[..|s| - 1], s[|s| - 1] - ASCII_ZERO;
    if front == [] {
      assert s == [s[0]];
    } else {
      DecDecVal(front);
      var n := DecVal(front);
      assert n > 0;
      assert (10 * n + last) / 10 == n && (10 * n + last) % 10 == last;
      assert s == front + [s[|s| - 1]];
    }
  }

  /** Text of a signed number, as the printer writes it. */
  function IntText(n: int): Bytes { if n < 0 then [MINUS] + Dec(-n) else Dec(n) }

  /** The library's signed parser: an optional sign, at least one digit, and no overflow. */
  function ParseI64(s: Bytes): Option<int> {
    var body := if s != [] && (s[0] == MINUS || s[0] == PLUS) then s[1..] else s;
    if body == [] || !AllDigits(body) then None
    else
      var m: int := DecVal(body);
      var n := if s[0] == MINUS then -m else m;
      if I64_MIN <= n <= I64_MAX then Some(n) else None
  }

  /** The library's unsigned parser. */
  function ParseU64(s: Bytes): Option<nat> {
    var body := if s != [] && s[0] == PLUS then s[1..] else s;
    if body == [] || !AllDigits(body) then None
    else if DecVal(body) <= U64_MAX then Some(DecVal(body)) else None
  }

  /** What `parse_int` accepts between `i` and `e`: no plus, no negative zero, no leading zero. */
  function AcceptInt(s: Bytes): Option<int> {
    if s == [] || s[0] == PLUS || s == [MINUS, ASCII_ZERO] then None
    else if |s| > 1 && LeadingZero(if s[0] == MINUS then s[1..] else s) then None
    else ParseI64(s)
  }

  predicate LeadingZero(s: Bytes) { |s| > 0 && s[0] == ASCII_ZERO }

  /** What `parse_bytes` accepts before the colon. */
  function AcceptLength(s: Bytes): Option<nat> {
    if |s| > 1 && s[0] == ASCII_ZERO then None else ParseU64(s)
  }

  /** `parse_int` accepts a text with value `n` exactly when it is how the printer writes `n`. */
  lemma AcceptIntExact(s: Bytes, n: int)
    ensures AcceptInt(s) == Some(n) <==> s == IntText(n) && -0x8000_0000_0000_0000 <= n <= 0x7fff_ffff_ffff_ffff
  {
    if AcceptInt(s) == Some(n) {
      AcceptIntSound(s, n);
    }
    if s == IntText(n) && I64_MIN <= n <= I64_MAX {
      AcceptIntComplete(n);
    }
  }

  lemma AcceptIntSound(s: Bytes, n: int)
    requires AcceptInt(s) == Some(n)
    ensures s == IntText(n) && I64_MIN <= n <= I64_MAX
  {
    hide Dec;
    var body := if s[0] == MINUS then s[1..] else s;
    DecDecVal(body);
    if s[0] == MINUS {
      assert s == [MINUS] + body;
    }
  }

  lemma AcceptIntComplete(n: int)
    requires I64_MIN <= n <= I64_MAX
    ensures AcceptInt(IntText(n)) == Some(n)
  {
    hide Dec, DecVal;
    var m := if n < 0 then -n else n;
    DecValDec(m);
    if n < 0 {
      assert IntText(n)[1..] == Dec(m);
    }
  }

  lemma {:induction false} AcceptLengthExact(s: Bytes, n: nat)
    requires s != [] ==> IsDigit(s[0])
    ensures AcceptLength(s) == Some(n) <==> s == Dec(n) && n <= 0xffff_ffff_ffff_ffff
  {
    if AcceptLength(s) == Some(n) {
      DecDecVal(s);
    }
    if s == Dec(n) {
      DecValDec(n);
    }
  }

  /** The first index at or after `from` that holds `b`, or the length of `s`. */
  function IndexOf(s: Bytes, b: Byte, from: nat): (r: nat)
    requires from <= |s|
    ensures from <= r <= |s|
    ensures b !in s[from..r]
    ensures r < |s| ==> s[r] == b
    decreases |s| - from
  {
    if from == |s| || s[from] == b then from
    else
      var r := IndexOf(s, b, from + 1);
      assert s[from..r] == [s[from]] + s[from + 1..r];
      r
  }

  lemma IndexOfIs(s: Bytes, b: Byte, from: nat, r: nat)
    requires from <= r < |s| && s[r] == b && b !in s[from..r]
    ensures IndexOf(s, b, from) == r
  {
  }

  lemma IntTextFree(n: int, b: Byte)
    requires !IsDigit(b) && b != MINUS
    ensures b !in IntText(n)
  {
    var d := Dec(if n < 0 then -n else n);
    assert forall i | 0 <= i < |d| :: IsDigit(d[i]);
  }

  // ----- values -----

  datatype Value =
    | Int(n: int)
    | Str(bytes: Bytes)
    | List(items: seq<Value>)
    | Dict(entries: seq<Entry>)

  datatype Entry = Entry(key: Bytes, value: Value)

  function KeysOf(es: seq<Entry>): (ks: seq<Bytes>)
    ensures |ks| == |es|
    ensures forall i | 0 <= i < |es| :: ks[i] == es[i].key
  {
    seq(|es|, i requires 0 <= i < |es| => es[i].key)
  }

  /** `Value::get`: the first entry with the key. */
  function Get(v: Value, key: Bytes): Option<Value> {
    if v.Dict? then Find(v.entries, key) else None
  }

  function Find(es: seq<Entry>, key: Bytes): Option<Value> {
    if es == [] then None
    else if es[0].key == key then Some(es[0].value)
    else Find(es[1..], key)
  }

  // ----- rendering -----

  function StrText(b: Bytes): Bytes { Dec(|b|) + [COLON] + b }

  /** The text of a value with its dictionaries in the order they are stored. */
  function Render(v: Value): (s: Bytes)
    ensures |s| > 0
    decreases v, 1
  {
    match v
    case Int(n) => [LOWER_I] + IntText(n) + [LOWER_E]
    case Str(b) => StrText(b)
    case List(items) => [LOWER_L] + RenderItems(items) + [LOWER_E]
    case Dict(entries) => [LOWER_D] + RenderEntries(entries) + [LOWER_E]
  }

  function RenderItems(items: seq<Value>): Bytes
    decreases items, 0
  {
    if items == [] then [] else Render(items[0]) + RenderItems(items[1..])
  }

  function RenderEntries(es: seq<Entry>): Bytes
    decreases es, 0
  {
    if es == [] then [] else StrText(es[0].key) + Render(es[0].value) + RenderEntries(es[1..])
  }

  // ----- measures of a value -----

  /** Nesting below a value: a scalar or an empty container has none. */
  function Depth(v: Value): nat
    decreases v, 1
  {
    match v
    case Int(_) => 0
    case Str(_) => 0
    case List(items) => DepthItems(items)
    case Dict(entries) => DepthEntries(entries)
  }

  function DepthItems(items: seq<Value>): nat
    decreases items, 0
  {
    if items == [] then 0 else Max(1 + Depth(items[0]), DepthItems(items[1..]))
  }

  function DepthEntries(es: seq<Entry>): nat
    decreases es, 0
  {
    if es == [] then 0 else Max(1 + Depth(es[0].value), DepthEntries(es[1..]))
  }

  /** How many values the parser notes; a dictionary key counts as one. */
  function Count(v: Value): (n: nat)
    ensures n > 0
    decreases v, 1
  {
    match v
    case Int(_) => 1
    case Str(_) => 1
    case List(items) => 1 + CountItems(items)
    case Dict(entries) => 1 + CountEntries(entries)
  }

  function CountItems(items: seq<Value>): nat
    decreases items, 0
  {
    if items == [] then 0 else Count(items[0]) + CountItems(items[1..])
  }

  function CountEntries(es: seq<Entry>): nat
    decreases es, 0
  {
    if es == [] then 0 else 1 + Count(es[0].value) + CountEntries(es[1..])
  }

  /** Every dictionary has pairwise distinct keys. */
  predicate DistinctKeys(v: Value)
    decreases v, 1
  {
    match v
    case Int(_) => true
    case Str(_) => true
    case List(items) => DistinctItems(items)
    case Dict(entries) => Distinct(KeysOf(entries)) && DistinctEntries(entries)
  }

  predicate DistinctItems(items: seq<Value>)
    decreases items, 0
  {
    items == [] || (DistinctKeys(items[0]) && DistinctItems(items[1..]))
  }

  predicate DistinctEntries(es: seq<Entry>)
    decreases es, 0
  {
    es == [] || (DistinctKeys(es[0].value) && DistinctEntries(es[1..]))
  }

  /** The values the engine's own types can hold: 64-bit integers, addressable strings. */
  predicate Representable(v: Value)
    decreases v, 1
  {
    match v
    case Int(n) => -0x8000_0000_0000_0000 <= n <= 0x7fff_ffff_ffff_ffff
    case Str(b) => |b| <= 0x7fff_ffff_ffff_ffff
    case List(items) => RepresentableItems(items)
    case Dict(entries) => RepresentableEntries(entries)
  }

  predicate RepresentableItems(items: seq<Value>)
    decreases items, 0
  {
    items == [] || (Representable(items[0]) && RepresentableItems(items[1..]))
  }

  predicate RepresentableEntries(es: seq<Entry>)
    decreases es, 0
  {
    es == []
    || (|es[0].key| <= 0x7fff_ffff_ffff_ffff && Representable(es[0].value) && RepresentableEntries(es[1..]))
  }

  // ----- byte order on keys -----

  /** The byte-wise order of slices. */
  predicate Less(a: Bytes, b: Bytes) {
    if b == [] then false
    else if a == [] then true
    else if a[0] != b[0] then a[0] < b[0]
    else Less(a[1..], b[1..])
  }

  lemma {:induction false} LessTotal(a: Bytes, b: Bytes)
    ensures a == b || Less(a, b) || Less(b, a)
    ensures !(Less(a, b) && Less(b, a))
    ensures !Less(a, a)
  {
    if a == [] {
    } else {
      LessTotal(a[1..], if b == [] then [] else b[1..]);
    }
    if a != [] && b != [] && a[0] == b[0] && a[1..] == b[1..] {
      assert a == [a[0]] + a[1..] == b;
    }
  }

  lemma {:induction false} LessTransitive(a: Bytes, b: Bytes, c: Bytes)
    requires Less(a, b) && Less(b, c)
    ensures Less(a, c)
  {
    if a != [] && a[0] == b[0] && b[0] == c[0] {
      LessTransitive(a[1..], b[1..], c[1..]);
    }
  }

  predicate Ascending(es: seq<Entry>) {
    forall i, j | 0 <= i < j < |es| :: Less(es[i].key, es[j].key)
  }
}
