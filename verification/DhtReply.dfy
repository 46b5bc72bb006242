/** Replies kept within one small datagram: whole entries are cut from the ends of the long fields. */
module DhtReply {
  import opened Common
  import opened BencodeText
  import opened BencodeEncoder

  const MAX_KRPC_RESPONSE_BYTES: nat := 1024

  const KEY_E: Bytes := [101]
  const KEY_R: Bytes := [114]
  const KEY_T: Bytes := [116]
  const KEY_V: Bytes := [118]
  const KEY_Y: Bytes := [121]
  const KEY_IP: Bytes := [105, 112]
  const KEY_ID: Bytes := [105, 100]
  const KEY_TOKEN: Bytes := [116, 111, 107, 101, 110]
  const KEY_VALUES: Bytes := [118, 97, 108, 117, 101, 115]
  const KEY_NODES: Bytes := [110, 111, 100, 101, 115]
  const KEY_NODES6: Bytes := [110, 111, 100, 101, 115, 54]

  /** The first entry with the key, or the end. */
  function Position(es: seq<Entry>, key: Bytes): (i: nat)
    ensures i <= |es| && (i < |es| ==> es[i].key == key)
    ensures forall j | 0 <= j < i :: es[j].key != key
  {
    if es == [] || es[0].key == key then 0
    else
      var i := 1 + Position(es[1..], key);
      assert forall j | 1 <= j < i :: es[j] == es[1..][j - 1];
      i
  }

  /** Replace the value at `i`, or take its entry out. */
  function Put(es: seq<Entry>, i: nat, v: Option<Value>): seq<Entry>
    requires i < |es|
  {
    match v
    case None => es[..i] + es[i + 1..]
    case Some(x) => es[i := Entry(es[i].key, x)]
  }

  // ----- the cut made before anything is encoded -----

  function CappedBytes(b: Bytes, width: nat): Bytes
    requires width > 0
  {
    CapBound(b, width);
    b[..Min(|b|, MAX_KRPC_RESPONSE_BYTES / width * width) / width * width]
  }

  lemma CapBound(b: Bytes, width: nat)
    requires width > 0
    ensures 0 <= MAX_KRPC_RESPONSE_BYTES / width * width
    ensures 0 <= Min(|b|, MAX_KRPC_RESPONSE_BYTES / width * width) / width * width <= |b|
  {
    assert 0 <= MAX_KRPC_RESPONSE_BYTES / width;
    var n := Min(|b|, MAX_KRPC_RESPONSE_BYTES / width * width);
    assert n == n / width * width + n % width;
    assert 0 <= n / width;
  }

  function CappedItems(items: seq<Value>): seq<Value> {
    items[..Min(|items|, MAX_KRPC_RESPONSE_BYTES / 6)]
  }

  function CapValue(key: Bytes, width: nat, v: Value): Option<Value>
    requires width > 0
  {
    match v
    case List(items) => if key == KEY_VALUES then Some(List(CappedItems(items))) else None
    case Str(b) => Some(Str(CappedBytes(b, width)))
    case _ => None
  }

  datatype Field = Field(key: Bytes, width: nat)

  const LONG_FIELDS: seq<Field> := [Field(KEY_VALUES, 6), Field(KEY_NODES, 26), Field(KEY_NODES6, 38)]

  function CapField(body: seq<Entry>, f: Field): seq<Entry>
    requires f.width > 0
  {
    var i := Position(body, f.key);
    if i == |body| then body else Put(body, i, CapValue(f.key, f.width, body[i].value))
  }

  function CapFields(body: seq<Entry>, fs: seq<Field>): seq<Entry>
    requires forall f | f in fs :: f.width > 0
  {
    if fs == [] then body else CapField(CapFields(body, fs[..|fs| - 1]), fs[|fs| - 1])
  }

  // ----- one round of trimming -----

  function HalvedBytes(b: Bytes, width: nat): (r: Bytes)
    requires width > 0
    ensures b != [] ==> |r| < |b|
    ensures r <= b
  {
    HalfBound(|b|, width);
    b[..|b| / width / 2 * width]
  }

  lemma HalfBound(n: nat, width: nat)
    requires width > 0
    ensures 0 <= n / width / 2 * width <= n
    ensures n > 0 ==> n / width / 2 * width < n
  {
    var q := n / width;
    assert n == q * width + n % width;
    assert q >= 0;
    var h := q / 2;
    assert 0 <= h <= q;
    assert 0 <= h * width <= q * width by {
      assert q * width == h * width + (q - h) * width;
      assert h * width >= 0 && (q - h) * width >= 0;
    }
    if q > 0 {
      assert h < q;
      assert (q - h) * width > 0;
      assert q * width == h * width + (q - h) * width;
    }
  }

  function HalveValue(key: Bytes, v: Value): Option<Value> {
    match v
    case List(items) =>
      var half := items[..|items| / 2];
      if half == [] then None else Some(List(half))
    case Str(b) =>
      var half := HalvedBytes(b, if key == KEY_NODES6 then 38 else 26);
      if half == [] then None else Some(Str(half))
    case _ => None
  }

  /** The field a round trims: the first present of these, in this order. */
  function Trimmable(body: seq<Entry>): (i: nat)
    ensures i <= |body|
  {
    if Position(body, KEY_VALUES) < |body| then Position(body, KEY_VALUES)
    else if Position(body, KEY_NODES6) < |body| then Position(body, KEY_NODES6)
    else Position(body, KEY_NODES)
  }

  function TrimBody(body: seq<Entry>): Option<seq<Entry>> {
    var i := Trimmable(body);
    if i == |body| then None else Some(Put(body, i, HalveValue(body[i].key, body[i].value)))
  }

  // ----- the whole of a response -----

  function Body(response: seq<Entry>): Option<seq<Entry>> {
    var i := Position(response, KEY_R);
    if i < |response| && response[i].value.Dict? then Some(response[i].value.entries) else None
  }

  function WithBody(response: seq<Entry>, body: seq<Entry>): (r: seq<Entry>)
    requires Body(response).Some?
    ensures Body(r) == Some(body)
  {
    var i := Position(response, KEY_R);
    var r := response[i := Entry(response[i].key, Dict(body))];
    PositionStays(response, r, KEY_R);
    r
  }

  lemma {:induction false} PositionStays(es: seq<Entry>, fs: seq<Entry>, key: Bytes)
    requires |es| == |fs| && forall i | 0 <= i < |es| :: es[i].key == fs[i].key
    ensures Position(es, key) == Position(fs, key)
  {
    if es == [] {
    } else {
      PositionStays(es[1..], fs[1..], key);
    }
  }

  function Capped(response: seq<Entry>): seq<Entry> {
    var b := Body(response);
    if b.None? then response else WithBody(response, CapFields(b.value, LONG_FIELDS))
  }

  function Trim(response: seq<Entry>): Option<seq<Entry>> {
    var b := Body(response);
    var t := if b.None? then None else TrimBody(b.value);
    if t.None? then None else Some(WithBody(response, t.value))
  }

  function Text(response: seq<Entry>): Bytes { Render(Canon(Dict(response))) }

  /** Entries and what is still in them: every round of trimming lowers it. */
  function Size(v: Value): nat {
    match v
    case List(items) => |items|
    case Str(b) => |b|
    case _ => 0
  }

  function Weight(body: seq<Entry>): nat {
    if body == [] then 0 else 1 + Size(body[0].value) + Weight(body[1..])
  }

  function Load(response: seq<Entry>): nat {
    var b := Body(response);
    if b.None? then 0 else Weight(b.value)
  }

  /** Encode and trim until it fits or nothing is left to trim: the text, and the response it is of. */
  function Fitted(response: seq<Entry>): (Bytes, seq<Entry>)
    decreases Load(response)
  {
    var out := Text(response);
    if |out| <= MAX_KRPC_RESPONSE_BYTES || Trim(response).None? then (out, response)
    else
      TrimShrinks(response);
      Fitted(Trim(response).value)
  }

  function Bounded(response: seq<Entry>): (Bytes, seq<Entry>) { Fitted(Capped(response)) }

  lemma {:induction false} WeightPut(body: seq<Entry>, i: nat, v: Option<Value>)
    requires i < |body| && (v.Some? ==> Size(v.value) < Size(body[i].value))
    ensures Weight(Put(body, i, v)) < Weight(body)
  {
    if i == 0 {
      if v.None? {
        assert Put(body, i, v) == body[1..];
      } else {
        assert Put(body, i, v)[1..] == body[1..];
      }
    } else {
      WeightPut(body[1..], i - 1, v);
      assert Put(body, i, v)[1..] == Put(body[1..], i - 1, v);
    }
  }

  lemma TrimShrinks(response: seq<Entry>)
    requires Trim(response).Some?
    ensures Load(Trim(response).value) < Load(response)
  {
    var body := Body(response).value;
    var i := Trimmable(body);
    WeightPut(body, i, HalveValue(body[i].key, body[i].value));
  }

  // ----- no repeated keys -----

  /** Cutting a value short, or taking an entry out, repeats no key. */
  lemma PutDistinct(es: seq<Entry>, i: nat, v: Option<Value>)
    requires i < |es| && DistinctKeys(Dict(es)) && (v.Some? ==> DistinctKeys(v.value))
    ensures DistinctKeys(Dict(Put(es, i, v)))
  {
    var out := Put(es, i, v);
    DistinctAll([], es);
    DistinctAll([], out);
    if v.None? {
      forall j, k | 0 <= j < k < |out|
        ensures out[j].key != out[k].key
      {
        assert KeysOf(es)[if j < i then j else j + 1] != KeysOf(es)[if k < i then k else k + 1];
      }
    } else {
      assert KeysOf(out) == KeysOf(es);
    }
  }

  lemma PartDistinct(v: Value, n: nat)
    requires DistinctKeys(v) && v.List? && n <= |v.items|
    ensures DistinctKeys(List(v.items[..n]))
  {
    DistinctAll(v.items, []);
    DistinctAll(v.items[..n], []);
  }

  lemma EntryDistinct(es: seq<Entry>, i: nat)
    requires i < |es| && DistinctKeys(Dict(es))
    ensures DistinctKeys(es[i].value)
  {
    DistinctAll([], es);
  }

  lemma CapFieldDistinct(body: seq<Entry>, f: Field)
    requires f.width > 0 && DistinctKeys(Dict(body))
    ensures DistinctKeys(Dict(CapField(body, f)))
  {
    var i := Position(body, f.key);
    if i < |body| {
      var v := body[i].value;
      EntryDistinct(body, i);
      if v.List? {
        PartDistinct(v, Min(|v.items|, MAX_KRPC_RESPONSE_BYTES / 6));
      }
      hide DistinctKeys, Put, CappedBytes, Position;
      StrDistinct();
      PutDistinct(body, i, CapValue(f.key, f.width, v));
    }
  }

  lemma StrDistinct()
    ensures forall b :: DistinctKeys(Str(b))
  {
  }

  lemma {:induction false} CapFieldsDistinct(body: seq<Entry>, fs: seq<Field>)
    requires (forall f | f in fs :: f.width > 0) && DistinctKeys(Dict(body))
    ensures DistinctKeys(Dict(CapFields(body, fs)))
  {
    if fs == [] {
    } else {
      CapFieldsDistinct(body, fs[..|fs| - 1]);
      CapFieldDistinct(CapFields(body, fs[..|fs| - 1]), fs[|fs| - 1]);
    }
  }

  lemma TrimBodyDistinct(body: seq<Entry>)
    requires DistinctKeys(Dict(body)) && TrimBody(body).Some?
    ensures DistinctKeys(Dict(TrimBody(body).value))
  {
    var i := Trimmable(body);
    var v := body[i].value;
    EntryDistinct(body, i);
    if v.List? {
      PartDistinct(v, |v.items| / 2);
    }
    StrDistinct();
    hide DistinctKeys, Put, HalvedBytes, Position;
    PutDistinct(body, i, HalveValue(body[i].key, v));
  }

  lemma WithBodyDistinct(response: seq<Entry>, body: seq<Entry>)
    requires Body(response).Some? && DistinctKeys(Dict(response)) && DistinctKeys(Dict(body))
    ensures DistinctKeys(Dict(WithBody(response, body)))
  {
    var i := Position(response, KEY_R);
    PutDistinct(response, i, Some(Dict(body)));
  }

  lemma BodyDistinct(response: seq<Entry>)
    requires Body(response).Some? && DistinctKeys(Dict(response))
    ensures DistinctKeys(Dict(Body(response).value))
  {
    EntryDistinct(response, Position(response, KEY_R));
  }

  lemma CappedDistinct(response: seq<Entry>)
    requires DistinctKeys(Dict(response))
    ensures DistinctKeys(Dict(Capped(response)))
  {
    if Body(response).Some? {
      BodyDistinct(response);
      hide DistinctKeys, CapFields;
      CapFieldsDistinct(Body(response).value, LONG_FIELDS);
      WithBodyDistinct(response, CapFields(Body(response).value, LONG_FIELDS));
    }
  }

  lemma TrimDistinct(response: seq<Entry>)
    requires DistinctKeys(Dict(response)) && Trim(response).Some?
    ensures DistinctKeys(Dict(Trim(response).value))
  {
    BodyDistinct(response);
    hide DistinctKeys, TrimBody;
    TrimBodyDistinct(Body(response).value);
    WithBodyDistinct(response, TrimBody(Body(response).value).value);
  }
}
