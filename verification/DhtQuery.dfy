/** Answering a query: what a reply holds, that it fits, and what trimming leaves of it. */
module DhtQuery {
  import opened Common
  import opened BencodeText
  import opened BencodeEncoder
  import opened DhtReply

  // ----- trimming in place -----

  /** Encode; if too long, trim one field and try again. Two equal keys would make the encoder fail. */
  method BoundedResponseBytes(response: seq<Entry>) returns (out: Bytes, kept: seq<Entry>)
    requires DistinctKeys(Dict(response))
    ensures (out, kept) == Bounded(response)
  {
    hide *;
    kept := CapLongFields(response);
    CappedDistinct(response);
    var ok: bool;
    ok, out := EncodeToWriter(Dict(kept), []);
    TextIs(kept);
    while |out| > MAX_KRPC_RESPONSE_BYTES
      invariant DistinctKeys(Dict(kept)) && out == Text(kept)
      invariant Fitted(kept) == Bounded(response)
      decreases Load(kept)
    {
      FittedStep(kept);
      var trimmed, next := TrimOne(kept);
      if !trimmed {
        return;
      }
      TrimDistinct(kept);
      TrimShrinks(kept);
      kept := next;
      ok, out := EncodeToWriter(Dict(kept), []);
      TextIs(kept);
    }
    FittedStep(kept);
  }

  method CapLongFields(response: seq<Entry>) returns (out: seq<Entry>)
    ensures out == Capped(response) && Fitted(out) == Bounded(response)
  {
    hide CapField, Fitted;
    out := response;
    var i := Position(response, KEY_R);
    if i < |response| && response[i].value.Dict? {
      var body := response[i].value.entries;
      for k := 0 to |LONG_FIELDS|
        invariant body == CapFields(response[i].value.entries, LONG_FIELDS[..k])
      {
        assert LONG_FIELDS[..k + 1][..k] == LONG_FIELDS[..k];
        var f := LONG_FIELDS[k];
        var at := Position(body, f.key);
        CapFieldIs(body, f);
        if at < |body| {
          body := Put(body, at, CapValue(f.key, f.width, body[at].value));
        }
      }
      assert LONG_FIELDS[..|LONG_FIELDS|] == LONG_FIELDS;
      out := response[i := Entry(response[i].key, Dict(body))];
    }
  }

  lemma CapFieldIs(body: seq<Entry>, f: Field)
    requires f.width > 0
    ensures CapField(body, f) ==
            if Position(body, f.key) == |body| then body
            else Put(body, Position(body, f.key), CapValue(f.key, f.width, body[Position(body, f.key)].value))
  {
  }

  const TRIM_ORDER: seq<Bytes> := [KEY_VALUES, KEY_NODES6, KEY_NODES]

  method TrimOne(response: seq<Entry>) returns (trimmed: bool, out: seq<Entry>)
    ensures trimmed <==> Trim(response).Some?
    ensures out == if trimmed then Trim(response).value else response
  {
    trimmed, out := false, response;
    var i := Position(response, KEY_R);
    if i < |response| && response[i].value.Dict? {
      var body := response[i].value.entries;
      for k := 0 to |TRIM_ORDER|
        invariant k >= 1 ==> Position(body, TRIM_ORDER[0]) == |body|
        invariant k >= 2 ==> Position(body, TRIM_ORDER[1]) == |body|
        invariant k >= 3 ==> Position(body, TRIM_ORDER[2]) == |body|
      {
        var at := Position(body, TRIM_ORDER[k]);
        if at < |body| {
          assert at == Trimmable(body);
          body := Put(body, at, HalveValue(body[at].key, body[at].value));
          out := response[i := Entry(response[i].key, Dict(body))];
          return true, out;
        }
      }
    }
  }

  lemma TextIs(response: seq<Entry>)
    ensures [] + Render(Canon(Dict(response))) == Text(response)
  {
    assert [] + Text(response) == Text(response);
  }

  lemma FittedStep(response: seq<Entry>)
    ensures |Text(response)| <= MAX_KRPC_RESPONSE_BYTES || Trim(response).None? ==>
              Fitted(response) == (Text(response), response)
    ensures |Text(response)| > MAX_KRPC_RESPONSE_BYTES && Trim(response).Some? ==>
              Fitted(response) == Fitted(Trim(response).value)
  {
  }

  // ----- the fields of a reply -----

  /** What a reply's body says, before it is laid out as entries. */
  datatype Fields = Fields(id: Bytes, token: Option<Bytes>, values: seq<Value>, nodes: Option<Bytes>, nodes6: Option<Bytes>)

  function OptEntry(key: Bytes, b: Option<Bytes>): seq<Entry> { if b.None? then [] else [Entry(key, Str(b.value))] }

  function ValuesEntry(values: seq<Value>): seq<Entry> { if values == [] then [] else [Entry(KEY_VALUES, List(values))] }

  function Head(id: Bytes, token: Option<Bytes>): (h: seq<Entry>)
    ensures forall i | 0 <= i < |h| :: h[i].key == KEY_ID || h[i].key == KEY_TOKEN
  {
    [Entry(KEY_ID, Str(id))] + OptEntry(KEY_TOKEN, token)
  }

  function Laid(f: Fields): seq<Entry> {
    Head(f.id, f.token) + ValuesEntry(f.values) + OptEntry(KEY_NODES, f.nodes) + OptEntry(KEY_NODES6, f.nodes6)
  }

  function Some0(b: Bytes): Option<Bytes> { if b == [] then None else Some(b) }

  /** One round of trimming, read off the fields. */
  function CutFields(f: Fields): Option<Fields> {
    if f.values != [] then Some(f.(values := f.values[..|f.values| / 2]))
    else if f.nodes6.Some? then Some(f.(nodes6 := Some0(HalvedBytes(f.nodes6.value, 38))))
    else if f.nodes.Some? then Some(f.(nodes := Some0(HalvedBytes(f.nodes.value, 26))))
    else None
  }

  function CapFieldsOf(f: Fields): Fields {
    f.(values := CappedItems(f.values),
       nodes := if f.nodes.None? then None else Some(CappedBytes(f.nodes.value, 26)),
       nodes6 := if f.nodes6.None? then None else Some(CappedBytes(f.nodes6.value, 38)))
  }

  lemma {:induction false} PositionAfter(a: seq<Entry>, b: seq<Entry>, key: Bytes)
    requires forall i | 0 <= i < |a| :: a[i].key != key
    ensures Position(a + b, key) == |a| + Position(b, key)
  {
    if a == [] {
      assert a + b == b;
    } else {
      assert (a + b)[1..] == a[1..] + b;
      PositionAfter(a[1..], b, key);
    }
  }

  lemma {:induction false} PositionAbsent(a: seq<Entry>, key: Bytes)
    requires forall i | 0 <= i < |a| :: a[i].key != key
    ensures Position(a, key) == |a|
  {
    PositionAfter(a, [], key);
    assert a + [] == a;
  }

  lemma PutMiddle(a: seq<Entry>, e: Entry, b: seq<Entry>, v: Option<Value>)
    ensures Put(a + [e] + b, |a|, v) == a + (if v.None? then [] else [Entry(e.key, v.value)]) + b
  {
  }

  /** Where a field stands, given what is laid before and after it. */
  lemma PlaceOf(key: Bytes, before: seq<Entry>, field: seq<Entry>, after: seq<Entry>)
    requires forall i | 0 <= i < |before| :: before[i].key != key
    requires forall i | 0 <= i < |after| :: after[i].key != key
    requires field == [] || field[0].key == key
    ensures Position(before + field + after, key) == if field == [] then |before + field + after| else |before|
  {
    var l := before + field + after;
    if field == [] {
      PositionAbsent(l, key);
    } else {
      assert l == before + (field + after);
      PositionAfter(before, field + after, key);
    }
  }

  lemma Places(f: Fields)
    ensures Position(Laid(f), KEY_VALUES) == if f.values == [] then |Laid(f)| else |Head(f.id, f.token)|
    ensures Position(Laid(f), KEY_NODES)
         == if f.nodes.None? then |Laid(f)| else |Head(f.id, f.token)| + |ValuesEntry(f.values)|
    ensures Position(Laid(f), KEY_NODES6)
         == if f.nodes6.None? then |Laid(f)|
            else |Head(f.id, f.token)| + |ValuesEntry(f.values)| + |OptEntry(KEY_NODES, f.nodes)|
  {
    var h, v, n, m := Head(f.id, f.token), ValuesEntry(f.values), OptEntry(KEY_NODES, f.nodes), OptEntry(KEY_NODES6, f.nodes6);
    hide Position, Head;
    assert Laid(f) == h + v + (n + m) == (h + v) + n + m == (h + v + n) + m + [];
    PlaceOf(KEY_VALUES, h, v, n + m);
    PlaceOf(KEY_NODES, h + v, n, m);
    PlaceOf(KEY_NODES6, h + v + n, m, []);
  }

  /** A round of trimming on the entries is the round on the fields. */
  lemma TrimIsCut(f: Fields)
    ensures TrimBody(Laid(f)) == match CutFields(f)
                                 case None => None
                                 case Some(g) => Some(Laid(g))
  {
    var h, v, n, m := Head(f.id, f.token), ValuesEntry(f.values), OptEntry(KEY_NODES, f.nodes), OptEntry(KEY_NODES6, f.nodes6);
    Places(f);
    hide Position, Head, HalvedBytes, Put;
    if f.values != [] {
      var e := v[0];
      assert Laid(f) == h + [e] + (n + m);
      PutMiddle(h, e, n + m, HalveValue(e.key, e.value));
      assert e == Entry(KEY_VALUES, List(f.values));
      assert Laid(CutFields(f).value) == h + ValuesEntry(CutFields(f).value.values) + (n + m);
    } else if f.nodes6.Some? {
      var e := m[0];
      assert Laid(f) == (h + v + n) + [e] + [];
      assert e == Entry(KEY_NODES6, Str(f.nodes6.value));
      PutMiddle(h + v + n, e, [], HalveValue(e.key, e.value));
      assert Laid(CutFields(f).value) == (h + v + n) + OptEntry(KEY_NODES6, CutFields(f).value.nodes6) + [];
    } else if f.nodes.Some? {
      var e := n[0];
      assert Laid(f) == (h + v) + [e] + m;
      PutMiddle(h + v, e, m, HalveValue(e.key, e.value));
      assert e == Entry(KEY_NODES, Str(f.nodes.value));
      assert Laid(CutFields(f).value) == (h + v) + OptEntry(KEY_NODES, CutFields(f).value.nodes) + m;
    }
  }

  lemma CapValues(f: Fields)
    ensures CapField(Laid(f), Field(KEY_VALUES, 6)) == Laid(f.(values := CappedItems(f.values)))
  {
    var h, v, n, m := Head(f.id, f.token), ValuesEntry(f.values), OptEntry(KEY_NODES, f.nodes), OptEntry(KEY_NODES6, f.nodes6);
    Places(f);
    hide Position, Head, Put;
    if f.values != [] {
      assert Laid(f) == h + [v[0]] + (n + m);
      PutMiddle(h, v[0], n + m, CapValue(KEY_VALUES, 6, v[0].value));
      assert CappedItems(f.values) != [];
    }
  }

  lemma CapNodes(f: Fields)
    ensures CapField(Laid(f), Field(KEY_NODES, 26))
         == Laid(f.(nodes := if f.nodes.None? then None else Some(CappedBytes(f.nodes.value, 26))))
  {
    var h, v, n, m := Head(f.id, f.token), ValuesEntry(f.values), OptEntry(KEY_NODES, f.nodes), OptEntry(KEY_NODES6, f.nodes6);
    Places(f);
    hide Position, Head, Put, CappedBytes;
    if f.nodes.Some? {
      assert Laid(f) == (h + v) + [n[0]] + m;
      assert n[0].value == Str(f.nodes.value);
      PutMiddle(h + v, n[0], m, CapValue(KEY_NODES, 26, n[0].value));
    }
  }

  lemma CapNodes6(f: Fields)
    ensures CapField(Laid(f), Field(KEY_NODES6, 38))
         == Laid(f.(nodes6 := if f.nodes6.None? then None else Some(CappedBytes(f.nodes6.value, 38))))
  {
    var h, v, n, m := Head(f.id, f.token), ValuesEntry(f.values), OptEntry(KEY_NODES, f.nodes), OptEntry(KEY_NODES6, f.nodes6);
    Places(f);
    hide Position, Head, Put, CappedBytes;
    if f.nodes6.Some? {
      assert Laid(f) == (h + v + n) + [m[0]] + [];
      assert m[0].value == Str(f.nodes6.value);
      PutMiddle(h + v + n, m[0], [], CapValue(KEY_NODES6, 38, m[0].value));
    }
  }

  lemma CapIsCap(f: Fields)
    ensures CapFields(Laid(f), LONG_FIELDS) == Laid(CapFieldsOf(f))
  {
    hide Laid, CapField, CappedBytes, CappedItems;
    CapUnfold(Laid(f));
    var g := f.(values := CappedItems(f.values));
    CapValues(f);
    CapNodes(g);
    CapNodes6(g.(nodes := if g.nodes.None? then None else Some(CappedBytes(g.nodes.value, 26))));
  }

  lemma CapUnfold(body: seq<Entry>)
    ensures CapFields(body, LONG_FIELDS) ==
            CapField(CapField(CapField(body, Field(KEY_VALUES, 6)), Field(KEY_NODES, 26)), Field(KEY_NODES6, 38))
  {
    hide CapField;
    assert LONG_FIELDS[..2][..1] == [Field(KEY_VALUES, 6)] && LONG_FIELDS[..2] == LONG_FIELDS[..|LONG_FIELDS| - 1];
    assert CapFields(body, [Field(KEY_VALUES, 6)]) == CapField(CapFields(body, []), Field(KEY_VALUES, 6)) by {
      assert [Field(KEY_VALUES, 6)][..0] == [];
    }
    assert CapFields(body, LONG_FIELDS[..2]) == CapField(CapFields(body, LONG_FIELDS[..2][..1]), Field(KEY_NODES, 26));
  }

  // ----- what is left of the fields -----

  predicate WholePart(g: Option<Bytes>, f: Option<Bytes>, width: nat)
    requires width > 0
  {
    g.Some? ==> f.Some? && g.value <= f.value && (|f.value| % width == 0 ==> |g.value| % width == 0)
  }

  /** The long fields of `g` are whole-entry beginnings of those of `f`, or missing; the rest is equal. */
  predicate WholePrefix(g: Fields, f: Fields) {
    && g.id == f.id && g.token == f.token
    && g.values <= f.values
    && WholePart(g.nodes, f.nodes, 26)
    && WholePart(g.nodes6, f.nodes6, 38)
  }

  function Given(b: Option<Bytes>): Bytes { if b.None? then [] else b.value }

  lemma HalvedWhole(b: Bytes, width: nat)
    requires width == 26 || width == 38
    ensures |HalvedBytes(b, width)| % width == 0
    ensures |CappedBytes(b, width)| % width == 0 && CappedBytes(b, width) <= b
  {
    HalfBound(|b|, width);
    CapBound(b, width);
    Multiple(|b| / width / 2, width);
    Multiple(Min(|b|, MAX_KRPC_RESPONSE_BYTES / width * width) / width, width);
  }

  lemma Multiple(k: nat, width: nat)
    requires width == 26 || width == 38
    ensures k * width % width == 0
  {
    if width == 26 {
      assert k * 26 % 26 == 0;
    } else {
      assert k * 38 % 38 == 0;
    }
  }

  lemma CutWhole(f: Fields)
    requires CutFields(f).Some?
    ensures WholePrefix(CutFields(f).value, f)
  {
    HalvedWhole(Given(f.nodes), 26);
    HalvedWhole(Given(f.nodes6), 38);
    hide HalvedBytes, CappedBytes;
  }

  lemma CapWhole(f: Fields)
    ensures WholePrefix(CapFieldsOf(f), f)
  {
    HalvedWhole(Given(f.nodes), 26);
    HalvedWhole(Given(f.nodes6), 38);
    hide HalvedBytes, CappedBytes;
  }

  lemma WholeTransitive(a: Fields, b: Fields, c: Fields)
    requires WholePrefix(a, b) && WholePrefix(b, c)
    ensures WholePrefix(a, c)
  {
  }

  /** `n` halved some number of times, rounding down. */
  predicate HalvedFrom(n: nat, m: nat) { m == n || (n > 0 && HalvedFrom(n / 2, m)) }

  function EntriesIn(b: Option<Bytes>, width: nat): nat
    requires width > 0
  {
    if b.None? then 0 else |b.value| / width
  }

  /** Fields are halved one at a time: no node entry goes before every peer is gone, and no IPv4 node
      before every IPv6 one. */
  predicate InTurn(g: Fields, f: Fields) {
    && HalvedFrom(|f.values|, |g.values|)
    && HalvedFrom(EntriesIn(f.nodes6, 38), EntriesIn(g.nodes6, 38))
    && HalvedFrom(EntriesIn(f.nodes, 26), EntriesIn(g.nodes, 26))
    && (g.nodes6 != f.nodes6 ==> g.values == [])
    && (g.nodes != f.nodes ==> g.values == [] && g.nodes6.None?)
  }

  lemma HalvedCount(b: Bytes, width: nat)
    requires width == 26 || width == 38
    ensures EntriesIn(Some0(HalvedBytes(b, width)), width) == |b| / width / 2
  {
    HalfBound(|b|, width);
    if width == 26 {
      assert |HalvedBytes(b, 26)| == |b| / 26 / 2 * 26;
    } else {
      assert |HalvedBytes(b, 38)| == |b| / 38 / 2 * 38;
    }
  }

  lemma CutInTurn(f: Fields, g: Fields)
    requires CutFields(f).Some? && InTurn(g, CutFields(f).value) && WholePrefix(g, CutFields(f).value)
    ensures InTurn(g, f)
  {
    HalvedCount(Given(f.nodes), 26);
    HalvedCount(Given(f.nodes6), 38);
    hide HalvedBytes;
  }

  /** The parts of a reply around its body. */
  datatype Frame = Frame(tid: Bytes, version: Bytes, ip: Bytes)

  function Tail(w: Frame): seq<Entry> {
    [Entry(KEY_T, Str(w.tid)), Entry(KEY_V, Str(w.version)), Entry(KEY_Y, Str(KEY_R)), Entry(KEY_IP, Str(w.ip))]
  }

  function Reply(f: Fields, w: Frame): seq<Entry> { [Entry(KEY_R, Dict(Laid(f)))] + Tail(w) }

  predicate ShortFrame(w: Frame) { |w.tid| <= 32 && |w.version| == 4 && |w.ip| <= 18 }

  predicate ShortHead(f: Fields) { |f.id| == 20 && (f.token.Some? ==> |f.token.value| <= 8) }

  lemma ReplyBody(f: Fields, w: Frame, body: seq<Entry>)
    ensures Body(Reply(f, w)) == Some(Laid(f))
    ensures WithBody(Reply(f, w), body) == [Entry(KEY_R, Dict(body))] + Tail(w)
  {
    assert Position(Reply(f, w), KEY_R) == 0;
  }

  lemma ReplyTrim(f: Fields, w: Frame)
    ensures Trim(Reply(f, w)) == match CutFields(f)
                                 case None => None
                                 case Some(g) => Some(Reply(g, w))
  {
    TrimIsCut(f);
    hide TrimBody, Laid, CutFields, Tail;
    ReplyBody(f, w, if TrimBody(Laid(f)).Some? then TrimBody(Laid(f)).value else []);
  }

  lemma ReplyCapped(f: Fields, w: Frame)
    ensures Capped(Reply(f, w)) == Reply(CapFieldsOf(f), w)
  {
    CapIsCap(f);
    ReplyBody(f, w, CapFields(Laid(f), LONG_FIELDS));
  }

  // ----- lengths -----

  lemma OneStr(key: Bytes, b: Bytes)
    requires |key| < 10 && |b| < 100
    ensures |RenderEntries([Entry(key, Str(b))])| <= 5 + |key| + |b|
  {
    var e := Entry(key, Str(b));
    assert RenderEntries([e]) == StrText(e.key) + Render(e.value) + RenderEntries([e][1..]);
    DecShort(|b|);
    DecShort(|key|);
  }

  lemma DecShort(n: nat)
    ensures n < 10 ==> |Dec(n)| == 1
    ensures n < 100 ==> |Dec(n)| <= 2
  {
    if 10 <= n < 100 {
      assert n / 10 < 10;
    }
  }

  lemma HeadShort(f: Fields)
    requires ShortHead(f)
    ensures |RenderEntries(Head(f.id, f.token))| <= 45
  {
    OneStr(KEY_ID, f.id);
    var t := OptEntry(KEY_TOKEN, f.token);
    EntriesAppend([Entry(KEY_ID, Str(f.id))], t);
    if f.token.Some? {
      OneStr(KEY_TOKEN, f.token.value);
    }
  }

  lemma TailShort(w: Frame)
    requires ShortFrame(w)
    ensures |RenderEntries(Tail(w))| <= 85
  {
    var a, b, c, d := Entry(KEY_T, Str(w.tid)), Entry(KEY_V, Str(w.version)), Entry(KEY_Y, Str(KEY_R)), Entry(KEY_IP, Str(w.ip));
    OneStr(KEY_T, w.tid);
    OneStr(KEY_V, w.version);
    OneStr(KEY_Y, KEY_R);
    OneStr(KEY_IP, w.ip);
    assert Tail(w) == [a] + ([b] + ([c] + [d]));
    EntriesAppend([a], [b] + ([c] + [d]));
    EntriesAppend([b], [c] + [d]);
    EntriesAppend([c], [d]);
  }

  /** A reply with nothing left to trim is short. */
  lemma BareReplyShort(f: Fields, w: Frame)
    requires ShortHead(f) && ShortFrame(w) && CutFields(f).None? && DistinctKeys(Dict(Reply(f, w)))
    ensures |Text(Reply(f, w))| <= 150
  {
    assert Laid(f) == Head(f.id, f.token);
    HeadShort(f);
    TailShort(w);
    var e := Entry(KEY_R, Dict(Laid(f)));
    EntriesAppend([e], Tail(w));
    BareLength(e, f);
    CanonKeeps(Dict(Reply(f, w)));
    hide Canon, DistinctKeys, RenderEntries, Tail, Laid;
    DictLength(Reply(f, w));
  }

  lemma BareLength(e: Entry, f: Fields)
    requires e == Entry(KEY_R, Dict(Laid(f)))
    ensures |RenderEntries([e])| == 5 + |RenderEntries(Laid(f))|
  {
    hide Laid;
    assert RenderEntries([e]) == StrText(e.key) + Render(e.value) + RenderEntries([e][1..]);
    DecShort(1);
  }

  lemma DictLength(es: seq<Entry>)
    ensures |Render(Dict(es))| == 2 + |RenderEntries(es)|
  {
  }

  // ----- no reply repeats a key -----

  lemma ReplyDistinct(f: Fields, w: Frame)
    requires forall v | v in f.values :: v.Str?
    ensures DistinctKeys(Dict(Reply(f, w)))
  {
    LaidDistinct(f);
    hide Laid;
    DistinctAll([], Reply(f, w));
  }

  lemma LaidDistinct(f: Fields)
    requires forall v | v in f.values :: v.Str?
    ensures DistinctKeys(Dict(Laid(f)))
  {
    DistinctAll(f.values, Laid(f));
    var l := Laid(f);
    forall i | 0 <= i < |l|
      ensures DistinctKeys(l[i].value)
    {
    }
  }

  // ----- the main result -----

  predicate Fits(f: Fields, w: Frame) { |Text(Reply(f, w))| <= 1024 }

  /** The fields after `n` rounds of trimming. */
  function After(f: Fields, n: nat): Fields
    decreases n
  {
    if n == 0 || CutFields(f).None? then f else After(CutFields(f).value, n - 1)
  }

  /** The first of the successive cuts that fits. */
  ghost predicate FirstFit(f: Fields, w: Frame, n: nat) {
    Fits(After(f, n), w) && forall m: nat | m < n :: !Fits(After(f, m), w)
  }

  lemma FirstFitLater(f: Fields, w: Frame, n: nat)
    requires !Fits(f, w) && CutFields(f).Some? && FirstFit(CutFields(f).value, w, n)
    ensures FirstFit(f, w, n + 1) && After(f, n + 1) == After(CutFields(f).value, n)
  {
    hide Fits, CutFields;
    forall m: nat | m < n + 1
      ensures !Fits(After(f, m), w)
    {
      if m > 0 {
        assert After(f, m) == After(CutFields(f).value, m - 1);
      }
    }
  }

  lemma FirstFitEarlier(f: Fields, w: Frame, n: nat)
    requires FirstFit(f, w, n) && n > 0 && CutFields(f).Some?
    ensures !Fits(f, w) && FirstFit(CutFields(f).value, w, n - 1) && After(f, n) == After(CutFields(f).value, n - 1)
  {
    hide Fits, CutFields;
    assert After(f, 0) == f;
    forall m: nat | m < n - 1
      ensures !Fits(After(CutFields(f).value, m), w)
    {
      assert After(f, m + 1) == After(CutFields(f).value, m);
    }
  }

  /** However large the fields: the loop ends at the first of the successive cuts that fits, whose long
      fields are whole-entry beginnings of the ones given, all else unchanged. */
  lemma {:induction false} FitsAfter(f: Fields, w: Frame) returns (n: nat)
    requires ShortHead(f) && ShortFrame(w) && forall v | v in f.values :: v.Str?
    ensures FirstFit(f, w, n)
    ensures Fitted(Reply(f, w)) == (Text(Reply(After(f, n), w)), Reply(After(f, n), w))
    ensures WholePrefix(After(f, n), f) && InTurn(After(f, n), f)
    decreases Load(Reply(f, w))
  {
    hide *;
    if Fits(f, w) {
      n := 0;
      FitsAtOnce(f, w);
    } else {
      NeedsCut(f, w);
      n := FitsAfter(CutFields(f).value, w);
      FitsStep(f, w, n);
      n := n + 1;
    }
  }

  lemma FitsAtOnce(f: Fields, w: Frame)
    requires Fits(f, w)
    ensures FirstFit(f, w, 0) && After(f, 0) == f
    ensures Fitted(Reply(f, w)) == (Text(Reply(f, w)), Reply(f, w))
    ensures WholePrefix(f, f) && InTurn(f, f)
  {
    FittedStep(Reply(f, w));
    HalvedSelf(f);
    hide Fitted, Reply, Text;
  }

  /** A reply that does not fit has something to cut. */
  lemma NeedsCut(f: Fields, w: Frame)
    requires ShortHead(f) && ShortFrame(w) && (forall v | v in f.values :: v.Str?) && !Fits(f, w)
    ensures CutFields(f).Some?
    ensures ShortHead(CutFields(f).value) && forall v | v in CutFields(f).value.values :: v.Str?
    ensures Fitted(Reply(f, w)) == Fitted(Reply(CutFields(f).value, w))
    ensures Load(Reply(CutFields(f).value, w)) < Load(Reply(f, w))
  {
    ReplyTrim(f, w);
    if CutFields(f).None? {
      ReplyDistinct(f, w);
      BareReplyShort(f, w);
    }
    CutStays(f);
    hide Fitted, Laid, Tail, Trim, Text, Load, CutFields, Reply;
    FittedStep(Reply(f, w));
    TrimShrinks(Reply(f, w));
  }

  lemma FitsStep(f: Fields, w: Frame, n: nat)
    requires !Fits(f, w) && CutFields(f).Some? && FirstFit(CutFields(f).value, w, n)
    requires Fitted(Reply(f, w)) == Fitted(Reply(CutFields(f).value, w))
    requires var g := After(CutFields(f).value, n);
             && Fitted(Reply(CutFields(f).value, w)) == (Text(Reply(g, w)), Reply(g, w))
             && WholePrefix(g, CutFields(f).value) && InTurn(g, CutFields(f).value)
    ensures FirstFit(f, w, n + 1)
    ensures Fitted(Reply(f, w)) == (Text(Reply(After(f, n + 1), w)), Reply(After(f, n + 1), w))
    ensures WholePrefix(After(f, n + 1), f) && InTurn(After(f, n + 1), f)
  {
    hide *;
    CutWhole(f);
    FirstFitLater(f, w, n);
    WholeTransitive(After(CutFields(f).value, n), CutFields(f).value, f);
    CutInTurn(f, After(CutFields(f).value, n));
  }

  lemma HalvedSelf(f: Fields)
    ensures InTurn(f, f) && WholePrefix(f, f)
  {
  }

  lemma CutStays(f: Fields)
    requires CutFields(f).Some? && ShortHead(f) && forall v | v in f.values :: v.Str?
    ensures ShortHead(CutFields(f).value) && forall v | v in CutFields(f).value.values :: v.Str?
  {
  }

  /** What `n` rounds of trimming after the first cut leave is the reply sent. */
  ghost predicate Sends(f: Fields, w: Frame, n: nat) {
    var g := After(CapFieldsOf(f), n);
    && Bounded(Reply(f, w)) == (Text(Reply(g, w)), Reply(g, w))
    && FirstFit(CapFieldsOf(f), w, n)
    && WholePrefix(g, f) && InTurn(g, CapFieldsOf(f))
  }

  lemma EveryReplyFits(f: Fields, w: Frame) returns (n: nat)
    requires ShortHead(f) && ShortFrame(w) && forall v | v in f.values :: v.Str?
    ensures DistinctKeys(Dict(Reply(f, w)))
    ensures Sends(f, w, n)
  {
    ReplyDistinct(f, w);
    ReplyCapped(f, w);
    CapWhole(f);
    hide Fitted, Laid, Tail, Text, Capped, DistinctKeys, InTurn, FirstFit, After, WholePrefix;
    n := FitsAfter(CapFieldsOf(f), w);
    WholeTransitive(After(CapFieldsOf(f), n), CapFieldsOf(f), f);
  }

  /** Every reply ends within 1024 bytes, at the first of the successive cuts that does; its long fields
      are whole-entry beginnings of the drafted ones. */
  lemma RepliesFit(f: Fields, w: Frame)
    requires ShortHead(f) && ShortFrame(w) && forall v | v in f.values :: v.Str?
    ensures DistinctKeys(Dict(Reply(f, w)))
    ensures |Bounded(Reply(f, w)).0| <= 1024
    ensures exists n :: Sends(f, w, n)
  {
    var n := EveryReplyFits(f, w);
    SentFits(f, w, n);
  }

  lemma SentFits(f: Fields, w: Frame, n: nat)
    requires Sends(f, w, n)
    ensures |Bounded(Reply(f, w)).0| <= 1024
  {
    hide Bounded, Text, Reply, After;
  }

  // ----- replies of the size real answers have -----

  /** At most eight contacts of each family, in whole entries, and no more peers than the first cut keeps. */
  predicate RealSize(f: Fields) {
    && |f.values| <= 100
    && (f.nodes.Some? ==> |f.nodes.value| <= 208 && |f.nodes.value| % 26 == 0)
    && (f.nodes6.Some? ==> |f.nodes6.value| <= 304 && |f.nodes6.value| % 38 == 0)
  }

  lemma CapUnneeded(f: Fields)
    requires RealSize(f)
    ensures CapFieldsOf(f) == f
  {
    if f.nodes.Some? {
      assert CappedBytes(f.nodes.value, 26) == f.nodes.value;
    }
    if f.nodes6.Some? {
      assert CappedBytes(f.nodes6.value, 38) == f.nodes6.value;
    }
  }

  lemma OptLength(key: Bytes, b: Option<Bytes>, most: nat)
    requires |key| < 10 && most < 1000 && (b.Some? ==> |b.value| <= most)
    ensures |RenderEntries(OptEntry(key, b))| <= 6 + |key| + most
  {
    if b.Some? {
      var e := Entry(key, Str(b.value));
      assert RenderEntries([e]) == StrText(e.key) + Render(e.value) + RenderEntries([e][1..]);
      DecShort(|key|);
      DecBelow1000(|b.value|);
    }
  }

  lemma DecBelow1000(n: nat)
    requires n < 1000
    ensures |Dec(n)| <= 3
  {
    if n >= 10 {
      DecShort(n / 10);
    }
  }

  /** With the peers gone, eight contacts of each family fit. */
  lemma NodesFit(f: Fields, w: Frame)
    requires ShortHead(f) && ShortFrame(w) && RealSize(f) && f.values == []
    ensures Fits(f, w)
  {
    ReplyDistinct(f, w);
    CanonKeeps(Dict(Reply(f, w)));
    HeadShort(f);
    TailShort(w);
    OptLength(KEY_NODES, f.nodes, 208);
    OptLength(KEY_NODES6, f.nodes6, 304);
    hide Canon, DistinctKeys, RenderEntries, Tail;
    var h, n, m := Head(f.id, f.token), OptEntry(KEY_NODES, f.nodes), OptEntry(KEY_NODES6, f.nodes6);
    assert Laid(f) == h + n + m;
    EntriesAppend(h, n);
    EntriesAppend(h + n, m);
    var e := Entry(KEY_R, Dict(Laid(f)));
    BareLength(e, f);
    EntriesAppend([e], Tail(w));
    hide Laid;
    DictLength(Reply(f, w));
  }

  lemma FitsMeansNone(f: Fields, w: Frame, n: nat)
    requires Fits(f, w) && FirstFit(f, w, n)
    ensures n == 0 && After(f, n) == f
  {
    hide Fits;
    assert After(f, 0) == f;
  }

  /** Trimming a reply of real size touches nothing but the peers. */
  lemma {:induction false} OnlyPeersCut(f: Fields, w: Frame, n: nat)
    requires ShortHead(f) && ShortFrame(w) && RealSize(f) && FirstFit(f, w, n)
    ensures After(f, n) == f.(values := After(f, n).values)
    ensures f.values == [] ==> n == 0 && After(f, n) == f
    decreases n
  {
    if f.values == [] {
      NodesFit(f, w);
      FitsMeansNone(f, w, n);
    } else if n > 0 {
      hide Fits;
      FirstFitEarlier(f, w, n);
      OnlyPeersCut(CutFields(f).value, w, n - 1);
    }
  }
}
