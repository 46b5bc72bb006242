/** The raw field scan. */
module BencodeScanner {
  /* The allocation-free scan for one top-level field. It builds no value, yet on every input that
   decodes to a dictionary it finds the field `Value::get` finds, and its exact bytes. */

  import opened Common
  import opened BencodeText
  import opened BencodeParser
  import opened BencodeGrammar

  datatype Span = Span(start: nat, end: nat)

  // ----- what the scan answers -----

  function Skip(input: Bytes, pos: nat): (r: Option<nat>)
    requires pos <= |input|
    ensures r.Some? ==> pos < r.value <= |input|
    decreases |input| - pos, 0
  {
    if pos == |input| then None
    else if input[pos] == LOWER_I then
      var e := IndexOf(input, LOWER_E, pos);
      if e == |input| then None else Some(e + 1)
    else if input[pos] == LOWER_L || input[pos] == LOWER_D then SkipItems(input, pos + 1)
    else if IsDigit(input[pos]) then
      var colon := IndexOf(input, COLON, pos);
      if colon == |input| then None
      else
        var len := ParseU64(input[pos..colon]);
        if len.Some? && colon + 1 + len.value <= |input| then Some(colon + 1 + len.value) else None
    else None
  }

  function SkipItems(input: Bytes, p: nat): (r: Option<nat>)
    requires p <= |input|
    ensures r.Some? ==> p < r.value <= |input|
    decreases |input| - p, 1
  {
    if p == |input| then None
    else if input[p] == LOWER_E then Some(p + 1)
    else
      var next := Skip(input, p);
      if next.None? then None else SkipItems(input, next.value)
  }

  function FieldFrom(input: Bytes, key: Bytes, p: nat): (r: Option<Span>)
    requires p <= |input|
    ensures r.Some? ==> r.value.start <= r.value.end <= |input|
    decreases |input| - p
  {
    if p == |input| || input[p] == LOWER_E then None
    else
      var keyEnd := Skip(input, p);
      var colon := IndexOf(input, COLON, p);
      if keyEnd.None? || colon == |input| || colon + 1 > keyEnd.value then None
      else
        var valEnd := Skip(input, keyEnd.value);
        if valEnd.None? then None
        else if input[colon + 1..keyEnd.value] == key then Some(Span(keyEnd.value, valEnd.value))
        else FieldFrom(input, key, valEnd.value)
  }

  function FieldSpan(input: Bytes, key: Bytes): (r: Option<Span>)
    ensures r.Some? ==> r.value.start <= r.value.end <= |input|
  {
    if input == [] || input[0] != LOWER_D then None else FieldFrom(input, key, 1)
  }

  // ----- the scan itself -----

  method SkipValue(input: Bytes, pos: nat) returns (r: Option<nat>)
    requires pos <= |input|
    ensures r == Skip(input, pos)
    decreases |input| - pos
  {
    if pos == |input| {
      return None;
    }
    var b := input[pos];
    if b == LOWER_I {
      var e := IndexOf(input, LOWER_E, pos);
      return if e == |input| then None else Some(e + 1);
    }
    if b == LOWER_L || b == LOWER_D {
      var p := pos + 1;
      while p < |input| && input[p] != LOWER_E
        invariant pos < p <= |input|
        invariant SkipItems(input, pos + 1) == SkipItems(input, p)
      {
        var next := SkipValue(input, p);
        if next.None? {
          return None;
        }
        p := next.value;
      }
      return if p == |input| then None else Some(p + 1);
    }
    if !IsDigit(b) {
      return None;
    }
    var colon := IndexOf(input, COLON, pos);
    if colon == |input| {
      return None;
    }
    var len := ParseU64(input[pos..colon]);
    if len.None? || colon + 1 + len.value > |input| {
      return None;
    }
    return Some(colon + 1 + len.value);
  }

  method TopLevelFieldSpan(input: Bytes, key: Bytes) returns (r: Option<Span>)
    ensures r == FieldSpan(input, key)
  {
    if input == [] || input[0] != LOWER_D {
      return None;
    }
    var p := 1;
    while p < |input| && input[p] != LOWER_E
      invariant 1 <= p <= |input|
      invariant FieldSpan(input, key) == FieldFrom(input, key, p)
    {
      var keyEnd := SkipValue(input, p);
      if keyEnd.None? {
        return None;
      }
      var colon := IndexOf(input, COLON, p);
      if colon == |input| || colon + 1 > keyEnd.value {
        return None;
      }
      var found := input[colon + 1..keyEnd.value] == key;
      var valEnd := SkipValue(input, keyEnd.value);
      if valEnd.None? {
        return None;
      }
      if found {
        return Some(Span(keyEnd.value, valEnd.value));
      }
      p := valEnd.value;
    }
    return None;
  }

  // ----- agreement with the values -----

  lemma SkipInt(input: Bytes, pos: nat, n: int)
    requires At(input, pos, Render(Int(n)))
    ensures pos <= |input| && Skip(input, pos) == Some(pos + |Render(Int(n))|)
  {
    hide At, IntText;
    var t := IntText(n);
    AtFrame(input, pos, LOWER_I, t);
    AtByte(input, pos, LOWER_I);
    AtSplit(input, pos + 1, t, [LOWER_E]);
    AtByte(input, pos + 1 + |t|, LOWER_E);
    IntTextFree(n, LOWER_E);
    AtIs(input, pos + 1, t);
    IndexOfIs(input, LOWER_E, pos + 1, pos + 1 + |t|);
  }

  lemma AtIs(input: Bytes, pos: nat, t: Bytes)
    requires At(input, pos, t)
    ensures pos + |t| <= |input| && input[pos..pos + |t|] == t
  {
  }

  /** A string's own colon is the first one after its start. */
  lemma SkipStr(input: Bytes, pos: nat, b: Bytes)
    requires |b| <= ISIZE_MAX && At(input, pos, StrText(b))
    ensures pos < |input| && input[pos] != LOWER_E
    ensures Skip(input, pos) == Some(pos + |StrText(b)|)
    ensures var colon := IndexOf(input, COLON, pos);
            colon + 1 <= pos + |StrText(b)| <= |input| && input[colon + 1..pos + |StrText(b)|] == b
  {
    FirstByte(Str(b));
    hide *;
    StrText1(b);
    StrLayout(input, pos, b);
    AtFirst(input, pos, StrText(b));
    ParseLength(|b|);
    SkipDigits(input, pos, IndexOf(input, COLON, pos), |b|);
  }

  lemma StrText1(b: Bytes)
    ensures StrText(b) != [] && IsDigit(StrText(b)[0]) && Render(Str(b)) == StrText(b)
    ensures forall d | IsDigit(d) :: d != LOWER_E
  {
  }

  lemma SkipDigits(input: Bytes, pos: nat, colon: nat, len: nat)
    requires pos < |input| && IsDigit(input[pos])
    requires colon == IndexOf(input, COLON, pos) && colon + 1 + len <= |input|
    requires ParseU64(input[pos..colon]) == Some(len)
    ensures Skip(input, pos) == Some(colon + 1 + len)
  {
  }

  lemma ParseLength(n: nat)
    requires n <= ISIZE_MAX
    ensures ParseU64(Dec(n)) == Some(n)
  {
    hide Dec, DecVal;
    DecValDec(n);
  }

  lemma SkipOpens(input: Bytes, pos: nat)
    requires pos < |input| && (input[pos] == LOWER_L || input[pos] == LOWER_D)
    ensures Skip(input, pos) == SkipItems(input, pos + 1)
  {
  }

  lemma SkipTurn(input: Bytes, p: nat)
    requires p < |input| && input[p] != LOWER_E && Skip(input, p).Some?
    ensures SkipItems(input, p) == SkipItems(input, Skip(input, p).value)
  {
  }

  lemma Closes(input: Bytes, key: Bytes, p: nat)
    requires p < |input| && input[p] == LOWER_E
    ensures SkipItems(input, p) == Some(p + 1) && FieldFrom(input, key, p) == None
  {
  }

  lemma ItemsHead(items: seq<Value>)
    requires items != [] && RepresentableItems(items)
    ensures Representable(items[0]) && RepresentableItems(items[1..])
    ensures RenderItems(items) == Render(items[0]) + RenderItems(items[1..])
  {
  }

  lemma EntriesHead(es: seq<Entry>)
    requires es != [] && RepresentableEntries(es)
    ensures |es[0].key| <= ISIZE_MAX && Representable(es[0].value) && RepresentableEntries(es[1..])
    ensures RenderEntries(es) == StrText(es[0].key) + Render(es[0].value) + RenderEntries(es[1..])
  {
  }

  lemma NoneLeft()
    ensures RenderItems([]) + [LOWER_E] == [LOWER_E] && RenderEntries([]) + [LOWER_E] == [LOWER_E]
  {
  }

  lemma {:induction false} SkipComplete(input: Bytes, pos: nat, v: Value)
    requires Representable(v) && At(input, pos, Render(v))
    ensures pos < |input| && input[pos] != LOWER_E
    ensures Skip(input, pos) == Some(pos + |Render(v)|)
    decreases v, 1
  {
    hide *;
    FirstByte(v);
    RenderParts(v);
    AtFirst(input, pos, Render(v));
    Parts(v);
    match v
    case Int(n) => SkipInt(input, pos, n);
    case Str(b) => SkipStr(input, pos, b);
    case List(items) =>
      AtFrame(input, pos, LOWER_L, RenderItems(items));
      SkipOpens(input, pos);
      SkipListComplete(input, pos + 1, items);
    case Dict(es) =>
      AtFrame(input, pos, LOWER_D, RenderEntries(es));
      SkipOpens(input, pos);
      SkipDictComplete(input, pos + 1, es);
  }

  lemma Parts(v: Value)
    requires Representable(v)
    ensures v.Str? ==> |v.bytes| <= ISIZE_MAX
    ensures v.List? ==> RepresentableItems(v.items)
    ensures v.Dict? ==> RepresentableEntries(v.entries)
  {
  }

  lemma {:induction false} SkipListComplete(input: Bytes, p: nat, items: seq<Value>)
    requires RepresentableItems(items) && At(input, p, RenderItems(items) + [LOWER_E])
    ensures p <= |input| && SkipItems(input, p) == Some(p + |RenderItems(items)| + 1)
    decreases items, 0
  {
    hide *;
    if items == [] {
      NoneLeft();
      AtByte(input, p, LOWER_E);
      Closes(input, [], p);
    } else {
      ItemsHead(items);
      AtStep(input, p, Render(items[0]), RenderItems(items[1..]));
      SkipComplete(input, p, items[0]);
      SkipTurn(input, p);
      SkipListComplete(input, p + |Render(items[0])|, items[1..]);
    }
  }

  lemma {:induction false} SkipDictComplete(input: Bytes, p: nat, es: seq<Entry>)
    requires RepresentableEntries(es) && At(input, p, RenderEntries(es) + [LOWER_E])
    ensures p <= |input| && SkipItems(input, p) == Some(p + |RenderEntries(es)| + 1)
    decreases es, 0
  {
    hide *;
    if es == [] {
      NoneLeft();
      AtByte(input, p, LOWER_E);
      Closes(input, [], p);
    } else {
      var k, v := StrText(es[0].key), Render(es[0].value);
      EntriesHead(es);
      AtStep(input, p, k + v, RenderEntries(es[1..]));
      AtSplit(input, p, k, v);
      SkipStr(input, p, es[0].key);
      SkipTurn(input, p);
      SkipComplete(input, p + |k|, es[0].value);
      SkipTurn(input, p + |k|);
      SkipDictComplete(input, p + |k| + |v|, es[1..]);
    }
  }

  lemma FieldTurn(input: Bytes, key: Bytes, p: nat, keyEnd: nat, valEnd: nat)
    requires p < |input| && input[p] != LOWER_E
    requires Skip(input, p) == Some(keyEnd) && Skip(input, keyEnd) == Some(valEnd)
    requires IndexOf(input, COLON, p) + 1 <= keyEnd
    ensures FieldFrom(input, key, p)
         == if input[IndexOf(input, COLON, p) + 1..keyEnd] == key then Some(Span(keyEnd, valEnd))
            else FieldFrom(input, key, valEnd)
  {
  }

  /** What the scan of the remaining entries finds. */
  predicate Finds(input: Bytes, r: Option<Span>, found: Option<Value>) {
    && (r.Some? <==> found.Some?)
    && (r.Some? ==> r.value.start <= r.value.end <= |input|
                    && input[r.value.start..r.value.end] == Render(found.value))
  }

  lemma {:induction false} FieldComplete(input: Bytes, key: Bytes, p: nat, es: seq<Entry>)
    requires RepresentableEntries(es) && At(input, p, RenderEntries(es) + [LOWER_E])
    ensures p <= |input|
    ensures Finds(input, FieldFrom(input, key, p), Find(es, key))
    decreases |es|
  {
    hide At, Render, RenderEntries, RepresentableEntries, Representable, Skip, StrText, IndexOf, FieldFrom;
    if es == [] {
      NoneLeft();
      AtByte(input, p, LOWER_E);
      Closes(input, key, p);
    } else {
      var k, v := StrText(es[0].key), Render(es[0].value);
      EntriesHead(es);
      AtStep(input, p, k + v, RenderEntries(es[1..]));
      AtSplit(input, p, k, v);
      SkipStr(input, p, es[0].key);
      SkipComplete(input, p + |k|, es[0].value);
      AtIs(input, p + |k|, v);
      FieldTurn(input, key, p, p + |k|, p + |k| + |v|);
      if es[0].key != key {
        FieldComplete(input, key, p + |k| + |v|, es[1..]);
      }
    }
  }

  /** On input that decodes to a dictionary, in either mode and with anything after it, the scan
      finds a key exactly when the decoded value has it, and the bytes of its first value. */
  lemma ScanAgrees(m: Mode, input: Bytes, key: Bytes)
    requires Decode(m, input).Parsed? && Decode(m, input).value.Dict?
    ensures Finds(input, FieldSpan(input, key), Get(Decode(m, input).value, key))
  {
    var v := Decode(m, input).value;
    DecodeExactly(m, input, v);
    AtFrame(input, 0, LOWER_D, RenderEntries(v.entries));
    AtByte(input, 0, LOWER_D);
    hide At, FieldFrom, Render, Find;
    FieldComplete(input, key, 1, v.entries);
  }
}
