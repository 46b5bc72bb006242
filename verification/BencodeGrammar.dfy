/** What the parser accepts. */
module BencodeGrammar {
  /* Stated without reference to the parser: a prefix of the input that is the rendering of a value
   within the mode's bounds. Rendering is therefore unambiguous, and a successful decode determines
   the bytes it consumed. */

  import opened Common
  import opened BencodeText
  import opened BencodeParser

  /** A value the mode lets through at nesting `depth`, when `values` were noted before it. */
  predicate Admits(m: Mode, v: Value, depth: nat, values: nat) {
    && Representable(v)
    && depth + Depth(v) <= MaxDepth(m)
    && (m.Strict? ==> DistinctKeys(v))
    && (m.External? ==> values + Count(v) <= m.limits.maxValues)
  }

  predicate AdmitsItems(m: Mode, items: seq<Value>, depth: nat, values: nat) {
    && RepresentableItems(items)
    && depth + DepthItems(items) <= MaxDepth(m)
    && (m.Strict? ==> DistinctItems(items))
    && (m.External? ==> values + CountItems(items) <= m.limits.maxValues)
  }

  predicate AdmitsEntries(m: Mode, es: seq<Entry>, depth: nat, values: nat) {
    && RepresentableEntries(es)
    && depth + DepthEntries(es) <= MaxDepth(m)
    && (m.Strict? ==> DistinctEntries(es))
    && (m.External? ==> values + CountEntries(es) <= m.limits.maxValues)
  }

  /** What the lazily built key set has to know about the keys read so far. */
  predicate SeenExact(m: Mode, acc: seq<Entry>, seen: Option<set<Bytes>>) {
    m.Strict? ==>
      && Distinct(KeysOf(acc))
      && (seen.None? ==> Ascending(acc))
      && (seen.Some? ==> seen.value == set k | k in KeysOf(acc))
  }

  lemma KeysOfSnoc(acc: seq<Entry>, e: Entry)
    ensures KeysOf(acc + [e]) == KeysOf(acc) + [e.key]
  {
  }

  /** The switch from last-key comparison to a set neither misses nor invents a duplicate. */
  lemma RefusesExactly(m: Mode, acc: seq<Entry>, seen: Option<set<Bytes>>, e: Entry)
    requires m.Strict? && SeenExact(m, acc, seen)
    ensures Refuses(m, acc, seen, e.key) <==> e.key in KeysOf(acc)
    ensures Refuses(m, acc, seen, e.key) <==> !Distinct(KeysOf(acc + [e]))
    ensures !Refuses(m, acc, seen, e.key) ==> SeenExact(m, acc + [e], NextSeen(m, acc, seen, e.key))
  {
    KeysOfSnoc(acc, e);
    var ks := KeysOf(acc);
    if seen.None? && acc != [] {
      var last := acc[|acc| - 1].key;
      LessTotal(last, e.key);
      if Less(last, e.key) {
        forall i | 0 <= i < |acc|
          ensures Less(acc[i].key, e.key)
        {
          if i < |acc| - 1 {
            LessTransitive(acc[i].key, last, e.key);
          }
        }
        forall i | 0 <= i < |acc|
          ensures ks[i] != e.key
        {
          LessTotal(acc[i].key, e.key);
        }
      }
    }
    if e.key in ks {
      var i :| 0 <= i < |ks| && ks[i] == e.key;
      assert KeysOf(acc + [e])[i] == KeysOf(acc + [e])[|acc|];
    }
  }

  // ----- text at a position -----

  /** `s` occurs in `buf` at `pos`. */
  predicate At(buf: Bytes, pos: nat, s: Bytes) { pos + |s| <= |buf| && buf[pos..pos + |s|] == s }

  lemma AtSplit(buf: Bytes, pos: nat, a: Bytes, b: Bytes)
    requires At(buf, pos, a + b)
    ensures At(buf, pos, a) && At(buf, pos + |a|, b)
  {
    var s := buf[pos..pos + |a + b|];
    assert buf[pos..pos + |a|] == s[..|a|];
    assert buf[pos + |a|..pos + |a| + |b|] == s[|a|..];
  }

  lemma AtJoin(buf: Bytes, pos: nat, a: Bytes, b: Bytes)
    requires At(buf, pos, a) && At(buf, pos + |a|, b)
    ensures At(buf, pos, a + b)
  {
  }

  /** A container: its letter, its contents, and the closing `e`. */
  lemma AtFrame(buf: Bytes, pos: nat, head: Byte, body: Bytes)
    ensures At(buf, pos, [head] + body + [LOWER_E])
      <==> At(buf, pos, [head]) && At(buf, pos + 1, body + [LOWER_E])
  {
    assert [head] + body + [LOWER_E] == [head] + (body + [LOWER_E]);
    if At(buf, pos, [head] + body + [LOWER_E]) {
      AtSplit(buf, pos, [head], body + [LOWER_E]);
    }
    if At(buf, pos, [head]) && At(buf, pos + 1, body + [LOWER_E]) {
      AtJoin(buf, pos, [head], body + [LOWER_E]);
    }
  }

  /** One element followed by the rest and the closing `e`. */
  lemma AtStep(buf: Bytes, pos: nat, head: Bytes, tail: Bytes)
    ensures At(buf, pos, head + tail + [LOWER_E])
      <==> At(buf, pos, head) && At(buf, pos + |head|, tail + [LOWER_E])
  {
    assert head + tail + [LOWER_E] == head + (tail + [LOWER_E]);
    if At(buf, pos, head + tail + [LOWER_E]) {
      AtSplit(buf, pos, head, tail + [LOWER_E]);
    }
    if At(buf, pos, head) && At(buf, pos + |head|, tail + [LOWER_E]) {
      AtJoin(buf, pos, head, tail + [LOWER_E]);
    }
  }

  lemma AtByte(buf: Bytes, pos: nat, b: Byte)
    ensures At(buf, pos, [b]) <==> pos < |buf| && buf[pos] == b
  {
  }

  lemma AtFirst(buf: Bytes, pos: nat, s: Bytes)
    requires At(buf, pos, s) && s != []
    ensures pos < |buf| && buf[pos] == s[0]
  {
    assert buf[pos] == buf[pos..pos + |s|][0];
  }

  lemma RenderParts(v: Value)
    ensures v.Int? ==> Render(v) == [LOWER_I] + IntText(v.n) + [LOWER_E]
    ensures v.Str? ==> Render(v) == StrText(v.bytes) && Count(v) == 1
    ensures v.List? ==> Render(v) == [LOWER_L] + RenderItems(v.items) + [LOWER_E]
    ensures v.Dict? ==> Render(v) == [LOWER_D] + RenderEntries(v.entries) + [LOWER_E]
  {
  }

  lemma FirstByte(v: Value)
    ensures var b := Render(v)[0];
      && b != LOWER_E
      && (v.Int? ==> b == LOWER_I)
      && (v.List? ==> b == LOWER_L)
      && (v.Dict? ==> b == LOWER_D)
      && (v.Str? ==> IsDigit(b))
  {
  }

  // ----- scalars -----

  lemma IntSound(buf: Bytes, pos: nat, values: nat)
    requires pos < |buf| && buf[pos] == LOWER_I
    requires ParseInt(buf, pos, values).Parsed?
    ensures var o := ParseInt(buf, pos, values);
            At(buf, pos, Render(o.value)) && o.next == pos + |Render(o.value)| && Representable(o.value)
  {
    hide IntText, AcceptInt, IndexOf;
    var o := ParseInt(buf, pos, values);
    var end := IndexOf(buf, LOWER_E, pos + 1);
    AcceptIntExact(buf[pos + 1..end], o.value.n);
    assert At(buf, pos + 1, IntText(o.value.n));
    AtByte(buf, pos, LOWER_I);
    AtByte(buf, end, LOWER_E);
    AtJoin(buf, pos + 1, IntText(o.value.n), [LOWER_E]);
    AtFrame(buf, pos, LOWER_I, IntText(o.value.n));
  }

  lemma IntComplete(buf: Bytes, pos: nat, n: int, values: nat)
    requires I64_MIN <= n <= I64_MAX && At(buf, pos, Render(Int(n)))
    ensures ParseInt(buf, pos, values) == Parsed(Int(n), pos + |Render(Int(n))|, values)
  {
    hide IntText, IndexOf, AcceptInt;
    var t := IntText(n);
    AtFrame(buf, pos, LOWER_I, t);
    AtByte(buf, pos, LOWER_I);
    AtSplit(buf, pos + 1, t, [LOWER_E]);
    AtByte(buf, pos + 1 + |t|, LOWER_E);
    IntTextFree(n, LOWER_E);
    IndexOfIs(buf, LOWER_E, pos + 1, pos + 1 + |t|);
    AcceptIntExact(t, n);
  }

  lemma StrSound(buf: Bytes, pos: nat, values: nat)
    requires pos < |buf| && IsDigit(buf[pos])
    requires ParseStr(buf, pos, values).Parsed?
    ensures var o := ParseStr(buf, pos, values);
            At(buf, pos, Render(o.value)) && o.next == pos + |Render(o.value)| && Representable(o.value)
  {
    var o := ParseStr(buf, pos, values);
    var colon := IndexOf(buf, COLON, pos);
    var d, b := buf[pos..colon], o.value.bytes;
    AcceptLengthExact(d, |b|);
    AtByte(buf, colon, COLON);
    AtJoin(buf, pos, d, [COLON]);
    AtJoin(buf, pos, d + [COLON], b);
  }

  /** Where the parts of a string's text lie. */
  lemma StrLayout(buf: Bytes, pos: nat, b: Bytes)
    requires At(buf, pos, StrText(b))
    ensures var colon := pos + |Dec(|b|)|;
            && IndexOf(buf, COLON, pos) == colon
            && colon + 1 + |b| == pos + |StrText(b)| <= |buf|
            && buf[pos..colon] == Dec(|b|)
            && buf[colon + 1..colon + 1 + |b|] == b
  {
    hide Dec, IndexOf;
    var d := Dec(|b|);
    AtSplit(buf, pos, d + [COLON], b);
    AtSplit(buf, pos, d, [COLON]);
    AtByte(buf, pos + |d|, COLON);
    IntTextFree(|b|, COLON);
    IndexOfIs(buf, COLON, pos, pos + |d|);
  }

  lemma StrComplete(buf: Bytes, pos: nat, b: Bytes, values: nat)
    requires |b| <= ISIZE_MAX && At(buf, pos, StrText(b))
    ensures pos < |buf|
    ensures ParseStr(buf, pos, values) == Parsed(Str(b), pos + |StrText(b)|, values)
  {
    StrLayout(buf, pos, b);
    hide At, Dec, IndexOf, AcceptLength, StrText;
    AcceptLengthExact(Dec(|b|), |b|);
  }

  // ----- unfolding one turn at a time -----

  lemma AdmitsList(m: Mode, items: seq<Value>, depth: nat, values: nat)
    ensures Admits(m, List(items), depth, values)
      <==> depth <= MaxDepth(m) && AdmitsItems(m, items, depth, values + 1)
    ensures Count(List(items)) == 1 + CountItems(items)
  {
  }

  lemma AdmitsDict(m: Mode, es: seq<Entry>, depth: nat, values: nat)
    ensures Admits(m, Dict(es), depth, values)
      <==> && depth <= MaxDepth(m) && AdmitsEntries(m, es, depth, values + 1)
           && (m.Strict? ==> Distinct(KeysOf(es)))
    ensures Count(Dict(es)) == 1 + CountEntries(es)
  {
  }

  lemma ItemsTurn(m: Mode, items: seq<Value>, depth: nat, values: nat)
    requires items != [] && depth <= MaxDepth(m)
    ensures AdmitsItems(m, items, depth, values)
      <==> && Admits(m, items[0], depth + 1, values)
           && AdmitsItems(m, items[1..], depth, values + Count(items[0]))
    ensures RenderItems(items) == Render(items[0]) + RenderItems(items[1..])
    ensures CountItems(items) == Count(items[0]) + CountItems(items[1..])
  {
  }

  lemma EntriesTurn(m: Mode, es: seq<Entry>, depth: nat, values: nat)
    requires es != [] && depth <= MaxDepth(m)
    ensures AdmitsEntries(m, es, depth, values)
      <==> && Admits(m, Str(es[0].key), depth + 1, values)
           && Admits(m, es[0].value, depth + 1, values + 1)
           && AdmitsEntries(m, es[1..], depth, values + 1 + Count(es[0].value))
    ensures RenderEntries(es) == StrText(es[0].key) + Render(es[0].value) + RenderEntries(es[1..])
    ensures CountEntries(es) == 1 + Count(es[0].value) + CountEntries(es[1..])
  {
  }

  lemma NothingLeft(m: Mode, depth: nat, values: nat)
    ensures RenderItems([]) == [] && RenderEntries([]) == [] && CountItems([]) == CountEntries([]) == 0
    ensures AdmitsItems(m, [], depth, values) <==> AdmitsEntries(m, [], depth, values)
    ensures AdmitsItems(m, [], depth, values)
      <==> depth <= MaxDepth(m) && (m.External? ==> values <= m.limits.maxValues)
    ensures [] + [LOWER_E] == [LOWER_E]
  {
  }

  lemma AdmitsBounds(m: Mode, v: Value, depth: nat, values: nat)
    requires Admits(m, v, depth, values)
    ensures depth <= MaxDepth(m)
    ensures m.External? ==> values + Count(v) <= m.limits.maxValues
    ensures NoteValue(m, 0, depth, values).None?
  {
  }

  /** One turn of the list loop. */
  lemma ListTurn(m: Mode, buf: Bytes, pos: nat, depth: nat, values: nat, acc: seq<Value>)
    requires pos < |buf| && buf[pos] != LOWER_E
    ensures ParseList(m, buf, pos, depth, values, acc)
         == var v := ParseValue(m, buf, pos, depth + 1, values);
            if v.Failed? then v else ParseList(m, buf, v.next, depth, v.values, acc + [v.value])
  {
  }

  /** A dictionary that parses and is not at its end made a full turn. */
  lemma DictTurned(m: Mode, buf: Bytes, pos: nat, depth: nat, values: nat, acc: seq<Entry>,
                   seen: Option<set<Bytes>>)
    requires pos <= |buf| && ParseDict(m, buf, pos, depth, values, acc, seen).Parsed?
    ensures pos < |buf|
    ensures buf[pos] != LOWER_E ==>
      var k := ParseValue(m, buf, pos, depth + 1, values);
      && k.Parsed? && k.value.Str? && !Refuses(m, acc, seen, k.value.bytes)
      && ParseValue(m, buf, k.next, depth + 1, k.values).Parsed?
  {
  }

  lemma Closed(m: Mode, buf: Bytes, pos: nat, depth: nat, values: nat, items: seq<Value>,
               es: seq<Entry>, seen: Option<set<Bytes>>)
    requires pos < |buf| && buf[pos] == LOWER_E
    ensures ParseList(m, buf, pos, depth, values, items) == Parsed(List(items), pos + 1, values)
    ensures ParseDict(m, buf, pos, depth, values, es, seen) == Parsed(Dict(es), pos + 1, values)
  {
  }

  // ----- soundness -----

  /** An outcome whose value is rendered at `pos`, ends where it says, and is admitted. */
  predicate Sound(m: Mode, buf: Bytes, pos: nat, depth: nat, values: nat, o: Outcome) {
    && o.Parsed?
    && At(buf, pos, Render(o.value)) && o.next == pos + |Render(o.value)|
    && Admits(m, o.value, depth, values)
    && o.values == values + Count(o.value)
  }

  lemma {:induction false} ParseSound(m: Mode, buf: Bytes, pos: nat, depth: nat, values: nat)
    requires pos <= |buf|
    requires ParseValue(m, buf, pos, depth, values).Parsed?
    ensures Sound(m, buf, pos, depth, values, ParseValue(m, buf, pos, depth, values))
    decreases |buf| - pos, 0
  {
    hide Sound, ParseInt, ParseStr, ParseList, ParseDict;
    var b := buf[pos];
    if b == LOWER_I || IsDigit(b) {
      ScalarSound(m, buf, pos, depth, values);
    } else if b == LOWER_L {
      ListSound(m, buf, pos, depth, values);
    } else {
      DictSound(m, buf, pos, depth, values);
    }
  }

  lemma ScalarSound(m: Mode, buf: Bytes, pos: nat, depth: nat, values: nat)
    requires pos < |buf| && (buf[pos] == LOWER_I || IsDigit(buf[pos]))
    requires ParseValue(m, buf, pos, depth, values).Parsed?
    ensures Sound(m, buf, pos, depth, values, ParseValue(m, buf, pos, depth, values))
  {
    hide At, Dec, Render;
    if buf[pos] == LOWER_I {
      IntSound(buf, pos, values + 1);
    } else {
      StrSound(buf, pos, values + 1);
    }
  }

  lemma ListSound(m: Mode, buf: Bytes, pos: nat, depth: nat, values: nat)
    requires pos < |buf| && buf[pos] == LOWER_L && NoteValue(m, pos, depth, values).None?
    requires ParseList(m, buf, pos + 1, depth, values + 1, []).Parsed?
    ensures Sound(m, buf, pos, depth, values, ParseList(m, buf, pos + 1, depth, values + 1, []))
    decreases |buf| - pos - 1, 2
  {
    hide *;
    NotedBounds(m, pos, depth, values);
    var items := ParseListSound(m, buf, pos + 1, depth, values + 1, []);
    assert [] + items == items;
    AtByte(buf, pos, LOWER_L);
    AtFrame(buf, pos, LOWER_L, RenderItems(items));
    AdmitsList(m, items, depth, values);
    ListWhole(m, buf, pos, depth, values, items);
  }

  lemma ListWhole(m: Mode, buf: Bytes, pos: nat, depth: nat, values: nat, items: seq<Value>)
    requires At(buf, pos, [LOWER_L] + RenderItems(items) + [LOWER_E]) && Admits(m, List(items), depth, values)
    ensures Sound(m, buf, pos, depth, values,
                  Parsed(List(items), pos + |RenderItems(items)| + 2, values + Count(List(items))))
  {
    hide At, Admits, RenderItems, Count;
  }

  lemma DictSound(m: Mode, buf: Bytes, pos: nat, depth: nat, values: nat)
    requires pos < |buf| && buf[pos] == LOWER_D && NoteValue(m, pos, depth, values).None?
    requires ParseDict(m, buf, pos + 1, depth, values + 1, [], None).Parsed?
    ensures Sound(m, buf, pos, depth, values, ParseDict(m, buf, pos + 1, depth, values + 1, [], None))
    decreases |buf| - pos - 1, 2
  {
    hide *;
    NotedBounds(m, pos, depth, values);
    var es := ParseDictSound(m, buf, pos + 1, depth, values + 1, [], None);
    assert [] + es == es;
    AtByte(buf, pos, LOWER_D);
    AtFrame(buf, pos, LOWER_D, RenderEntries(es));
    AdmitsDict(m, es, depth, values);
    DictWhole(m, buf, pos, depth, values, es);
  }

  lemma NotedBounds(m: Mode, pos: nat, depth: nat, values: nat)
    requires NoteValue(m, pos, depth, values).None?
    ensures depth <= MaxDepth(m) && (m.External? ==> values + 1 <= m.limits.maxValues)
    ensures SeenExact(m, [], None)
  {
  }

  lemma DictWhole(m: Mode, buf: Bytes, pos: nat, depth: nat, values: nat, es: seq<Entry>)
    requires At(buf, pos, [LOWER_D] + RenderEntries(es) + [LOWER_E]) && Admits(m, Dict(es), depth, values)
    ensures Sound(m, buf, pos, depth, values,
                  Parsed(Dict(es), pos + |RenderEntries(es)| + 2, values + Count(Dict(es))))
  {
    hide At, Admits, RenderEntries, Count;
  }

  lemma {:induction false} ParseListSound(m: Mode, buf: Bytes, pos: nat, depth: nat, values: nat,
                                          acc: seq<Value>) returns (rest: seq<Value>)
    requires pos <= |buf|
    requires depth <= MaxDepth(m) && (m.External? ==> values <= m.limits.maxValues)
    requires ParseList(m, buf, pos, depth, values, acc).Parsed?
    ensures At(buf, pos, RenderItems(rest) + [LOWER_E])
    ensures AdmitsItems(m, rest, depth, values)
    ensures ParseList(m, buf, pos, depth, values, acc)
         == Parsed(List(acc + rest), pos + |RenderItems(rest)| + 1, values + CountItems(rest))
    decreases |buf| - pos, 1
  {
    hide *;
    Unclosed(m, buf, pos, depth, values, acc);
    if buf[pos] == LOWER_E {
      rest := [];
      Closed(m, buf, pos, depth, values, acc, [], None);
      AtByte(buf, pos, LOWER_E);
      NothingLeft(m, depth, values);
      assert acc + rest == acc;
    } else {
      ListTurn(m, buf, pos, depth, values, acc);
      var p := ParseValue(m, buf, pos, depth + 1, values);
      ParseSound(m, buf, pos, depth + 1, values);
      SoundParts(m, buf, pos, depth + 1, values, p);
      var tail := ParseListSound(m, buf, p.next, depth, p.values, acc + [p.value]);
      rest := [p.value] + tail;
      assert rest[1..] == tail && acc + [p.value] + tail == acc + rest;
      ItemsTurn(m, rest, depth, values);
      AtStep(buf, pos, Render(p.value), RenderItems(tail));
    }
  }

  lemma Unclosed(m: Mode, buf: Bytes, pos: nat, depth: nat, values: nat, acc: seq<Value>)
    requires pos <= |buf| && ParseList(m, buf, pos, depth, values, acc).Parsed?
    ensures pos < |buf|
  {
  }

  lemma SoundParts(m: Mode, buf: Bytes, pos: nat, depth: nat, values: nat, o: Outcome)
    requires Sound(m, buf, pos, depth, values, o)
    ensures At(buf, pos, Render(o.value)) && o.next == pos + |Render(o.value)|
    ensures Admits(m, o.value, depth, values)
    ensures o.values == values + Count(o.value)
    ensures m.External? ==> values + Count(o.value) <= m.limits.maxValues
    ensures o.value.Str? ==> Render(o.value) == StrText(o.value.bytes) && Count(o.value) == 1
  {
  }

  lemma {:induction false} ParseDictSound(m: Mode, buf: Bytes, pos: nat, depth: nat, values: nat,
                                          acc: seq<Entry>, seen: Option<set<Bytes>>) returns (rest: seq<Entry>)
    requires pos <= |buf|
    requires depth <= MaxDepth(m) && (m.External? ==> values <= m.limits.maxValues)
    requires SeenExact(m, acc, seen)
    requires ParseDict(m, buf, pos, depth, values, acc, seen).Parsed?
    ensures At(buf, pos, RenderEntries(rest) + [LOWER_E])
    ensures AdmitsEntries(m, rest, depth, values)
    ensures m.Strict? ==> Distinct(KeysOf(acc + rest))
    ensures ParseDict(m, buf, pos, depth, values, acc, seen)
         == Parsed(Dict(acc + rest), pos + |RenderEntries(rest)| + 1, values + CountEntries(rest))
    decreases |buf| - pos, 1
  {
    hide *;
    DictTurned(m, buf, pos, depth, values, acc, seen);
    if buf[pos] == LOWER_E {
      rest := [];
      Closed(m, buf, pos, depth, values, [], acc, seen);
      AtByte(buf, pos, LOWER_E);
      NothingLeft(m, depth, values);
      SeenDistinct(m, acc, seen);
      assert acc + rest == acc;
    } else {
      var k := ParseValue(m, buf, pos, depth + 1, values);
      ParseSound(m, buf, pos, depth + 1, values);
      SoundParts(m, buf, pos, depth + 1, values, k);
      var v := ParseValue(m, buf, k.next, depth + 1, k.values);
      ParseSound(m, buf, k.next, depth + 1, k.values);
      SoundParts(m, buf, k.next, depth + 1, k.values, v);
      var e := Entry(k.value.bytes, v.value);
      SeenStep(m, acc, seen, e);
      DictTurn(m, buf, pos, depth, values, acc, seen, k, v);
      var tail := ParseDictSound(m, buf, v.next, depth, v.values, acc + [e], NextSeen(m, acc, seen, e.key));
      rest := [e] + tail;
      assert rest[1..] == tail && acc + [e] + tail == acc + rest;
      EntriesTurn(m, rest, depth, values);
      AtJoin(buf, pos, StrText(e.key), Render(e.value));
      AtStep(buf, pos, StrText(e.key) + Render(e.value), RenderEntries(tail));
    }
  }

  lemma SeenDistinct(m: Mode, acc: seq<Entry>, seen: Option<set<Bytes>>)
    requires SeenExact(m, acc, seen)
    ensures m.Strict? ==> Distinct(KeysOf(acc))
  {
  }

  lemma SeenStep(m: Mode, acc: seq<Entry>, seen: Option<set<Bytes>>, e: Entry)
    requires SeenExact(m, acc, seen) && !Refuses(m, acc, seen, e.key)
    ensures SeenExact(m, acc + [e], NextSeen(m, acc, seen, e.key))
  {
    if m.Strict? {
      RefusesExactly(m, acc, seen, e);
    }
  }

  // ----- completeness -----

  lemma {:induction false} ParseComplete(m: Mode, buf: Bytes, pos: nat, depth: nat, values: nat, v: Value)
    requires Admits(m, v, depth, values) && At(buf, pos, Render(v))
    ensures pos < |buf| && buf[pos] != LOWER_E
    ensures ParseValue(m, buf, pos, depth, values)
         == Parsed(v, pos + |Render(v)|, values + Count(v))
    decreases v, 1
  {
    hide *;
    FirstByte(v);
    RenderParts(v);
    AtFirst(buf, pos, Render(v));
    AdmitsBounds(m, v, depth, values);
    Dispatch(m, buf, pos, depth, values);
    match v
    case Int(n) => IntAdmitted(m, n, depth, values); IntComplete(buf, pos, n, values + 1);
    case Str(b) => KeyComplete(m, buf, pos, depth, values, b);
    case List(items) =>
      AtFrame(buf, pos, LOWER_L, RenderItems(items));
      AdmitsList(m, items, depth, values);
      ListComplete(m, buf, pos + 1, depth, values + 1, [], items);
      assert [] + items == items;
    case Dict(es) =>
      AtFrame(buf, pos, LOWER_D, RenderEntries(es));
      AdmitsDict(m, es, depth, values);
      EmptySeen(m);
      assert [] + es == es;
      DictComplete(m, buf, pos + 1, depth, values + 1, [], None, es);
  }

  /** The first byte decides what a value is. */
  lemma Dispatch(m: Mode, buf: Bytes, pos: nat, depth: nat, values: nat)
    requires pos < |buf| && NoteValue(m, 0, depth, values).None?
    ensures buf[pos] == LOWER_I ==>
      ParseValue(m, buf, pos, depth, values) == ParseInt(buf, pos, values + 1)
    ensures buf[pos] == LOWER_L ==>
      ParseValue(m, buf, pos, depth, values) == ParseList(m, buf, pos + 1, depth, values + 1, [])
    ensures buf[pos] == LOWER_D ==>
      ParseValue(m, buf, pos, depth, values) == ParseDict(m, buf, pos + 1, depth, values + 1, [], None)
    ensures IsDigit(buf[pos]) ==>
      ParseValue(m, buf, pos, depth, values) == ParseStr(buf, pos, values + 1)
  {
  }

  lemma EmptySeen(m: Mode)
    ensures SeenExact(m, [], None)
  {
  }

  lemma IntAdmitted(m: Mode, n: int, depth: nat, values: nat)
    requires Admits(m, Int(n), depth, values)
    ensures I64_MIN <= n <= I64_MAX && Count(Int(n)) == 1
  {
  }

  lemma KeyComplete(m: Mode, buf: Bytes, pos: nat, depth: nat, values: nat, key: Bytes)
    requires Admits(m, Str(key), depth, values) && At(buf, pos, StrText(key))
    ensures pos < |buf| && buf[pos] != LOWER_E
    ensures ParseValue(m, buf, pos, depth, values)
         == Parsed(Str(key), pos + |StrText(key)|, values + 1)
  {
    FirstByte(Str(key));
    AtFirst(buf, pos, StrText(key));
    AdmitsBounds(m, Str(key), depth, values);
    Dispatch(m, buf, pos, depth, values);
    hide ParseStr, ParseValue, At, StrText;
    StrComplete(buf, pos, key, values + 1);
  }

  lemma {:induction false} ListComplete(m: Mode, buf: Bytes, pos: nat, depth: nat, values: nat,
                                        acc: seq<Value>, rest: seq<Value>)
    requires AdmitsItems(m, rest, depth, values) && At(buf, pos, RenderItems(rest) + [LOWER_E])
    requires depth <= MaxDepth(m)
    ensures pos <= |buf|
    ensures ParseList(m, buf, pos, depth, values, acc)
         == Parsed(List(acc + rest), pos + |RenderItems(rest)| + 1, values + CountItems(rest))
    decreases rest, 0
  {
    hide *;
    if rest == [] {
      NothingLeft(m, depth, values);
      AtByte(buf, pos, LOWER_E);
      Closed(m, buf, pos, depth, values, acc, [], None);
      assert acc + rest == acc;
    } else {
      var v := rest[0];
      ItemsTurn(m, rest, depth, values);
      AtStep(buf, pos, Render(v), RenderItems(rest[1..]));
      ParseComplete(m, buf, pos, depth + 1, values, v);
      ListComplete(m, buf, pos + |Render(v)|, depth, values + Count(v), acc + [v], rest[1..]);
      ListTurn(m, buf, pos, depth, values, acc);
      assert acc + [v] + rest[1..] == acc + rest;
    }
  }

  lemma {:induction false} DictComplete(m: Mode, buf: Bytes, pos: nat, depth: nat, values: nat,
                                        acc: seq<Entry>, seen: Option<set<Bytes>>, rest: seq<Entry>)
    requires AdmitsEntries(m, rest, depth, values) && At(buf, pos, RenderEntries(rest) + [LOWER_E])
    requires depth <= MaxDepth(m)
    requires SeenExact(m, acc, seen)
    requires m.Strict? ==> Distinct(KeysOf(acc + rest))
    ensures pos <= |buf|
    ensures ParseDict(m, buf, pos, depth, values, acc, seen)
         == Parsed(Dict(acc + rest), pos + |RenderEntries(rest)| + 1, values + CountEntries(rest))
    decreases rest, 0
  {
    hide *;
    if rest == [] {
      NothingLeft(m, depth, values);
      AtByte(buf, pos, LOWER_E);
      Closed(m, buf, pos, depth, values, [], acc, seen);
      assert acc + rest == acc;
    } else {
      var e := rest[0];
      var k, v := StrText(e.key), Render(e.value);
      EntriesTurn(m, rest, depth, values);
      AtStep(buf, pos, k + v, RenderEntries(rest[1..]));
      AtSplit(buf, pos, k, v);
      KeyComplete(m, buf, pos, depth + 1, values, e.key);
      ParseComplete(m, buf, pos + |k|, depth + 1, values + 1, e.value);
      assert acc + [e] + rest[1..] == acc + rest;
      NotRefused(m, acc, seen, e, rest[1..]);
      DictTurn(m, buf, pos, depth, values, acc, seen,
               ParseValue(m, buf, pos, depth + 1, values),
               ParseValue(m, buf, pos + |k|, depth + 1, values + 1));
      DictComplete(m, buf, pos + |k| + |v|, depth, values + 1 + Count(e.value),
                   acc + [e], NextSeen(m, acc, seen, e.key), rest[1..]);
    }
  }

  lemma NotRefused(m: Mode, acc: seq<Entry>, seen: Option<set<Bytes>>, e: Entry, rest: seq<Entry>)
    requires SeenExact(m, acc, seen)
    requires m.Strict? ==> Distinct(KeysOf(acc + [e] + rest))
    ensures !Refuses(m, acc, seen, e.key)
    ensures SeenExact(m, acc + [e], NextSeen(m, acc, seen, e.key))
  {
    if m.Strict? {
      assert KeysOf(acc + [e] + rest)[..|acc| + 1] == KeysOf(acc + [e]);
      RefusesExactly(m, acc, seen, e);
    }
  }

  // ----- the theorems -----

  /** Decoding in either mode succeeds with `v` exactly when the input starts with the rendering of
      `v` and `v` is within the mode's bounds. */
  lemma DecodeExactly(m: Mode, input: Bytes, v: Value)
    requires m.External? ==> |input| <= m.limits.maxInputLen
    ensures Decode(m, input).Parsed? && Decode(m, input).value == v
      <==> Admits(m, v, 0, 0) && Render(v) <= input
    ensures Decode(m, input).Parsed? && Decode(m, input).value == v
      ==> Decode(m, input).next == |Render(v)|
  {
    if Decode(m, input).Parsed? && Decode(m, input).value == v {
      ParseSound(m, input, 0, 0, 0);
      assert input[0..Decode(m, input).next] == Render(v);
    }
    if Admits(m, v, 0, 0) && Render(v) <= input {
      ParseComplete(m, input, 0, 0, 0, v);
    }
  }

  predicate AllIn(s: Bytes, bs: set<Byte>) { forall i | 0 <= i < |s| :: s[i] in bs }

  /** Decoding the whole input succeeds exactly on a rendering within the mode's bounds: that and
      nothing else in strict mode, that and blanks in external mode. More after it is an error. */
  lemma DecodeAllExactly(m: Mode, input: Bytes, v: Value)
    requires m.External? ==> |input| <= m.limits.maxInputLen
    ensures DecodeAll(m, input).Parsed? && DecodeAll(m, input).value == v
      <==> Admits(m, v, 0, 0) && Render(v) <= input && MayFollow(m, input[|Render(v)|..])
    ensures m.Strict? ==>
      (DecodeAll(m, input).Parsed? && DecodeAll(m, input).value == v <==> Admits(m, v, 0, 0) && input == Render(v))
    ensures m.External? ==>
      (DecodeAll(m, input).Parsed? && DecodeAll(m, input).value == v
       <==> Admits(m, v, 0, 0) && Render(v) <= input && AllIn(input[|Render(v)|..], {9, 10, 12, 13, 32}))
    ensures Admits(m, v, 0, 0) && Render(v) <= input && !MayFollow(m, input[|Render(v)|..]) ==>
      DecodeAll(m, input) == Failed(TrailingBytes)
  {
    hide Decode, Admits, Render;
    DecodeExactly(m, input, v);
    if Render(v) <= input {
      assert input == Render(v) + input[|Render(v)|..];
    }
  }

  /** External limits wide enough for two given values. */
  function Wide(v: Value, w: Value, input: Bytes): Mode {
    External(Limits(|input|, Depth(v) + Depth(w), Count(v) + Count(w)))
  }

  /** No rendering is a proper prefix of another, and no two values share one. */
  lemma Unambiguous(input: Bytes, v: Value, w: Value)
    requires Representable(v) && Representable(w)
    requires Render(v) <= input && Render(w) <= input
    ensures v == w
  {
    var m := Wide(v, w, input);
    DecodeExactly(m, input, v);
    DecodeExactly(m, input, w);
  }

  /** Two inputs that decode, each as a whole and in any mode, to one value are the same bytes. */
  lemma DecodeInjective(m1: Mode, a: Bytes, m2: Mode, b: Bytes)
    requires Decode(m1, a).Parsed? && Decode(m1, a).next == |a|
    requires Decode(m2, b).Parsed? && Decode(m2, b).next == |b|
    ensures Decode(m1, a).value == Decode(m2, b).value <==> a == b
  {
    DecodeExactly(m1, a, Decode(m1, a).value);
    DecodeExactly(m2, b, Decode(m2, b).value);
    if a == b {
      Unambiguous(a, Decode(m1, a).value, Decode(m2, b).value);
    }
  }

  /** The relaxed grammar without limits: some representable value renders as a prefix. */
  ghost predicate InGrammar(input: Bytes, v: Value) { Representable(v) && Render(v) <= input }

  /** Strict decoding accepts exactly the inputs of the relaxed grammar whose value has distinct
      keys in every dictionary and nests at most 256 deep. */
  lemma StrictExactly(input: Bytes)
    ensures Decode(Strict, input).Parsed?
      <==> exists v :: InGrammar(input, v) && DistinctKeys(v) && Depth(v) <= 256
    ensures forall v | InGrammar(input, v) ::
      Decode(Strict, input).Parsed? <==> DistinctKeys(v) && Depth(v) <= 256
  {
    if Decode(Strict, input).Parsed? {
      var w := Decode(Strict, input).value;
      DecodeExactly(Strict, input, w);
      assert InGrammar(input, w);
      forall v | InGrammar(input, v)
        ensures v == w
      {
        Unambiguous(input, v, w);
      }
    }
    forall v | InGrammar(input, v) && DistinctKeys(v) && Depth(v) <= MAX_STRICT_DEPTH
      ensures Decode(Strict, input).Parsed?
    {
      DecodeExactly(Strict, input, v);
    }
  }
}
