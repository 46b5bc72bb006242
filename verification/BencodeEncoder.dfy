/** The bencode printer. */
module BencodeEncoder {
  /* The printer: every dictionary goes through an ordered map, so the output is the rendering of the
   value with its dictionaries sorted, and a repeated key is refused. Decoding undoes it. */

  import opened Common
  import opened BencodeText
  import opened BencodeParser
  import opened BencodeGrammar

  // ----- the ordered map -----

  /** Insertion into an ordered map listed by ascending key; an equal key is replaced. */
  function Insert(s: seq<Entry>, e: Entry): seq<Entry> {
    if s == [] || Less(e.key, s[0].key) then [e] + s
    else if e.key == s[0].key then [e] + s[1..]
    else [s[0]] + Insert(s[1..], e)
  }

  function Sort(es: seq<Entry>): seq<Entry> {
    if es == [] then [] else Insert(Sort(es[..|es| - 1]), es[|es| - 1])
  }

  predicate HasKey(es: seq<Entry>, key: Bytes) { exists i :: 0 <= i < |es| && es[i].key == key }

  lemma AscendingCons(e: Entry, s: seq<Entry>)
    requires Ascending(s) && forall j | 0 <= j < |s| :: Less(e.key, s[j].key)
    ensures Ascending([e] + s)
  {
  }

  lemma {:induction false} InsertFresh(s: seq<Entry>, e: Entry)
    requires Ascending(s) && !HasKey(s, e.key)
    ensures Ascending(Insert(s, e))
    ensures multiset(Insert(s, e)) == multiset(s) + multiset{e}
  {
    if s == [] || Less(e.key, s[0].key) {
      forall j | 0 <= j < |s|
        ensures Less(e.key, s[j].key)
      {
        if j > 0 {
          LessTransitive(e.key, s[0].key, s[j].key);
        }
      }
      AscendingCons(e, s);
    } else {
      LessTotal(e.key, s[0].key);
      var tail := Insert(s[1..], e);
      assert s == [s[0]] + s[1..];
      InsertFresh(s[1..], e);
      hide Less, Insert;
      forall j | 0 <= j < |tail|
        ensures Less(s[0].key, tail[j].key)
      {
        assert tail[j] in multiset(tail);
      }
      AscendingCons(s[0], tail);
      hide Ascending;
    }
  }

  lemma {:induction false} InsertSums(s: seq<Entry>, e: Entry)
    requires !HasKey(s, e.key)
    ensures CountEntries(Insert(s, e)) == CountEntries(s) + 1 + Count(e.value)
    ensures |RenderEntries(Insert(s, e))|
         == |RenderEntries(s)| + |StrText(e.key)| + |Render(e.value)|
  {
    if s == [] || Less(e.key, s[0].key) {
      assert Insert(s, e)[1..] == s;
    } else {
      assert Insert(s, e)[1..] == Insert(s[1..], e);
      InsertSums(s[1..], e);
    }
  }

  lemma {:induction false} SortDistinct(es: seq<Entry>)
    requires Distinct(KeysOf(es))
    ensures Ascending(Sort(es))
    ensures multiset(Sort(es)) == multiset(es)
    ensures CountEntries(Sort(es)) == CountEntries(es)
    ensures |RenderEntries(Sort(es))| == |RenderEntries(es)|
  {
    if es == [] {
    } else {
      var front, last := es[..|es| - 1], es[|es| - 1];
      assert es == front + [last];
      assert KeysOf(front) == KeysOf(es)[..|es| - 1];
      SortDistinct(front);
      forall i | 0 <= i < |Sort(front)|
        ensures Sort(front)[i].key != last.key
      {
        var j := Member(Sort(front), front, i);
        assert KeysOf(es)[j] != KeysOf(es)[|es| - 1];
      }
      hide Distinct;
      InsertFresh(Sort(front), last);
      InsertSums(Sort(front), last);
      EntriesAppend(front, [last]);
    }
  }

  lemma {:induction false} SortAscending(es: seq<Entry>)
    requires Ascending(es)
    ensures Sort(es) == es
  {
    if es == [] {
    } else {
      var front, last := es[..|es| - 1], es[|es| - 1];
      SortAscending(front);
      InsertLast(front, last);
      assert es == front + [last];
    }
  }

  lemma {:induction false} InsertLast(s: seq<Entry>, e: Entry)
    requires forall i | 0 <= i < |s| :: Less(s[i].key, e.key)
    ensures Insert(s, e) == s + [e]
  {
    if s == [] {
    } else {
      LessTotal(e.key, s[0].key);
      InsertLast(s[1..], e);
    }
  }

  lemma {:induction false} EntriesAppend(a: seq<Entry>, b: seq<Entry>)
    ensures RenderEntries(a + b) == RenderEntries(a) + RenderEntries(b)
    ensures CountEntries(a + b) == CountEntries(a) + CountEntries(b)
  {
    if a == [] {
      assert a + b == b;
    } else {
      assert (a + b)[1..] == a[1..] + b;
      EntriesAppend(a[1..], b);
    }
  }

  lemma {:induction false} ItemsAppend(a: seq<Value>, b: seq<Value>)
    ensures RenderItems(a + b) == RenderItems(a) + RenderItems(b)
  {
    if a == [] {
      assert a + b == b;
    } else {
      assert (a + b)[1..] == a[1..] + b;
      ItemsAppend(a[1..], b);
    }
  }

  // ----- the canonical form -----

  /** The value with every dictionary sorted by key. */
  function Canon(v: Value): Value
    decreases v, 1
  {
    match v
    case Int(_) => v
    case Str(_) => v
    case List(items) => List(CanonItems(items))
    case Dict(entries) => Dict(Sort(CanonEntries(entries)))
  }

  function CanonItems(items: seq<Value>): (r: seq<Value>)
    ensures |r| == |items|
    ensures forall i | 0 <= i < |items| :: r[i] == Canon(items[i])
    decreases items, 0
  {
    if items == [] then [] else [Canon(items[0])] + CanonItems(items[1..])
  }

  function CanonEntries(es: seq<Entry>): (r: seq<Entry>)
    ensures |r| == |es|
    ensures forall i | 0 <= i < |es| :: r[i] == Entry(es[i].key, Canon(es[i].value))
    decreases es, 0
  {
    if es == [] then [] else [Entry(es[0].key, Canon(es[0].value))] + CanonEntries(es[1..])
  }

  /** Every dictionary lists its keys in strictly ascending order. */
  predicate Sorted(v: Value)
    decreases v
  {
    match v
    case Int(_) => true
    case Str(_) => true
    case List(items) => forall i | 0 <= i < |items| :: Sorted(items[i])
    case Dict(es) => Ascending(es) && forall i | 0 <= i < |es| :: Sorted(es[i].value)
  }

  lemma AscendingDistinct(es: seq<Entry>)
    requires Ascending(es)
    ensures Distinct(KeysOf(es))
  {
    forall i, j | 0 <= i < j < |es|
      ensures es[i].key != es[j].key
    {
      LessTotal(es[i].key, es[j].key);
    }
  }

  lemma {:induction false} DistinctAll(items: seq<Value>, es: seq<Entry>)
    ensures DistinctItems(items) <==> forall i | 0 <= i < |items| :: DistinctKeys(items[i])
    ensures DistinctEntries(es) <==> forall i | 0 <= i < |es| :: DistinctKeys(es[i].value)
    decreases |items| + |es|
  {
    if items == [] {
    } else {
      DistinctAll(items[1..], []);
      assert forall i | 1 <= i < |items| :: items[i] == items[1..][i - 1];
    }
    if es == [] {
    } else {
      DistinctAll([], es[1..]);
      assert forall i | 1 <= i < |es| :: es[i] == es[1..][i - 1];
    }
  }

  lemma {:induction false} RepresentableAll(items: seq<Value>, es: seq<Entry>)
    ensures RepresentableItems(items) <==> forall i | 0 <= i < |items| :: Representable(items[i])
    ensures RepresentableEntries(es)
      <==> forall i | 0 <= i < |es| :: |es[i].key| <= ISIZE_MAX && Representable(es[i].value)
    decreases |items| + |es|
  {
    if items == [] {
    } else {
      RepresentableAll(items[1..], []);
      assert forall i | 1 <= i < |items| :: items[i] == items[1..][i - 1];
    }
    if es == [] {
    } else {
      RepresentableAll([], es[1..]);
      assert forall i | 1 <= i < |es| :: es[i] == es[1..][i - 1];
    }
  }

  lemma {:induction false} DepthAll(items: seq<Value>, es: seq<Entry>, d: nat)
    ensures DepthItems(items) <= d <==> forall i | 0 <= i < |items| :: 1 + Depth(items[i]) <= d
    ensures DepthEntries(es) <= d <==> forall i | 0 <= i < |es| :: 1 + Depth(es[i].value) <= d
    decreases |items| + |es|
  {
    if items == [] {
    } else {
      DepthAll(items[1..], [], d);
      assert forall i | 1 <= i < |items| :: items[i] == items[1..][i - 1];
    }
    if es == [] {
    } else {
      DepthAll([], es[1..], d);
      assert forall i | 1 <= i < |es| :: es[i] == es[1..][i - 1];
    }
  }

  /** The entry at each place of a permutation is an entry of the original. */
  lemma Member(s: seq<Entry>, es: seq<Entry>, i: nat) returns (j: nat)
    requires multiset(s) == multiset(es) && i < |s|
    ensures j < |es| && es[j] == s[i]
  {
    assert s[i] in multiset(es);
    j :| 0 <= j < |es| && es[j] == s[i];
  }

  /** Sorting keeps what the parser looks at and the length of the text. */
  lemma {:induction false} CanonKeeps(v: Value)
    requires DistinctKeys(v)
    ensures DistinctKeys(Canon(v)) && Sorted(Canon(v))
    ensures Count(Canon(v)) == Count(v) && |Render(Canon(v))| == |Render(v)|
    ensures Depth(Canon(v)) <= Depth(v)
    ensures Representable(v) ==> Representable(Canon(v))
    decreases v, 1
  {
    match v
    case Int(_) =>
    case Str(_) =>
    case List(items) => CanonItemsKeep(items);
    case Dict(es) =>
      var ces := CanonEntries(es);
      CanonEntriesKeep(es);
      assert KeysOf(ces) == KeysOf(es);
      SortDistinct(ces);
      AscendingDistinct(Sort(ces));
      SortedEntriesKeep(ces, Sort(ces), DepthEntries(es));
  }

  lemma {:induction false} CanonItemsKeep(items: seq<Value>)
    requires DistinctItems(items)
    ensures var r := CanonItems(items);
      && DistinctItems(r) && (forall i | 0 <= i < |r| :: Sorted(r[i]))
      && CountItems(r) == CountItems(items) && |RenderItems(r)| == |RenderItems(items)|
      && DepthItems(r) <= DepthItems(items)
      && (RepresentableItems(items) ==> RepresentableItems(r))
    decreases items, 0
  {
    if items == [] {
    } else {
      CanonKeeps(items[0]);
      CanonItemsKeep(items[1..]);
      assert CanonItems(items)[1..] == CanonItems(items[1..]);
    }
  }

  lemma {:induction false} CanonEntriesKeep(es: seq<Entry>)
    requires DistinctEntries(es)
    ensures var r := CanonEntries(es);
      && DistinctEntries(r) && (forall i | 0 <= i < |r| :: Sorted(r[i].value))
      && CountEntries(r) == CountEntries(es) && |RenderEntries(r)| == |RenderEntries(es)|
      && DepthEntries(r) <= DepthEntries(es)
      && (RepresentableEntries(es) ==> RepresentableEntries(r))
    decreases es, 0
  {
    if es == [] {
    } else {
      CanonKeeps(es[0].value);
      CanonEntriesKeep(es[1..]);
      assert CanonEntries(es)[1..] == CanonEntries(es[1..]);
    }
  }

  lemma SortedEntriesKeep(es: seq<Entry>, s: seq<Entry>, d: nat)
    requires multiset(s) == multiset(es)
    requires DistinctEntries(es) && (forall i | 0 <= i < |es| :: Sorted(es[i].value))
    requires DepthEntries(es) <= d
    ensures DistinctEntries(s) && (forall i | 0 <= i < |s| :: Sorted(s[i].value))
    ensures DepthEntries(s) <= d
    ensures RepresentableEntries(es) ==> RepresentableEntries(s)
  {
    DistinctAll([], es);
    DistinctAll([], s);
    DepthAll([], es, d);
    DepthAll([], s, d);
    RepresentableAll([], es);
    RepresentableAll([], s);
    hide *;
    forall i | 0 <= i < |s|
      ensures exists j :: 0 <= j < |es| && es[j] == s[i]
    {
      var j := Member(s, es, i);
    }
  }

  lemma {:induction false} CanonSorted(v: Value)
    ensures Sorted(v) ==> Canon(v) == v
    decreases v
  {
    if Sorted(v) {
      match v
      case Int(_) =>
      case Str(_) =>
      case List(items) =>
        forall i | 0 <= i < |items| ensures Canon(items[i]) == items[i] { CanonSorted(items[i]); }
        assert CanonItems(items) == items;
      case Dict(es) =>
        forall i | 0 <= i < |es| ensures Canon(es[i].value) == es[i].value { CanonSorted(es[i].value); }
        assert CanonEntries(es) == es;
        SortAscending(es);
    }
  }

  // ----- the printer -----

  /** Writes after `w`; on a repeated key it stops, having written a part. */
  method EncodeToWriter(v: Value, w: Bytes) returns (ok: bool, out: Bytes)
    ensures ok <==> DistinctKeys(v)
    ensures ok ==> out == w + Render(Canon(v))
    decreases v
  {
    match v
    case Int(n) => ok, out := true, w + [LOWER_I] + IntText(n) + [LOWER_E];
      assert out == w + Render(v);
    case Str(b) => ok, out := true, w + StrText(b);
    case List(items) => ok, out := EncodeItems(v, w);
    case Dict(es) => ok, out := EncodeEntries(v, w);
  }

  lemma ListParts(items: seq<Value>)
    ensures Render(Canon(List(items))) == [LOWER_L] + RenderItems(CanonItems(items)) + [LOWER_E]
    ensures DistinctKeys(List(items)) <==> forall i | 0 <= i < |items| :: DistinctKeys(items[i])
  {
    DistinctAll(items, []);
  }

  lemma DictParts(es: seq<Entry>)
    ensures Render(Canon(Dict(es))) == [LOWER_D] + RenderEntries(CanonEntries(Sort(es))) + [LOWER_E]
    ensures DistinctKeys(Dict(es))
      <==> Distinct(KeysOf(es)) && forall i | 0 <= i < |es| :: DistinctKeys(es[i].value)
  {
    CanonSort(es);
    DistinctAll([], es);
  }

  lemma ItemsSnoc(canon: seq<Value>, i: nat)
    requires i < |canon|
    ensures RenderItems(canon[..i + 1]) == RenderItems(canon[..i]) + Render(canon[i])
  {
    assert canon[..i + 1] == canon[..i] + [canon[i]];
    ItemsAppend(canon[..i], [canon[i]]);
  }

  lemma EntriesSnoc(canon: seq<Entry>, i: nat)
    requires i < |canon|
    ensures RenderEntries(canon[..i + 1])
         == RenderEntries(canon[..i]) + StrText(canon[i].key) + Render(canon[i].value)
  {
    assert canon[..i + 1] == canon[..i] + [canon[i]];
    EntriesAppend(canon[..i], [canon[i]]);
  }

  lemma Nothing()
    ensures RenderItems([]) == [] && RenderEntries([]) == []
    ensures Sort([]) == [] && Distinct(KeysOf([]))
  {
  }

  method EncodeItems(v: Value, w: Bytes) returns (ok: bool, out: Bytes)
    requires v.List?
    ensures ok <==> DistinctKeys(v)
    ensures ok ==> out == w + Render(Canon(v))
    decreases v, 0
  {
    hide *;
    var items := v.items;
    ghost var canon := CanonItems(items);
    ListParts(items);
    Nothing();
    assert canon[..0] == [];
    out := w + [LOWER_L];
    ghost var body: Bytes := [];
    for i := 0 to |items|
      invariant forall j | 0 <= j < i :: DistinctKeys(items[j])
      invariant body == RenderItems(canon[..i]) && out == w + [LOWER_L] + body
    {
      ok, out := EncodeToWriter(items[i], out);
      if !ok {
        return;
      }
      ItemsSnoc(canon, i);
      body := body + Render(canon[i]);
    }
    assert canon[..|items|] == canon;
    ok, out := true, out + [LOWER_E];
    assert out == w + ([LOWER_L] + body + [LOWER_E]);
  }

  method EncodeEntries(v: Value, w: Bytes) returns (ok: bool, out: Bytes)
    requires v.Dict?
    ensures ok <==> DistinctKeys(v)
    ensures ok ==> out == w + Render(Canon(v))
    decreases v, 0
  {
    hide *;
    var es := v.entries;
    var sorted: seq<Entry> := [];
    Nothing();
    assert es[..0] == [];
    for i := 0 to |es|
      invariant sorted == Sort(es[..i]) && Distinct(KeysOf(es[..i]))
    {
      SortSnoc(es, i);
      DictParts(es);
      if HasKey(sorted, es[i].key) {
        return false, w;
      }
      sorted := Insert(sorted, es[i]);
    }
    assert es[..|es|] == es;
    SortDistinct(es);
    DictParts(es);
    ok, out := EncodeSorted(v, sorted, w + [LOWER_D]);
    assert ok ==> out + [LOWER_E] == w + ([LOWER_D] + RenderEntries(CanonEntries(sorted)) + [LOWER_E]);
    out := out + [LOWER_E];
  }

  method EncodeSorted(v: Value, sorted: seq<Entry>, w: Bytes) returns (ok: bool, out: Bytes)
    requires v.Dict? && multiset(sorted) == multiset(v.entries)
    ensures ok <==> forall i | 0 <= i < |v.entries| :: DistinctKeys(v.entries[i].value)
    ensures ok ==> out == w + RenderEntries(CanonEntries(sorted))
    decreases v, 0, 0
  {
    hide *;
    var es := v.entries;
    ghost var canon := CanonEntries(sorted);
    Nothing();
    assert canon[..0] == [];
    out := w;
    for i := 0 to |sorted|
      invariant forall j | 0 <= j < i :: DistinctKeys(sorted[j].value)
      invariant out == w + RenderEntries(canon[..i])
    {
      ghost var j := Member(sorted, es, i);
      assert es[j].value < v;
      EntriesSnoc(canon, i);
      ok, out := EncodeToWriter(sorted[i].value, out + StrText(sorted[i].key));
      if !ok {
        return;
      }
    }
    assert canon[..|sorted|] == canon;
    forall j | 0 <= j < |es|
      ensures DistinctKeys(es[j].value)
    {
      var i := Member(es, sorted, j);
    }
    ok := true;
  }

  /** An ordered map over the first entries has the next key exactly when that key repeats. */
  lemma SortSnoc(es: seq<Entry>, i: nat)
    requires i < |es| && Distinct(KeysOf(es[..i]))
    ensures Sort(es[..i + 1]) == Insert(Sort(es[..i]), es[i])
    ensures HasKey(Sort(es[..i]), es[i].key) <==> !Distinct(KeysOf(es[..i + 1]))
    ensures HasKey(Sort(es[..i]), es[i].key) ==> !Distinct(KeysOf(es))
  {
    assert es[..i + 1][..i] == es[..i];
    var s := Sort(es[..i]);
    SortDistinct(es[..i]);
    hide Sort, Insert, Distinct, Ascending, RenderEntries, CountEntries;
    if HasKey(s, es[i].key) {
      SortHits(es, i, s);
    } else {
      SortMisses(es, i, s);
    }
  }

  lemma SortHits(es: seq<Entry>, i: nat, s: seq<Entry>)
    requires i < |es| && multiset(s) == multiset(es[..i]) && HasKey(s, es[i].key)
    ensures !Distinct(KeysOf(es[..i + 1])) && !Distinct(KeysOf(es))
  {
    var k :| 0 <= k < |s| && s[k].key == es[i].key;
    var j := Member(s, es[..i], k);
    assert KeysOf(es)[j] == KeysOf(es)[i];
    assert KeysOf(es[..i + 1])[j] == KeysOf(es[..i + 1])[i];
  }

  lemma SortMisses(es: seq<Entry>, i: nat, s: seq<Entry>)
    requires i < |es| && Distinct(KeysOf(es[..i]))
    requires multiset(s) == multiset(es[..i]) && !HasKey(s, es[i].key)
    ensures Distinct(KeysOf(es[..i + 1]))
  {
    forall j | 0 <= j < i
      ensures es[j].key != es[i].key
    {
      var k := Member(es[..i], s, j);
    }
    assert KeysOf(es[..i + 1]) == KeysOf(es[..i]) + [es[i].key];
  }

  lemma {:induction false} CanonSort(es: seq<Entry>)
    ensures CanonEntries(Sort(es)) == Sort(CanonEntries(es))
  {
    if es == [] {
    } else {
      var n := |es| - 1;
      CanonSort(es[..n]);
      CanonInsert(Sort(es[..n]), es[n]);
      assert CanonEntries(es)[..n] == CanonEntries(es[..n]);
    }
  }

  lemma {:induction false} CanonInsert(s: seq<Entry>, e: Entry)
    ensures CanonEntries(Insert(s, e)) == Insert(CanonEntries(s), Entry(e.key, Canon(e.value)))
  {
    if s == [] {
    } else {
      assert CanonEntries(s)[1..] == CanonEntries(s[1..]);
      if !Less(e.key, s[0].key) && e.key != s[0].key {
        CanonInsert(s[1..], e);
      }
    }
  }

  // ----- round trips -----

  /** Strict decoding of what the printer writes gives back the value with sorted dictionaries. */
  lemma EncodeThenDecode(v: Value)
    requires Representable(v) && DistinctKeys(v) && Depth(v) <= 256
    ensures var text := Render(Canon(v));
            Decode(Strict, text) == Parsed(Canon(v), |text|, Count(v))
  {
    CanonKeeps(v);
    AdmittedStrict(Canon(v));
    StrictIsParse(Render(Canon(v)));
    hide *;
    ParseComplete(Strict, Render(Canon(v)), 0, 0, 0, Canon(v));
  }

  lemma AdmittedStrict(v: Value)
    requires Representable(v) && DistinctKeys(v) && Depth(v) <= 256
    ensures Admits(Strict, v, 0, 0) && At(Render(v), 0, Render(v))
  {
    hide Representable, DistinctKeys, Depth, Count, Render;
  }

  lemma StrictIsParse(input: Bytes)
    ensures Decode(Strict, input) == ParseValue(Strict, input, 0, 0, 0)
  {
    hide ParseValue;
  }

  /** Printing what was decoded reproduces the consumed bytes exactly when they were sorted. */
  lemma DecodeThenEncode(input: Bytes)
    requires Decode(Strict, input).Parsed?
    ensures var o := Decode(Strict, input);
            && DistinctKeys(o.value)
            && |Render(Canon(o.value))| == o.next
            && (Render(Canon(o.value)) == input[..o.next] <==> Sorted(o.value))
  {
    var o := Decode(Strict, input);
    DecodeExactly(Strict, input, o.value);
    CanonKeeps(o.value);
    CanonSorted(o.value);
    if Render(Canon(o.value)) == input[..o.next] {
      Unambiguous(input, o.value, Canon(o.value));
    }
  }
}
