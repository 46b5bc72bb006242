/**
 The recursive-descent parser: a function that says what each call answers, the class that
 computes it, and the proof that it accepts exactly the renderings of the values it may hold.
 */
module BencodeParser {
  import opened Common
  import opened BencodeText

  datatype Error =
    | UnexpectedEof(pos: nat)
    | UnexpectedByte(byte: Byte, pos: nat)
    | BadInteger(pos: nat)
    | BadLength(pos: nat)
    | StringTooLong(pos: nat, len: nat)
    | BadDictOrder(pos: nat)
    | NonStringDictKey(pos: nat)
    | TrailingBytes
    | InputLimit(len: nat, max: nat)
    | DepthLimit(pos: nat, max: nat)
    | ValueLimit(max: nat)

  const MAX_STRICT_DEPTH: nat := 256

  datatype Limits = Limits(maxInputLen: nat, maxDepth: nat, maxValues: nat)

  /** Strict decoding refuses duplicate keys; external decoding enforces the caller's limits. */
  datatype Mode = Strict | External(limits: Limits)

  function MaxDepth(m: Mode): nat { if m.Strict? then MAX_STRICT_DEPTH else m.limits.maxDepth }

  datatype Outcome = Parsed(value: Value, next: nat, values: nat) | Failed(error: Error)

  // ----- what every call answers -----

  function NoteValue(m: Mode, pos: nat, depth: nat, values: nat): Option<Error> {
    if depth > MaxDepth(m) then Some(DepthLimit(pos, MaxDepth(m)))
    else if m.External? && values >= m.limits.maxValues then Some(ValueLimit(m.limits.maxValues))
    else None
  }

  function ParseValue(m: Mode, buf: Bytes, pos: nat, depth: nat, values: nat): (o: Outcome)
    requires pos <= |buf|
    ensures o.Parsed? ==> pos < o.next <= |buf|
    decreases |buf| - pos, 0
  {
    var refused := NoteValue(m, pos, depth, values);
    if refused.Some? then Failed(refused.value)
    else if pos == |buf| then Failed(UnexpectedEof(pos))
    else
      var b := buf[pos];
      if b == LOWER_I then ParseInt(buf, pos, values + 1)
      else if b == LOWER_L then ParseList(m, buf, pos + 1, depth, values + 1, [])
      else if b == LOWER_D then ParseDict(m, buf, pos + 1, depth, values + 1, [], None)
      else if IsDigit(b) then ParseStr(buf, pos, values + 1)
      else Failed(UnexpectedByte(b, pos))
  }

  function ParseInt(buf: Bytes, pos: nat, values: nat): (o: Outcome)
    requires pos < |buf|
    ensures o.Parsed? ==> pos < o.next <= |buf|
  {
    var end := IndexOf(buf, LOWER_E, pos + 1);
    if end == |buf| then Failed(UnexpectedEof(end))
    else
      var n := AcceptInt(buf[pos + 1..end]);
      if n.None? then Failed(BadInteger(pos + 1)) else Parsed(Int(n.value), end + 1, values)
  }

  function ParseStr(buf: Bytes, pos: nat, values: nat): (o: Outcome)
    requires pos < |buf|
    ensures o.Parsed? ==> pos < o.next <= |buf|
  {
    var colon := IndexOf(buf, COLON, pos);
    if colon == |buf| then Failed(UnexpectedEof(colon))
    else
      var len := AcceptLength(buf[pos..colon]);
      if len.None? then Failed(BadLength(pos))
      else if len.value > ISIZE_MAX then Failed(StringTooLong(pos, len.value))
      else if colon + 1 + len.value > |buf| then Failed(UnexpectedEof(|buf|))
      else Parsed(Str(buf[colon + 1..colon + 1 + len.value]), colon + 1 + len.value, values)
  }

  function ParseList(m: Mode, buf: Bytes, pos: nat, depth: nat, values: nat, acc: seq<Value>): (o: Outcome)
    requires pos <= |buf|
    ensures o.Parsed? ==> pos < o.next <= |buf|
    decreases |buf| - pos, 1
  {
    if pos == |buf| then Failed(UnexpectedEof(pos))
    else if buf[pos] == LOWER_E then Parsed(List(acc), pos + 1, values)
    else
      match ParseValue(m, buf, pos, depth + 1, values)
      case Failed(e) => Failed(e)
      case Parsed(v, next, values') => ParseList(m, buf, next, depth, values', acc + [v])
  }

  /** Whether a key repeats: against the last key while keys ascend, against a set afterwards. */
  predicate Refuses(m: Mode, acc: seq<Entry>, seen: Option<set<Bytes>>, key: Bytes) {
    m.Strict?
    && if seen.Some? then key in seen.value
       else acc != [] && !Less(acc[|acc| - 1].key, key) && key in KeysOf(acc)
  }

  function NextSeen(m: Mode, acc: seq<Entry>, seen: Option<set<Bytes>>, key: Bytes): Option<set<Bytes>> {
    if m.External? then None
    else if seen.Some? then Some(seen.value + {key})
    else if acc != [] && !Less(acc[|acc| - 1].key, key) then
      Some((set k | k in KeysOf(acc)) + {key})
    else None
  }

  function ParseDict(m: Mode, buf: Bytes, pos: nat, depth: nat, values: nat,
                     acc: seq<Entry>, seen: Option<set<Bytes>>): (o: Outcome)
    requires pos <= |buf|
    ensures o.Parsed? ==> pos < o.next <= |buf|
    decreases |buf| - pos, 1
  {
    if pos == |buf| then Failed(UnexpectedEof(pos))
    else if buf[pos] == LOWER_E then Parsed(Dict(acc), pos + 1, values)
    else
      match ParseValue(m, buf, pos, depth + 1, values)
      case Failed(e) => Failed(e)
      case Parsed(k, next, values') =>
        if !k.Str? then Failed(NonStringDictKey(pos))
        else if Refuses(m, acc, seen, k.bytes) then Failed(BadDictOrder(pos))
        else
          match ParseValue(m, buf, next, depth + 1, values')
          case Failed(e) => Failed(e)
          case Parsed(v, next', values'') =>
            ParseDict(m, buf, next', depth, values'',
                      acc + [Entry(k.bytes, v)], NextSeen(m, acc, seen, k.bytes))
  }

  /** One turn of the dictionary loop. */
  lemma DictTurn(m: Mode, buf: Bytes, pos: nat, depth: nat, values: nat, acc: seq<Entry>,
                 seen: Option<set<Bytes>>, k: Outcome, v: Outcome)
    requires pos < |buf| && buf[pos] != LOWER_E
    requires k == ParseValue(m, buf, pos, depth + 1, values) && k.Parsed? && k.value.Str?
    requires !Refuses(m, acc, seen, k.value.bytes)
    requires v == ParseValue(m, buf, k.next, depth + 1, k.values) && v.Parsed?
    ensures ParseDict(m, buf, pos, depth, values, acc, seen)
         == ParseDict(m, buf, v.next, depth, v.values, acc + [Entry(k.value.bytes, v.value)],
                      NextSeen(m, acc, seen, k.value.bytes))
  {
  }

  /** Where a turn of the dictionary loop stops instead. */
  lemma DictStops(m: Mode, buf: Bytes, pos: nat, depth: nat, values: nat, acc: seq<Entry>, seen: Option<set<Bytes>>)
    requires pos < |buf| && buf[pos] != LOWER_E
    ensures var r := ParseDict(m, buf, pos, depth, values, acc, seen);
            var k := ParseValue(m, buf, pos, depth + 1, values);
            && (k.Failed? ==> r == k)
            && (k.Parsed? && !k.value.Str? ==> r == Failed(NonStringDictKey(pos)))
            && (k.Parsed? && k.value.Str? && Refuses(m, acc, seen, k.value.bytes) ==> r == Failed(BadDictOrder(pos)))
            && (k.Parsed? && k.value.Str? && !Refuses(m, acc, seen, k.value.bytes)
                && ParseValue(m, buf, k.next, depth + 1, k.values).Failed?
                ==> r == ParseValue(m, buf, k.next, depth + 1, k.values))
  {
  }

  lemma DictEnds(m: Mode, buf: Bytes, pos: nat, depth: nat, values: nat, acc: seq<Entry>, seen: Option<set<Bytes>>)
    requires pos <= |buf| && (pos < |buf| ==> buf[pos] == LOWER_E)
    ensures ParseDict(m, buf, pos, depth, values, acc, seen)
         == if pos < |buf| then Parsed(Dict(acc), pos + 1, values) else Failed(UnexpectedEof(pos))
  {
  }

  lemma ExternalNotes(m: Mode, acc: seq<Entry>, key: Bytes)
    requires m.External?
    ensures !Refuses(m, acc, None, key) && NextSeen(m, acc, None, key) == None
  {
  }

  function Decode(m: Mode, input: Bytes): (o: Outcome)
    ensures o.Parsed? ==> 0 < o.next <= |input|
  {
    if m.External? && |input| > m.limits.maxInputLen
    then Failed(InputLimit(|input|, m.limits.maxInputLen))
    else ParseValue(m, input, 0, 0, 0)
  }

  /** The whitespace of ASCII: tab, line feed, form feed, carriage return and space. */
  predicate Blank(b: Byte) { b == 32 || b == 9 || b == 10 || b == 12 || b == 13 }

  /** What may follow a value that has to be the whole input. */
  predicate MayFollow(m: Mode, rest: Bytes) {
    if m.Strict? then rest == [] else forall i | 0 <= i < |rest| :: Blank(rest[i])
  }

  function DecodeAll(m: Mode, input: Bytes): Outcome {
    var o := Decode(m, input);
    if o.Parsed? && !MayFollow(m, input[o.next..]) then Failed(TrailingBytes) else o
  }

  // ----- the parser itself -----

  class Parser {
    const buf: Bytes
    const mode: Mode
    var pos: nat
    var values: nat

    predicate Valid()
      reads this
    {
      pos <= |buf|
    }

    constructor (buf: Bytes, mode: Mode)
      ensures Valid() && this.buf == buf && this.mode == mode && pos == 0 && values == 0
    {
      this.buf, this.mode, pos, values := buf, mode, 0, 0;
    }

    method Note(depth: nat) returns (refused: Option<Error>)
      requires Valid()
      modifies `values
      ensures refused == NoteValue(mode, pos, depth, old(values))
      ensures values == old(values) + if refused.None? then 1 else 0
    {
      refused := NoteValue(mode, pos, depth, values);
      if refused.None? {
        values := values + 1;
      }
    }

    /** Advances to the first `b`; false when the input ends first. */
    method Seek(b: Byte) returns (found: bool)
      requires Valid()
      modifies `pos
      ensures Valid() && pos == IndexOf(buf, b, old(pos)) && found == (pos < |buf|)
    {
      while pos < |buf| && buf[pos] != b
        invariant pos <= |buf|
        invariant IndexOf(buf, b, old(pos)) == IndexOf(buf, b, pos)
      {
        pos := pos + 1;
      }
      found := pos < |buf|;
    }

    method Value(depth: nat) returns (r: Outcome)
      requires Valid()
      modifies this
      ensures Valid()
      ensures r == ParseValue(mode, buf, old(pos), depth, old(values))
      ensures r.Parsed? ==> pos == r.next && values == r.values
      decreases |buf| - pos, 1
    {
      var refused := Note(depth);
      if refused.Some? {
        return Failed(refused.value);
      }
      if pos == |buf| {
        return Failed(UnexpectedEof(pos));
      }
      var b := buf[pos];
      if b == LOWER_I {
        r := Integer();
      } else if b == LOWER_L {
        r := Items(depth);
      } else if b == LOWER_D {
        r := Entries(depth);
      } else if IsDigit(b) {
        r := String();
      } else {
        r := Failed(UnexpectedByte(b, pos));
      }
    }

    method Integer() returns (r: Outcome)
      requires Valid() && pos < |buf|
      modifies `pos
      ensures Valid()
      ensures r == ParseInt(buf, old(pos), values)
      ensures r.Parsed? ==> pos == r.next
    {
      pos := pos + 1;
      var start := pos;
      var found := Seek(LOWER_E);
      if !found {
        return Failed(UnexpectedEof(pos));
      }
      var n := AcceptInt(buf[start..pos]);
      pos := pos + 1;
      r := if n.None? then Failed(BadInteger(start)) else Parsed(Int(n.value), pos, values);
    }

    method String() returns (r: Outcome)
      requires Valid() && pos < |buf|
      modifies `pos
      ensures Valid()
      ensures r == ParseStr(buf, old(pos), values)
      ensures r.Parsed? ==> pos == r.next
    {
      var start := pos;
      var found := Seek(COLON);
      if !found {
        return Failed(UnexpectedEof(pos));
      }
      var len := AcceptLength(buf[start..pos]);
      pos := pos + 1;
      if len.None? {
        return Failed(BadLength(start));
      }
      if len.value > ISIZE_MAX {
        return Failed(StringTooLong(start, len.value));
      }
      var end := pos + len.value;
      if end > |buf| {
        return Failed(UnexpectedEof(|buf|));
      }
      r := Parsed(Str(buf[pos..end]), end, values);
      pos := end;
    }

    method Items(depth: nat) returns (r: Outcome)
      requires Valid() && pos < |buf|
      modifies this
      ensures Valid()
      ensures r == ParseList(mode, buf, old(pos) + 1, depth, old(values), [])
      ensures r.Parsed? ==> pos == r.next && values == r.values
      decreases |buf| - pos, 0
    {
      pos := pos + 1;
      var items: seq<Value> := [];
      while pos < |buf| && buf[pos] != LOWER_E
        invariant old(pos) < pos <= |buf|
        invariant ParseList(mode, buf, old(pos) + 1, depth, old(values), [])
               == ParseList(mode, buf, pos, depth, values, items)
        decreases |buf| - pos
      {
        var item := Value(depth + 1);
        if item.Failed? {
          return item;
        }
        items := items + [item.value];
      }
      if pos == |buf| {
        return Failed(UnexpectedEof(pos));
      }
      pos := pos + 1;
      r := Parsed(List(items), pos, values);
    }

    /** A key is first compared with the last one; the set of all keys is built when that is not enough. */
    method CheckKey(entries: seq<Entry>, seen: Option<set<Bytes>>, key: Bytes)
      returns (repeated: bool, noted: Option<set<Bytes>>)
      requires mode.Strict?
      ensures repeated <==> Refuses(mode, entries, seen, key)
      ensures !repeated ==> noted == NextSeen(mode, entries, seen, key)
    {
      if seen.Some? {
        return key in seen.value, Some(seen.value + {key});
      }
      if entries == [] || Less(entries[|entries| - 1].key, key) {
        return false, None;
      }
      var known := set k | k in KeysOf(entries);
      return key in known, Some(known + {key});
    }

    method Entries(depth: nat) returns (r: Outcome)
      requires Valid() && pos < |buf|
      modifies this
      ensures Valid()
      ensures r == ParseDict(mode, buf, old(pos) + 1, depth, old(values), [], None)
      ensures r.Parsed? ==> pos == r.next && values == r.values
      decreases |buf| - pos, 0
    {
      pos := pos + 1;
      var entries: seq<Entry> := [];
      var seen: Option<set<Bytes>> := None;
      while pos < |buf| && buf[pos] != LOWER_E
        invariant old(pos) < pos <= |buf|
        invariant ParseDict(mode, buf, old(pos) + 1, depth, old(values), [], None)
               == ParseDict(mode, buf, pos, depth, values, entries, seen)
        invariant mode.External? ==> seen.None?
        decreases |buf| - pos
      {
        hide *;
        var keyPos := pos;
        ghost var before := values;
        DictStops(mode, buf, pos, depth, values, entries, seen);
        var k := Value(depth + 1);
        if k.Failed? {
          return k;
        }
        if !k.value.Str? {
          return Failed(NonStringDictKey(keyPos));
        }
        var key := k.value.bytes;
        ghost var was := seen;
        if mode.Strict? {
          var repeated, noted := CheckKey(entries, seen, key);
          if repeated {
            return Failed(BadDictOrder(keyPos));
          }
          seen := noted;
        } else {
          ExternalNotes(mode, entries, key);
        }
        var v := Value(depth + 1);
        if v.Failed? {
          return v;
        }
        DictTurn(mode, buf, keyPos, depth, before, entries, was, k, v);
        entries := entries + [Entry(key, v.value)];
      }
      DictEnds(mode, buf, pos, depth, values, entries, seen);
      if pos == |buf| {
        return Failed(UnexpectedEof(pos));
      }
      pos := pos + 1;
      r := Parsed(Dict(entries), pos, values);
    }
  }
}
