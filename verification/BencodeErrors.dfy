/** What a decoding error says is so. */
module BencodeErrors {
  import opened Common
  import opened BencodeText
  import opened BencodeParser

  /** What each error asserts of the input: that it ends there, that this byte stands there and starts no
      value, that what stands there is no integer, no length, too long a length, no key or a key. */
  predicate Explains(m: Mode, buf: Bytes, e: Error) {
    match e
    case UnexpectedEof(p) => p == |buf|
    case UnexpectedByte(b, p) => p < |buf| && buf[p] == b && b as char !in "ild0123456789"
    case BadInteger(p) =>
      && 0 < p <= |buf| && buf[p - 1] as char == 'i'
      && AcceptInt(UpTo(buf, p, 'e')).None? && p + |UpTo(buf, p, 'e')| < |buf|
    case BadLength(p) => Digit(buf, p) && AcceptLength(UpTo(buf, p, ':')).None? && p + |UpTo(buf, p, ':')| < |buf|
    case StringTooLong(p, len) =>
      Digit(buf, p) && AcceptLength(UpTo(buf, p, ':')) == Some(len) && len > 0x7FFF_FFFF_FFFF_FFFF
    case BadDictOrder(p) => m.Strict? && Digit(buf, p)
    case NonStringDictKey(p) => p < |buf| && buf[p] as char in "ild"
    case TrailingBytes => true
    case InputLimit(len, max) => m.External? && len == |buf| > max == m.limits.maxInputLen
    case DepthLimit(p, max) => p <= |buf| && max == if m.Strict? then 256 else m.limits.maxDepth
    case ValueLimit(max) => m.External? && max == m.limits.maxValues
  }

  predicate Digit(buf: Bytes, p: nat) { p < |buf| && buf[p] as char in "0123456789" }

  /** The text from `from` to the next such character, or to the end. */
  function UpTo(buf: Bytes, from: nat, c: char): Bytes
    requires from <= |buf| && c < 256 as char
  {
    buf[from..IndexOf(buf, c as int, from)]
  }

  lemma Letters()
    ensures LOWER_I == 'i' as int && LOWER_L == 'l' as int && LOWER_D == 'd' as int && LOWER_E == 'e' as int
    ensures COLON == ':' as int && MINUS == '-' as int && PLUS == '+' as int && ASCII_ZERO == '0' as int
  {
  }

  lemma Starts(b: Byte)
    ensures IsDigit(b) <==> b as char in "0123456789"
    ensures b as char in "ild" <==> b == LOWER_I || b == LOWER_L || b == LOWER_D
    ensures b as char in "ild0123456789" <==> b as char in "ild" || b as char in "0123456789"
  {
    assert "ild0123456789" == "ild" + "0123456789";
  }

  lemma IntExplains(m: Mode, buf: Bytes, pos: nat, values: nat)
    requires pos < |buf| && buf[pos] == LOWER_I
    ensures var o := ParseInt(buf, pos, values);
            if o.Failed? then Explains(m, buf, o.error) else o.value.Int?
  {
    Letters();
    hide IndexOf, AcceptInt;
  }

  lemma StrExplains(m: Mode, buf: Bytes, pos: nat, values: nat)
    requires pos < |buf| && IsDigit(buf[pos])
    ensures var o := ParseStr(buf, pos, values);
            if o.Failed? then Explains(m, buf, o.error) else o.value.Str?
  {
    Letters();
    Starts(buf[pos]);
    hide IndexOf, AcceptLength;
  }

  lemma {:induction false} ValueExplains(m: Mode, buf: Bytes, pos: nat, depth: nat, values: nat)
    requires pos <= |buf|
    ensures var o := ParseValue(m, buf, pos, depth, values);
            && (o.Failed? ==> Explains(m, buf, o.error))
            && (o.Parsed? ==> if o.value.Str? then Digit(buf, pos) else pos < |buf| && buf[pos] as char in "ild")
    decreases |buf| - pos, 0
  {
    if NoteValue(m, pos, depth, values).None? && pos < |buf| {
      Starts(buf[pos]);
      hide ParseList, ParseDict, ParseInt, ParseStr;
      if buf[pos] == LOWER_I {
        IntExplains(m, buf, pos, values + 1);
      } else if buf[pos] == LOWER_L {
        ListExplains(m, buf, pos + 1, depth, values + 1, []);
      } else if buf[pos] == LOWER_D {
        DictExplains(m, buf, pos + 1, depth, values + 1, [], None);
      } else if IsDigit(buf[pos]) {
        StrExplains(m, buf, pos, values + 1);
      }
    }
  }

  lemma {:induction false} ListExplains(m: Mode, buf: Bytes, pos: nat, depth: nat, values: nat, acc: seq<Value>)
    requires pos <= |buf|
    ensures var o := ParseList(m, buf, pos, depth, values, acc);
            if o.Failed? then Explains(m, buf, o.error) else o.value.List?
    decreases |buf| - pos, 1
  {
    hide ParseValue, Explains;
    if pos < |buf| && buf[pos] != LOWER_E {
      ValueExplains(m, buf, pos, depth + 1, values);
      var v := ParseValue(m, buf, pos, depth + 1, values);
      if v.Parsed? {
        ListExplains(m, buf, v.next, depth, v.values, acc + [v.value]);
      }
    } else {
      EndExplains(m, buf);
    }
  }

  lemma EndExplains(m: Mode, buf: Bytes)
    ensures Explains(m, buf, UnexpectedEof(|buf|))
  {
  }

  lemma KeyExplains(m: Mode, buf: Bytes, pos: nat)
    ensures pos < |buf| && buf[pos] as char in "ild" ==> Explains(m, buf, NonStringDictKey(pos))
    ensures m.Strict? && Digit(buf, pos) ==> Explains(m, buf, BadDictOrder(pos))
  {
  }

  lemma {:induction false} DictExplains(m: Mode, buf: Bytes, pos: nat, depth: nat, values: nat, acc: seq<Entry>,
                                        seen: Option<set<Bytes>>)
    requires pos <= |buf|
    ensures var o := ParseDict(m, buf, pos, depth, values, acc, seen);
            if o.Failed? then Explains(m, buf, o.error) else o.value.Dict?
    decreases |buf| - pos, 1
  {
    hide ParseValue, Explains, NextSeen;
    if pos < |buf| && buf[pos] != LOWER_E {
      ValueExplains(m, buf, pos, depth + 1, values);
      KeyExplains(m, buf, pos);
      var k := ParseValue(m, buf, pos, depth + 1, values);
      if k.Parsed? && k.value.Str? && !Refuses(m, acc, seen, k.value.bytes) {
        ValueExplains(m, buf, k.next, depth + 1, k.values);
        var v := ParseValue(m, buf, k.next, depth + 1, k.values);
        if v.Parsed? {
          DictExplains(m, buf, v.next, depth, v.values, acc + [Entry(k.value.bytes, v.value)],
                       NextSeen(m, acc, seen, k.value.bytes));
        }
      }
    } else {
      EndExplains(m, buf);
    }
  }

  /** Whatever is refused is refused for a reason that holds of the input at the place named. */
  lemma DecodeExplains(m: Mode, input: Bytes)
    ensures Decode(m, input).Failed? ==> Explains(m, input, Decode(m, input).error)
    ensures DecodeAll(m, input).Failed? ==> Explains(m, input, DecodeAll(m, input).error)
  {
    ValueExplains(m, input, 0, 0, 0);
    hide ParseValue;
  }
}
