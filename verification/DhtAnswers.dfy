/**
 Which reply a DHT query gets, and what the asker reads out of it. A message without a usable transaction
 id gets none; a malformed or unknown query is refused; and whatever is granted decodes at the asker to
 the fields of the answer, however much of them had to be trimmed.
 */
module DhtAnswers {
  import opened Common
  import opened BencodeText
  import opened BencodeParser
  import opened BencodeEncoder
  import opened DhtReply
  import opened DhtQuery

  const MAX_RESPONSE_PEERS: nat := 100

  const KEY_Q: Bytes := [113]
  const KEY_A: Bytes := [97]
  const KEY_TARGET: Bytes := [116, 97, 114, 103, 101, 116]
  const KEY_INFO_HASH: Bytes := [105, 110, 102, 111, 95, 104, 97, 115, 104]
  const KEY_WANT: Bytes := [119, 97, 110, 116]
  const KEY_PORT: Bytes := [112, 111, 114, 116]
  const KEY_IMPLIED: Bytes := [105, 109, 112, 108, 105, 101, 100, 95, 112, 111, 114, 116]
  const WANT_N4: Bytes := [110, 52]
  const WANT_N6: Bytes := [110, 54]
  const PING: Bytes := [112, 105, 110, 103]
  const FIND_NODE: Bytes := [102, 105, 110, 100, 95, 110, 111, 100, 101]
  const GET_PEERS: Bytes := [103, 101, 116, 95, 112, 101, 101, 114, 115]
  const ANNOUNCE_PEER: Bytes := [97, 110, 110, 111, 117, 110, 99, 101, 95, 112, 101, 101, 114]

  datatype Contact = Contact(id: Bytes, v6: bool, addr: Bytes)

  /** The asker: `compact` is its canonical address and port as they are echoed. */
  datatype Asker = Asker(v6: bool, port: nat, compact: Bytes)

  /** What the node's state says when it is asked: the peers are those of the asker's family, and each
      routing table holds contacts of its own family. */
  datatype Server = Server(
    id: Bytes,
    version: Bytes,
    token: Bytes,
    accepts: Bytes -> bool,
    peers: Bytes -> seq<Bytes>,
    closest4: Bytes -> seq<Contact>,
    closest6: Bytes -> seq<Contact>)

  datatype Problem =
    | MissingQuery | MissingArguments | InvalidId | InvalidTarget | InvalidInfoHash
    | MissingToken | InvalidToken | InvalidPort | UnknownMethod

  datatype Answer = Refused(problem: Problem) | Granted(fields: Fields)

  predicate ContactOk(c: Contact) { |c.id| == 20 && |c.addr| == if c.v6 then 18 else 6 }

  predicate OneFamily(cs: seq<Contact>, v6: bool) { forall i | 0 <= i < |cs| :: ContactOk(cs[i]) && cs[i].v6 == v6 }

  predicate ContactsOk(cs: seq<Contact>, v6: bool) { |cs| <= 8 && OneFamily(cs, v6) }

  predicate PeersOk(ps: seq<Bytes>) { forall i | 0 <= i < |ps| :: |ps[i]| == 6 || |ps[i]| == 18 }

  ghost predicate ServerOk(s: Server) {
    && |s.id| == 20 && |s.version| == 4 && |s.token| == 8
    && (forall h :: PeersOk(s.peers(h)))
    && (forall h :: ContactsOk(s.closest4(h), false))
    && (forall h :: ContactsOk(s.closest6(h), true))
  }

  predicate AskerOk(a: Asker) { a.port < 65536 && (|a.compact| == 6 || |a.compact| == 18) }

  // ----- reading a query -----

  function GetStr(v: Value, key: Bytes): Option<Bytes> {
    match Get(v, key)
    case Some(Str(b)) => Some(b)
    case _ => None
  }

  function GetInt(v: Value, key: Bytes): Option<int> {
    match Get(v, key)
    case Some(Int(n)) => Some(n)
    case _ => None
  }

  /** A 20-byte string field. */
  function GetId(v: Value, key: Bytes): Option<Bytes> {
    match GetStr(v, key)
    case Some(b) => if |b| == 20 then Some(b) else None
    case None => None
  }

  function TransactionId(msg: Value): Option<Bytes> {
    match GetStr(msg, KEY_T)
    case Some(t) => if 1 <= |t| <= 32 then Some(t) else None
    case None => None
  }

  /** Which node families are asked for; without a `want` list, the asker's own. */
  function Wants(args: Value, from: Asker): (bool, bool) {
    match Get(args, KEY_WANT)
    case Some(List(items)) => (Str(WANT_N4) in items, Str(WANT_N6) in items)
    case _ => (!from.v6, from.v6)
  }

  function CompactNodes(cs: seq<Contact>, v6: bool): Bytes {
    if cs == [] then []
    else
      var c := cs[|cs| - 1];
      CompactNodes(cs[..|cs| - 1], v6) + if c.v6 == v6 then c.id + c.addr else []
  }

  function Closest(s: Server, target: Bytes, want4: bool, want6: bool): seq<Contact> {
    (if want4 then s.closest4(target) else []) + if want6 then s.closest6(target) else []
  }

  function NodeFields(s: Server, f: Fields, target: Bytes, want: (bool, bool)): Fields {
    var cs := Closest(s, target, want.0, want.1);
    f.(nodes := if want.0 then Some(CompactNodes(cs, false)) else None,
       nodes6 := if want.1 then Some(CompactNodes(cs, true)) else None)
  }

  function Values(peers: seq<Bytes>): (vs: seq<Value>)
    ensures |vs| == Min(|peers|, 100)
    ensures forall i | 0 <= i < |vs| :: vs[i] == Str(peers[i])
  {
    seq(Min(|peers|, MAX_RESPONSE_PEERS), i requires 0 <= i < Min(|peers|, MAX_RESPONSE_PEERS) => Str(peers[i]))
  }

  /** The port a peer announces: its own if implied, else the one given if it is a port at all. */
  function AnnouncedPort(args: Value, from: Asker): nat {
    if GetInt(args, KEY_IMPLIED).Some? && GetInt(args, KEY_IMPLIED).value != 0 then from.port
    else
      match GetInt(args, KEY_PORT)
      case Some(p) => if 0 <= p < 65536 then p else 0
      case None => 0
  }

  function AnswerTo(query: Bytes, args: Value, from: Asker, s: Server): Answer {
    var plain := Fields(s.id, None, [], None, None);
    if query == PING then Granted(plain)
    else if query == FIND_NODE then
      match GetId(args, KEY_TARGET)
      case None => Refused(InvalidTarget)
      case Some(target) => Granted(NodeFields(s, plain, target, Wants(args, from)))
    else if query == GET_PEERS then
      match GetId(args, KEY_INFO_HASH)
      case None => Refused(InvalidInfoHash)
      case Some(hash) =>
        Granted(NodeFields(s, plain.(token := Some(s.token), values := Values(s.peers(hash))), hash, Wants(args, from)))
    else if query == ANNOUNCE_PEER then
      if GetId(args, KEY_INFO_HASH).None? then Refused(InvalidInfoHash)
      else if GetStr(args, KEY_TOKEN).None? then Refused(MissingToken)
      else if !s.accepts(GetStr(args, KEY_TOKEN).value) then Refused(InvalidToken)
      else if AnnouncedPort(args, from) == 0 then Refused(InvalidPort)
      else Granted(plain)
    else Refused(UnknownMethod)
  }

  function Answered(msg: Value, from: Asker, s: Server): Answer {
    match GetStr(msg, KEY_Q)
    case None => Refused(MissingQuery)
    case Some(query) =>
      match Get(msg, KEY_A)
      case Some(Dict(es)) =>
        if GetId(Dict(es), KEY_ID).None? then Refused(InvalidId) else AnswerTo(query, Dict(es), from, s)
      case _ => Refused(MissingArguments)
  }

  // ----- refusals -----

  function Code(p: Problem): int { if p == UnknownMethod then 204 else 203 }

  /** The message texts, none longer than 17 characters. */
  function Message(p: Problem): (b: Bytes)
    ensures |b| <= 17
  {
    match p
    case MissingQuery => [109, 105, 115, 115, 105, 110, 103, 32, 113, 117, 101, 114, 121]
    case MissingArguments => [109, 105, 115, 115, 105, 110, 103, 32, 97, 114, 103, 117, 109, 101, 110, 116, 115]
    case InvalidId => [105, 110, 118, 97, 108, 105, 100, 32, 105, 100]
    case InvalidTarget => [105, 110, 118, 97, 108, 105, 100, 32, 116, 97, 114, 103, 101, 116]
    case InvalidInfoHash => [105, 110, 118, 97, 108, 105, 100, 32, 105, 110, 102, 111, 95, 104, 97, 115, 104]
    case MissingToken => [109, 105, 115, 115, 105, 110, 103, 32, 116, 111, 107, 101, 110]
    case InvalidToken => [105, 110, 118, 97, 108, 105, 100, 32, 116, 111, 107, 101, 110]
    case InvalidPort => [105, 110, 118, 97, 108, 105, 100, 32, 112, 111, 114, 116]
    case UnknownMethod => [109, 101, 116, 104, 111, 100, 32, 117, 110, 107, 110, 111, 119, 110]
  }

  /** Refusals made before the asker's id is known do not echo its address. */
  function ErrorReply(tid: Bytes, p: Problem, version: Bytes, from: Asker): seq<Entry> {
    [Entry(KEY_E, List([Int(Code(p)), Str(Message(p))])),
     Entry(KEY_T, Str(tid)), Entry(KEY_V, Str(version)), Entry(KEY_Y, Str(KEY_E))]
    + if p == MissingQuery || p == MissingArguments || p == InvalidId then [] else [Entry(KEY_IP, Str(from.compact))]
  }

  lemma ErrorShort(tid: Bytes, p: Problem, version: Bytes, from: Asker)
    requires |tid| <= 32 && |version| == 4 && AskerOk(from)
    ensures DistinctKeys(Dict(ErrorReply(tid, p, version, from)))
    ensures |Text(ErrorReply(tid, p, version, from))| <= 150
  {
    var es := ErrorReply(tid, p, version, from);
    ErrorDistinct(es, tid, p, version, from);
    CanonKeeps(Dict(es));
    ErrorBody(p);
    DictLength(es);
    var e := Entry(KEY_E, List([Int(Code(p)), Str(Message(p))]));
    var rest := [Entry(KEY_T, Str(tid)), Entry(KEY_V, Str(version)), Entry(KEY_Y, Str(KEY_E))];
    assert es == [e] + (rest + es[4..]);
    assert es[4..] == [] || es[4..] == [Entry(KEY_IP, Str(from.compact))];
    OneStr(KEY_IP, from.compact);
    ErrorRest(tid, version);
    hide Canon, DistinctKeys, Message, Render, RenderEntries, Code, ErrorReply;
    EntriesAppend([e], rest + es[4..]);
    EntriesAppend(rest, es[4..]);
    assert RenderEntries([]) == [];
  }

  lemma ErrorRest(tid: Bytes, version: Bytes)
    requires |tid| <= 32 && |version| == 4
    ensures |RenderEntries([Entry(KEY_T, Str(tid)), Entry(KEY_V, Str(version)), Entry(KEY_Y, Str(KEY_E))])| <= 60
  {
    var a, b, c := Entry(KEY_T, Str(tid)), Entry(KEY_V, Str(version)), Entry(KEY_Y, Str(KEY_E));
    OneStr(KEY_T, tid);
    OneStr(KEY_V, version);
    OneStr(KEY_Y, KEY_E);
    hide Render, RenderEntries;
    assert [a, b, c] == [a] + ([b] + [c]);
    EntriesAppend([a], [b] + [c]);
    EntriesAppend([b], [c]);
  }

  lemma ErrorBody(p: Problem)
    ensures |RenderEntries([Entry(KEY_E, List([Int(Code(p)), Str(Message(p))]))])| <= 35
  {
    var items := [Int(Code(p)), Str(Message(p))];
    var e := Entry(KEY_E, List(items));
    DecShort(1);
    DecShort(|Message(p)|);
    assert Dec(203) == Dec(20) + [51] && Dec(20) == Dec(2) + [48] && Dec(204) == Dec(20) + [52];
    assert |Render(Int(Code(p)))| == 5;
    assert |Render(Str(Message(p)))| <= 20;
    hide Message, Dec;
    assert RenderItems(items) == Render(items[0]) + RenderItems(items[1..]);
    assert RenderItems(items[1..]) == Render(items[1]) + RenderItems(items[1..][1..]);
    assert RenderEntries([e]) == StrText(e.key) + Render(e.value) + RenderEntries([e][1..]);
  }

  lemma ErrorDistinct(es: seq<Entry>, tid: Bytes, p: Problem, version: Bytes, from: Asker)
    requires es == ErrorReply(tid, p, version, from)
    ensures DistinctKeys(Dict(es))
  {
    var items := [Int(Code(p)), Str(Message(p))];
    DistinctAll(items, es);
  }

  // ----- the reply -----

  function AnswerFrame(tid: Bytes, from: Asker, s: Server): Frame { Frame(tid, s.version, from.compact) }

  /** The reply before it is trimmed. */
  function Drafted(tid: Bytes, msg: Value, from: Asker, s: Server): seq<Entry> {
    match Answered(msg, from, s)
    case Refused(p) => ErrorReply(tid, p, s.version, from)
    case Granted(f) => Reply(f, AnswerFrame(tid, from, s))
  }

  /** One entry of a compact node list. */
  function EntryWidth(v6: bool): nat { if v6 then 38 else 26 }

  lemma {:induction false} CompactAppend(a: seq<Contact>, b: seq<Contact>, v6: bool)
    ensures CompactNodes(a + b, v6) == CompactNodes(a, v6) + CompactNodes(b, v6)
  {
    if b == [] {
      assert a + b == a;
    } else {
      var n, ab := |b| - 1, a + b;
      assert ab[..|a| + n] == a + b[..n] && ab[|a| + n] == b[n];
      CompactAppend(a, b[..n], v6);
      CompactLast(ab, v6);
      CompactLast(b, v6);
      hide CompactNodes;
    }
  }

  lemma CompactLast(cs: seq<Contact>, v6: bool)
    requires cs != []
    ensures var c := cs[|cs| - 1];
            CompactNodes(cs, v6) == CompactNodes(cs[..|cs| - 1], v6) + if c.v6 == v6 then c.id + c.addr else []
  {
  }

  /** A list of one family has one entry per contact, id first, each at its own place, and nothing of
      the other family. */
  lemma {:induction false} CompactEntries(cs: seq<Contact>, v6: bool)
    requires OneFamily(cs, v6)
    ensures |CompactNodes(cs, v6)| == EntryWidth(v6) * |cs|
    ensures forall i | 0 <= i < |cs| :: EntryAt(CompactNodes(cs, v6), i, cs[i], v6)
    ensures CompactNodes(cs, !v6) == []
  {
    if cs == [] {
    } else {
      var n := |cs| - 1;
      var front, last := CompactNodes(cs[..n], v6), cs[n].id + cs[n].addr;
      CompactEntries(cs[..n], v6);
      CompactLast(cs, v6);
      CompactLast(cs, !v6);
      assert ContactOk(cs[n]) && cs[n].v6 == v6;
      hide CompactNodes, EntryAt;
      forall i | 0 <= i < |cs|
        ensures EntryAt(front + last, i, cs[i], v6)
      {
        EntryAppended(front, last, n, i, cs[i], v6);
        assert i < n ==> cs[..n][i] == cs[i];
      }
      Widths(n, v6);
    }
  }

  lemma Widths(n: nat, v6: bool)
    ensures EntryWidth(v6) * (n + 1) == EntryWidth(v6) * n + EntryWidth(v6)
  {
  }

  lemma EntryAppended(front: Bytes, last: Bytes, n: nat, i: nat, c: Contact, v6: bool)
    requires |front| == EntryWidth(v6) * n && |last| == EntryWidth(v6)
    ensures EntryAt(front, i, c, v6) ==> EntryAt(front + last, i, c, v6)
    ensures i == n && last == c.id + c.addr ==> EntryAt(front + last, i, c, v6)
  {
  }

  predicate EntryAt(list: Bytes, i: nat, c: Contact, v6: bool) {
    && EntryWidth(v6) * i + EntryWidth(v6) <= |list|
    && list[EntryWidth(v6) * i..EntryWidth(v6) * i + EntryWidth(v6)] == c.id + c.addr
  }

  /** The fields of every answer: short strings, peers as short strings, whole node entries. */
  predicate FieldsOk(f: Fields) {
    ShortHead(f) && RealSize(f) && forall i | 0 <= i < |f.values| :: ShortPeer(f.values[i])
  }

  predicate ShortPeer(v: Value) { v.Str? && |v.bytes| <= 18 }

  lemma AnsweredOk(msg: Value, from: Asker, s: Server)
    requires ServerOk(s)
    ensures Answered(msg, from, s).Granted? ==> FieldsOk(Answered(msg, from, s).fields)
  {
    match GetStr(msg, KEY_Q)
    case None =>
    case Some(query) =>
      match Get(msg, KEY_A)
      case Some(Dict(es)) =>
        AnswerToOk(query, Dict(es), from, s);
        hide AnswerTo, Find;
      case _ =>
  }

  lemma AnswerToOk(query: Bytes, args: Value, from: Asker, s: Server)
    requires ServerOk(s)
    ensures AnswerTo(query, args, from, s).Granted? ==> FieldsOk(AnswerTo(query, args, from, s).fields)
  {
    hide GetStr, GetInt, CompactNodes;
    var want := Wants(args, from);
    if query == FIND_NODE && GetId(args, KEY_TARGET).Some? {
      NodesOk(s, GetId(args, KEY_TARGET).value, want);
    } else if query == GET_PEERS && GetId(args, KEY_INFO_HASH).Some? {
      NodesOk(s, GetId(args, KEY_INFO_HASH).value, want);
      assert PeersOk(s.peers(GetId(args, KEY_INFO_HASH).value));
    }
  }

  /** What is asked for comes from the table of its own family, whole. */
  lemma NodesOk(s: Server, target: Bytes, want: (bool, bool))
    requires ServerOk(s)
    ensures var cs := Closest(s, target, want.0, want.1);
            && |CompactNodes(cs, false)| == (if want.0 then 26 * |s.closest4(target)| else 0)
            && |CompactNodes(cs, true)| == (if want.1 then 38 * |s.closest6(target)| else 0)
    ensures |s.closest4(target)| <= 8 && |s.closest6(target)| <= 8
  {
    assert ContactsOk(s.closest4(target), false) && ContactsOk(s.closest6(target), true);
    var a, b := if want.0 then s.closest4(target) else [], if want.1 then s.closest6(target) else [];
    CompactEntries(a, false);
    CompactEntries(b, true);
    CompactAppend(a, b, false);
    CompactAppend(a, b, true);
  }

  /** A transaction id of one to thirty-two bytes. */
  predicate Answerable(msg: Value) {
    var t := Get(msg, KEY_T);
    t.Some? && t.value.Str? && 1 <= |t.value.bytes| <= 32
  }

  /** A message with a usable transaction id gets a reply of at most 1024 bytes, any other none. */
  method Respond(msg: Value, from: Asker, s: Server) returns (reply: Option<Bytes>)
    requires ServerOk(s) && AskerOk(from)
    ensures reply.Some? <==> Answerable(msg)
    ensures reply.Some? ==> |reply.value| <= 1024
    ensures reply.Some? ==>
              reply.value == Bounded(Drafted(Get(msg, KEY_T).value.bytes, msg, from, s)).0
  {
    hide *;
    var tid := TransactionId(msg);
    TidShort(msg);
    if tid.None? {
      return None;
    }
    var a := Answered(msg, from, s);
    match a
    case Refused(p) =>
      ErrorShortFor(tid.value, p, s, from);
      var ok, out := EncodeToWriter(Dict(ErrorReply(tid.value, p, s.version, from)), []);
      TextIs(ErrorReply(tid.value, p, s.version, from));
      ErrorUntouched(tid.value, p, s, from);
      DraftIs(tid.value, msg, from, s);
      reply := Some(out);
    case Granted(f) =>
      ghost var n := GrantedFits(tid.value, msg, from, s);
      var out, kept := BoundedResponseBytes(Reply(f, AnswerFrame(tid.value, from, s)));
      DraftIs(tid.value, msg, from, s);
      reply := Some(out);
  }

  lemma TidShort(msg: Value)
    ensures TransactionId(msg).Some? <==> Answerable(msg)
    ensures Answerable(msg) ==> TransactionId(msg) == Some(Get(msg, KEY_T).value.bytes)
    ensures TransactionId(msg).Some? ==> 1 <= |TransactionId(msg).value| <= 32
    ensures Answerable(msg) ==> Get(msg, KEY_T).Some? && Get(msg, KEY_T).value.Str?
  {
  }

  lemma DraftIs(tid: Bytes, msg: Value, from: Asker, s: Server)
    ensures Answered(msg, from, s).Refused? ==>
              Drafted(tid, msg, from, s) == ErrorReply(tid, Answered(msg, from, s).problem, s.version, from)
    ensures Answered(msg, from, s).Granted? ==>
              Drafted(tid, msg, from, s) == Reply(Answered(msg, from, s).fields, AnswerFrame(tid, from, s))
  {
  }

  lemma ErrorShortFor(tid: Bytes, p: Problem, s: Server, from: Asker)
    requires |tid| <= 32 && ServerOk(s) && AskerOk(from)
    ensures DistinctKeys(Dict(ErrorReply(tid, p, s.version, from)))
    ensures |Text(ErrorReply(tid, p, s.version, from))| <= 150 <= MAX_KRPC_RESPONSE_BYTES
  {
    ErrorShort(tid, p, s.version, from);
  }

  /** A refusal has nothing to trim. */
  lemma ErrorUntouched(tid: Bytes, p: Problem, s: Server, from: Asker)
    requires |tid| <= 32 && ServerOk(s) && AskerOk(from)
    ensures Bounded(ErrorReply(tid, p, s.version, from)).0 == Text(ErrorReply(tid, p, s.version, from))
  {
    ErrorShort(tid, p, s.version, from);
    var es := ErrorReply(tid, p, s.version, from);
    hide Text, Message, Code;
    PositionAbsent(es, KEY_R);
    FittedStep(es);
  }

  lemma GrantedFits(tid: Bytes, msg: Value, from: Asker, s: Server) returns (n: nat)
    requires 1 <= |tid| <= 32 && ServerOk(s) && AskerOk(from) && Answered(msg, from, s).Granted?
    ensures var f, w := Answered(msg, from, s).fields, AnswerFrame(tid, from, s);
      && FieldsOk(f) && FieldsOk(After(f, n)) && FirstFit(f, w, n)
      && After(f, n) == f.(values := After(f, n).values) && After(f, n).values <= f.values
      && (f.values == [] ==> After(f, n) == f)
      && DistinctKeys(Dict(Reply(f, w)))
      && Bounded(Reply(f, w)).0 == Text(Reply(After(f, n), w))
      && |Bounded(Reply(f, w)).0| <= 1024
  {
    AnsweredOk(msg, from, s);
    hide Answered, Bounded, DistinctKeys, Text, Reply, After, InTurn, CapFieldsOf, FirstFit;
    var f, w := Answered(msg, from, s).fields, AnswerFrame(tid, from, s);
    n := EveryReplyFits(f, w);
    SentFits(f, w, n);
    CapUnneeded(f);
    OnlyPeersCut(f, w, n);
    assert forall i | 0 <= i < |After(f, n).values| :: After(f, n).values[i] == f.values[i];
  }

  /** Replies that carry no peers, which are all those to `ping`, `find_node` and `announce_peer`, are
      sent as drafted. */
  lemma SentAsDrafted(tid: Bytes, msg: Value, from: Asker, s: Server)
    requires 1 <= |tid| <= 32 && ServerOk(s) && AskerOk(from) && Answered(msg, from, s).Granted?
    ensures GetStr(msg, KEY_Q) != Some(GET_PEERS) ==> Answered(msg, from, s).fields.values == []
    ensures Answered(msg, from, s).fields.values == [] ==>
              Bounded(Drafted(tid, msg, from, s)).0 == Text(Drafted(tid, msg, from, s))
  {
    NoPeersUnlessAsked(msg, from, s);
    hide Answered, Bounded, Text, Drafted, After;
    DraftIs(tid, msg, from, s);
    var n := GrantedFits(tid, msg, from, s);
  }

  lemma NoPeersUnlessAsked(msg: Value, from: Asker, s: Server)
    ensures Answered(msg, from, s).Granted? && GetStr(msg, KEY_Q) != Some(GET_PEERS) ==>
              Answered(msg, from, s).fields.values == []
  {
    hide Find, CompactNodes, Closest, Wants, GetInt, GetId;
  }

  // ----- what the asker reads -----

  lemma {:induction false} FindAt(es: seq<Entry>, i: nat)
    requires i < |es| && Distinct(KeysOf(es))
    ensures Find(es, es[i].key) == Some(es[i].value)
  {
    if i == 0 {
    } else {
      assert KeysOf(es)[0] != KeysOf(es)[i];
      assert KeysOf(es[1..]) == KeysOf(es)[1..];
      FindAt(es[1..], i - 1);
    }
  }

  lemma {:induction false} FindNowhere(es: seq<Entry>, key: Bytes)
    requires forall i | 0 <= i < |es| :: es[i].key != key
    ensures Find(es, key) == None
  {
    if es == [] {
    } else {
      FindNowhere(es[1..], key);
    }
  }

  /** Sorting a dictionary does not change what a key is found to hold. */
  lemma GetCanon(es: seq<Entry>, key: Bytes)
    requires Distinct(KeysOf(es))
    ensures Get(Canon(Dict(es)), key) == match Find(es, key)
                                         case None => None
                                         case Some(v) => Some(Canon(v))
  {
    var ces := CanonEntries(es);
    var sorted := Sort(ces);
    assert KeysOf(ces) == KeysOf(es);
    SortDistinct(ces);
    AscendingDistinct(sorted);
    hide Find, Sort, Ascending, Distinct, Canon, CanonEntries;
    CanonDict(es);
    if i: nat :| i < |es| && es[i].key == key {
      FindAt(es, i);
      assert ces[i] in multiset(sorted);
      var j: nat :| j < |sorted| && sorted[j] == ces[i];
      FindAt(sorted, j);
    } else {
      FindNowhere(es, key);
      forall j | 0 <= j < |sorted|
        ensures sorted[j].key != key
      {
        var k := Member(sorted, ces, j);
        assert ces[k].key == es[k].key;
      }
      FindNowhere(sorted, key);
    }
  }

  lemma CanonDict(es: seq<Entry>)
    ensures Canon(Dict(es)) == Dict(Sort(CanonEntries(es)))
  {
  }

  function OptStr(b: Option<Bytes>): Option<Value> { if b.None? then None else Some(Str(b.value)) }

  /** What the body's dictionary shows for each field. */
  predicate Shows(r: Value, g: Fields) {
    && Get(r, KEY_ID) == Some(Str(g.id))
    && Get(r, KEY_TOKEN) == OptStr(g.token)
    && Get(r, KEY_VALUES) == (if g.values == [] then None else Some(List(g.values)))
    && Get(r, KEY_NODES) == OptStr(g.nodes)
    && Get(r, KEY_NODES6) == OptStr(g.nodes6)
  }

  lemma FindAtPosition(es: seq<Entry>, key: Bytes)
    requires Distinct(KeysOf(es))
    ensures Get(Canon(Dict(es)), key)
         == if Position(es, key) == |es| then None else Some(Canon(es[Position(es, key)].value))
  {
    hide Find, Canon, Distinct;
    GetCanon(es, key);
    if Position(es, key) < |es| {
      FindAt(es, Position(es, key));
    } else {
      FindNowhere(es, key);
    }
  }

  /** The entries of a body, each at its place. */
  lemma LaidAt(g: Fields)
    ensures Position(Laid(g), KEY_ID) == 0 && Laid(g)[0].value == Str(g.id)
    ensures Position(Laid(g), KEY_TOKEN) == if g.token.Some? then 1 else |Laid(g)|
    ensures g.token.Some? ==> Laid(g)[1].value == Str(g.token.value)
    ensures g.values != [] ==> Laid(g)[|Head(g.id, g.token)|].value == List(g.values)
    ensures g.nodes.Some? ==>
              Laid(g)[|Head(g.id, g.token)| + |ValuesEntry(g.values)|].value == Str(g.nodes.value)
    ensures g.nodes6.Some? ==>
              var at := |Head(g.id, g.token)| + |ValuesEntry(g.values)| + |OptEntry(KEY_NODES, g.nodes)|;
              Laid(g)[at].value == Str(g.nodes6.value)
  {
    var i, t := [Entry(KEY_ID, Str(g.id))], OptEntry(KEY_TOKEN, g.token);
    var rest := ValuesEntry(g.values) + OptEntry(KEY_NODES, g.nodes) + OptEntry(KEY_NODES6, g.nodes6);
    assert Laid(g) == i + t + rest;
    PlaceOf(KEY_TOKEN, i, t, rest);
  }

  lemma LaidShows(g: Fields)
    requires Distinct(KeysOf(Laid(g))) && forall v | v in g.values :: v.Str?
    ensures Shows(Canon(Dict(Laid(g))), g)
  {
    var l := Laid(g);
    Places(g);
    LaidAt(g);
    CanonPeers(g.values);
    CanonStr();
    hide *;
    FindAtPosition(l, KEY_ID);
    FindAtPosition(l, KEY_TOKEN);
    FindAtPosition(l, KEY_VALUES);
    FindAtPosition(l, KEY_NODES);
    FindAtPosition(l, KEY_NODES6);
    AllShown(Canon(Dict(l)), g);
  }

  lemma AllShown(r: Value, g: Fields)
    requires Get(r, KEY_ID) == Some(Str(g.id)) && Get(r, KEY_TOKEN) == OptStr(g.token)
    requires Get(r, KEY_VALUES) == (if g.values == [] then None else Some(List(g.values)))
    requires Get(r, KEY_NODES) == OptStr(g.nodes) && Get(r, KEY_NODES6) == OptStr(g.nodes6)
    ensures Shows(r, g)
  {
  }

  lemma CanonPeers(values: seq<Value>)
    requires forall v | v in values :: v.Str?
    ensures Canon(List(values)) == List(values)
  {
    CanonSorted(List(values));
    assert forall k | 0 <= k < |values| :: values[k] in values;
  }

  lemma CanonStr()
    ensures forall b :: Canon(Str(b)) == Str(b)
  {
  }

  lemma ReplyPlain(g: Fields, w: Frame)
    requires FieldsOk(g) && ShortFrame(w)
    ensures Representable(Dict(Reply(g, w))) && Depth(Dict(Reply(g, w))) <= 3
  {
    RepresentableAll(g.values, Laid(g));
    RepresentableAll([], Reply(g, w));
    DepthAll(g.values, Laid(g), 2);
    DepthAll([], Reply(g, w), 3);
    BodyPlain(g);
    assert Reply(g, w)[0].value == Dict(Laid(g));
  }

  lemma BodyPlain(g: Fields)
    requires FieldsOk(g)
    ensures Representable(Dict(Laid(g))) && Depth(Dict(Laid(g))) <= 2
  {
    var l := Laid(g);
    RepresentableAll(g.values, l);
    DepthAll(g.values, l, 2);
    HeadPlain(g.id, g.token);
    ValuesPlain(g.values);
    OptPlain(KEY_NODES, g.nodes);
    OptPlain(KEY_NODES6, g.nodes6);
    hide PlainEntry, Representable, Depth;
    forall i | 0 <= i < |l|
      ensures PlainEntry(l[i])
    {
      assert l[i] in Head(g.id, g.token) || l[i] in ValuesEntry(g.values)
             || l[i] in OptEntry(KEY_NODES, g.nodes) || l[i] in OptEntry(KEY_NODES6, g.nodes6);
    }
    PlainEntries(l);
  }

  predicate PlainEntry(e: Entry) { |e.key| <= 100 && Representable(e.value) && Depth(e.value) <= 1 }

  lemma PlainEntries(l: seq<Entry>)
    requires forall i | 0 <= i < |l| :: PlainEntry(l[i])
    ensures forall i | 0 <= i < |l| ::
      |l[i].key| <= 0x7fff_ffff_ffff_ffff && Representable(l[i].value) && 1 + Depth(l[i].value) <= 2
  {
    hide Representable, Depth;
  }

  lemma HeadPlain(id: Bytes, token: Option<Bytes>)
    requires |id| == 20 && (token.Some? ==> |token.value| <= 8)
    ensures forall e | e in Head(id, token) :: PlainEntry(e)
  {
  }

  lemma OptPlain(key: Bytes, b: Option<Bytes>)
    requires |key| <= 100 && (b.Some? ==> |b.value| <= 1000)
    ensures forall e | e in OptEntry(key, b) :: PlainEntry(e)
  {
  }

  lemma ValuesPlain(values: seq<Value>)
    requires forall i | 0 <= i < |values| :: ShortPeer(values[i])
    ensures forall e | e in ValuesEntry(values) :: PlainEntry(e)
  {
    RepresentableAll(values, []);
    DepthAll(values, [], 1);
  }

  /** The reply decodes in full as a response, echoes the transaction id and the asker's address, names
      our version, and shows the fields `g`. */
  predicate ReadsAs(out: Bytes, w: Frame, g: Fields) {
    var o := Decode(Strict, out);
    && o.Parsed? && o.next == |out|
    && Framed(o.value, w)
    && Get(o.value, KEY_R).Some? && Shows(Get(o.value, KEY_R).value, g)
  }

  predicate Framed(v: Value, w: Frame) {
    && Get(v, KEY_T) == Some(Str(w.tid)) && Get(v, KEY_Y) == Some(Str(KEY_R))
    && Get(v, KEY_V) == Some(Str(w.version)) && Get(v, KEY_IP) == Some(Str(w.ip))
  }

  lemma TextReadsBack(g: Fields, w: Frame)
    requires FieldsOk(g) && ShortFrame(w)
    ensures ReadsAs(Text(Reply(g, w)), w, g)
  {
    var es := Reply(g, w);
    assert forall v | v in g.values :: v.Str?;
    ReplyDistinct(g, w);
    ReplyPlain(g, w);
    LaidDistinct(g);
    hide Representable, Decode, Depth, Count, Laid, FieldsOk;
    EncodeThenDecode(Dict(es));
    hide Canon, Distinct, DistinctKeys, Find;
    DistinctKeysOf(es);
    DistinctKeysOf(Laid(g));
    FrameFinds(g, w);
    GetCanon(es, KEY_T);
    GetCanon(es, KEY_Y);
    GetCanon(es, KEY_V);
    GetCanon(es, KEY_IP);
    GetCanon(es, KEY_R);
    CanonStr();
    LaidShows(g);
  }

  /** After `n` rounds of trimming, the first count at which the reply fits, the asker reads the answer
      with all its nodes and the peers that are left. */
  ghost predicate Delivered(out: Bytes, f: Fields, w: Frame, n: nat) {
    && FirstFit(f, w, n)
    && After(f, n) == f.(values := After(f, n).values) && After(f, n).values <= f.values
    && ReadsAs(out, w, After(f, n))
  }

  /** Whatever is granted reaches the asker: it decodes the whole reply, finds its own transaction id in
      it, and reads the fields of the answer. Every node entry arrives; only peers are cut, half at a
      time and no oftener than the size of the reply demands. */
  lemma AnswersReadBack(tid: Bytes, msg: Value, from: Asker, s: Server)
    requires 1 <= |tid| <= 32 && ServerOk(s) && AskerOk(from) && Answered(msg, from, s).Granted?
    ensures exists n :: Delivered(Bounded(Drafted(tid, msg, from, s)).0, Answered(msg, from, s).fields,
                                  AnswerFrame(tid, from, s), n)
  {
    hide Answered, Bounded, Drafted, Reply, Text, ReadsAs, After, FieldsOk, FirstFit;
    var f, w := Answered(msg, from, s).fields, AnswerFrame(tid, from, s);
    DraftIs(tid, msg, from, s);
    var n := GrantedFits(tid, msg, from, s);
    TextReadsBack(After(f, n), w);
    assert Delivered(Bounded(Drafted(tid, msg, from, s)).0, f, w, n);
  }

  lemma DistinctKeysOf(es: seq<Entry>)
    ensures DistinctKeys(Dict(es)) ==> Distinct(KeysOf(es))
  {
  }

  lemma FrameFinds(g: Fields, w: Frame)
    requires Distinct(KeysOf(Reply(g, w)))
    ensures Find(Reply(g, w), KEY_R) == Some(Dict(Laid(g)))
    ensures Find(Reply(g, w), KEY_T) == Some(Str(w.tid))
    ensures Find(Reply(g, w), KEY_V) == Some(Str(w.version))
    ensures Find(Reply(g, w), KEY_Y) == Some(Str(KEY_R))
    ensures Find(Reply(g, w), KEY_IP) == Some(Str(w.ip))
  {
    hide Laid, Find, Distinct, KeysOf;
    var es := Reply(g, w);
    FindAt(es, 0);
    FindAt(es, 1);
    FindAt(es, 2);
    FindAt(es, 3);
    FindAt(es, 4);
  }
}
