/** When a DHT query is granted, what the grant holds, and what a refusal says. */
module DhtGrants {
  import opened Common
  import opened BencodeText
  import opened BencodeParser
  import opened BencodeEncoder
  import opened DhtReply
  import opened DhtQuery
  import opened DhtAnswers

  /** The bytes of an ASCII text. */
  function Ascii(s: string): (b: Bytes)
    requires forall i | 0 <= i < |s| :: s[i] < 128 as char
    ensures |b| == |s| && forall i | 0 <= i < |s| :: b[i] == s[i] as int
  {
    seq(|s|, i requires 0 <= i < |s| => s[i] as int)
  }

  lemma KeysAre()
    ensures KEY_Q == Ascii("q") && KEY_A == Ascii("a") && KEY_T == Ascii("t") && KEY_ID == Ascii("id")
    ensures KEY_TARGET == Ascii("target") && KEY_INFO_HASH == Ascii("info_hash") && KEY_TOKEN == Ascii("token")
    ensures KEY_WANT == Ascii("want") && KEY_PORT == Ascii("port") && KEY_IMPLIED == Ascii("implied_port")
    ensures KEY_E == Ascii("e") && KEY_Y == Ascii("y") && KEY_V == Ascii("v") && KEY_IP == Ascii("ip")
    ensures KEY_R == Ascii("r") && KEY_VALUES == Ascii("values") && KEY_NODES == Ascii("nodes")
    ensures KEY_NODES6 == Ascii("nodes6")
  {
  }

  lemma WordsAre()
    ensures PING == Ascii("ping") && FIND_NODE == Ascii("find_node") && GET_PEERS == Ascii("get_peers")
    ensures ANNOUNCE_PEER == Ascii("announce_peer") && WANT_N4 == Ascii("n4") && WANT_N6 == Ascii("n6")
  {
  }

  // ----- when a query is granted -----

  /** The field is a string of twenty bytes. */
  predicate Has20(v: Value, key: string)
    requires forall i | 0 <= i < |key| :: key[i] < 128 as char
  {
    var f := Get(v, Ascii(key));
    f.Some? && f.value.Str? && |f.value.bytes| == 20
  }

  /** A query by name, with arguments and an id of twenty bytes. */
  predicate Asks(msg: Value, name: Bytes, args: Value) {
    Get(msg, Ascii("q")) == Some(Str(name)) && Get(msg, Ascii("a")) == Some(args) && args.Dict? && Has20(args, "id")
  }

  predicate TokenGood(args: Value, s: Server) {
    var t := Get(args, Ascii("token"));
    t.Some? && t.value.Str? && s.accepts(t.value.bytes)
  }

  /** The port announced is the asker's own if it says so, else the one it names, and it is a port. */
  predicate PortGood(args: Value, from: Asker) {
    var implied, port := Get(args, Ascii("implied_port")), Get(args, Ascii("port"));
    if implied.Some? && implied.value.Int? && implied.value.n != 0 then from.port != 0
    else port.Some? && port.value.Int? && 1 <= port.value.n <= 65535
  }

  predicate Grantable(msg: Value, args: Value, from: Asker, s: Server) {
    || Asks(msg, Ascii("ping"), args)
    || (Asks(msg, Ascii("find_node"), args) && Has20(args, "target"))
    || (Asks(msg, Ascii("get_peers"), args) && Has20(args, "info_hash"))
    || (Asks(msg, Ascii("announce_peer"), args)
        && Has20(args, "info_hash") && TokenGood(args, s) && PortGood(args, from))
  }

  /** A query is granted exactly if it is well formed, its target or hash is twenty bytes long, and, to
      announce, its token is one we accept and its port is a port. */
  lemma GrantedExactly(msg: Value, from: Asker, s: Server)
    requires AskerOk(from)
    ensures Answered(msg, from, s).Granted? <==> exists args :: Grantable(msg, args, from, s)
  {
    KeysAre();
    WordsAre();
    hide Get, KEY_Q, KEY_A, KEY_ID, KEY_TARGET, KEY_INFO_HASH, KEY_TOKEN, KEY_PORT, KEY_IMPLIED;
    var a := Get(msg, KEY_A);
    if a.Some? {
      GrantedWith(msg, a.value, from, s);
    }
  }

  lemma GrantedWith(msg: Value, args: Value, from: Asker, s: Server)
    requires AskerOk(from) && Get(msg, KEY_A) == Some(args)
    ensures Answered(msg, from, s).Granted? <==> Grantable(msg, args, from, s)
  {
    KeysAre();
    WordsAre();
    hide Get;
  }

  // ----- what a grant holds -----

  function BytesAt(args: Value, key: Bytes): Bytes {
    var f := Get(args, key);
    if f.Some? && f.value.Str? then f.value.bytes else []
  }

  /** The families asked for; an asker that does not say gets its own. */
  predicate Wanted(args: Value, from: Asker, v6: bool) {
    var w := Get(args, Ascii("want"));
    if w.Some? && w.value.List? then Str(if v6 then Ascii("n6") else Ascii("n4")) in w.value.items else from.v6 == v6
  }

  /** A node list is there exactly if it is wanted, and holds the contacts one after another. */
  predicate Lists(list: Option<Bytes>, wanted: bool, cs: seq<Contact>, v6: bool) {
    && (list.Some? <==> wanted)
    && (wanted ==>
          && |list.value| == (if v6 then 38 else 26) * |cs|
          && forall i | 0 <= i < |cs| :: EntryAt(list.value, i, cs[i], v6))
  }

  predicate ShowsNodes(f: Fields, args: Value, from: Asker, s: Server, target: Bytes) {
    && Lists(f.nodes, Wanted(args, from, false), s.closest4(target), false)
    && Lists(f.nodes6, Wanted(args, from, true), s.closest6(target), true)
  }

  /** The first hundred peers and a token to announce with. */
  predicate ShowsPeers(f: Fields, s: Server, hash: Bytes) {
    && f.token == Some(s.token) && |f.values| == Min(|s.peers(hash)|, 100)
    && forall i | 0 <= i < |f.values| :: f.values[i] == Str(s.peers(hash)[i])
  }

  /** Every grant carries our id; `find_node` and `get_peers` the closest contacts of the families wanted,
      `get_peers` a token and the peers as well, and the other two nothing more. */
  lemma GrantHolds(msg: Value, args: Value, from: Asker, s: Server)
    requires ServerOk(s) && AskerOk(from) && Grantable(msg, args, from, s)
    ensures Answered(msg, from, s).Granted?
    ensures var f := Answered(msg, from, s).fields;
            && f.id == s.id
            && (Asks(msg, Ascii("find_node"), args) ==>
                  ShowsNodes(f, args, from, s, BytesAt(args, Ascii("target"))))
            && (Asks(msg, Ascii("get_peers"), args) ==>
                  var hash := BytesAt(args, Ascii("info_hash"));
                  ShowsNodes(f, args, from, s, hash) && ShowsPeers(f, s, hash))
            && (!Asks(msg, Ascii("get_peers"), args) ==> f.token == None && f.values == [])
            && (Asks(msg, Ascii("ping"), args) || Asks(msg, Ascii("announce_peer"), args) ==>
                  f.nodes == None && f.nodes6 == None)
  {
    KeysAre();
    WordsAre();
    hide Get, CompactNodes, Closest;
    GrantedWith(msg, args, from, s);
    if Asks(msg, Ascii("find_node"), args) {
      NodesHold(args, from, s, BytesAt(args, KEY_TARGET));
    } else if Asks(msg, Ascii("get_peers"), args) {
      NodesHold(args, from, s, BytesAt(args, KEY_INFO_HASH));
    }
  }

  lemma WantsIs(args: Value, from: Asker)
    ensures Wants(args, from) == (Wanted(args, from, false), Wanted(args, from, true))
  {
    KeysAre();
    WordsAre();
    hide Get;
  }

  lemma NodesHold(args: Value, from: Asker, s: Server, target: Bytes)
    requires ServerOk(s)
    ensures forall f :: ShowsNodes(NodeFields(s, f, target, Wants(args, from)), args, from, s, target)
  {
    WantsIs(args, from);
    var want := Wants(args, from);
    assert ContactsOk(s.closest4(target), false) && ContactsOk(s.closest6(target), true);
    hide Get, CompactNodes, EntryAt, Wants, Wanted, Ascii, ContactsOk;
    ClosestLists(s.closest4(target), s.closest6(target), want.0, want.1);
  }

  lemma ClosestLists(four: seq<Contact>, six: seq<Contact>, want4: bool, want6: bool)
    requires OneFamily(four, false) && OneFamily(six, true)
    ensures var cs := (if want4 then four else []) + if want6 then six else [];
            && (want4 ==> Lists(Some(CompactNodes(cs, false)), true, four, false))
            && (want6 ==> Lists(Some(CompactNodes(cs, true)), true, six, true))
  {
    var a, b := if want4 then four else [], if want6 then six else [];
    hide CompactNodes, EntryAt;
    CompactEntries(a, false);
    CompactEntries(b, true);
    CompactAppend(a, b, false);
    CompactAppend(a, b, true);
    assert CompactNodes(a, false) + [] == CompactNodes(a, false) && [] + CompactNodes(b, true) == CompactNodes(b, true);
  }

  // ----- why a query is refused -----

  /** Which complaint a query earns: the first thing wrong with it. */
  predicate Complaint(msg: Value, from: Asker, s: Server, p: Problem) {
    var q, a := Get(msg, Ascii("q")), Get(msg, Ascii("a"));
    var named := q.Some? && q.value.Str?;
    var argued := named && a.Some? && a.value.Dict?;
    match p
    case MissingQuery => !named
    case MissingArguments => named && !argued
    case InvalidId => argued && !Has20(a.value, "id")
    case _ => argued && Has20(a.value, "id") && Objection(q.value.bytes, a.value, from, s, p)
  }

  /** What is wrong with the arguments of a method. */
  predicate Objection(name: Bytes, args: Value, from: Asker, s: Server, p: Problem) {
    var announces := name == Ascii("announce_peer");
    match p
    case UnknownMethod => !announces && name !in [Ascii("ping"), Ascii("find_node"), Ascii("get_peers")]
    case InvalidTarget => name == Ascii("find_node") && !Has20(args, "target")
    case InvalidInfoHash => (name == Ascii("get_peers") || announces) && !Has20(args, "info_hash")
    case MissingToken => announces && Has20(args, "info_hash") && !Tokened(args)
    case InvalidToken => announces && Has20(args, "info_hash") && Tokened(args) && !TokenGood(args, s)
    case InvalidPort => announces && Has20(args, "info_hash") && TokenGood(args, s) && !PortGood(args, from)
    case _ => false
  }

  predicate Tokened(args: Value) { var t := Get(args, Ascii("token")); t.Some? && t.value.Str? }

  lemma RefusedExactly(msg: Value, from: Asker, s: Server, p: Problem)
    requires AskerOk(from)
    ensures Answered(msg, from, s) == Refused(p) <==> Complaint(msg, from, s, p)
  {
    KeysAre();
    hide Get, AnswerTo;
    var q, a := Get(msg, KEY_Q), Get(msg, KEY_A);
    if q.Some? && q.value.Str? && a.Some? && a.value.Dict? {
      ObjectedExactly(q.value.bytes, a.value, from, s, p);
    }
  }

  lemma ObjectedExactly(name: Bytes, args: Value, from: Asker, s: Server, p: Problem)
    requires AskerOk(from) && args.Dict?
    ensures AnswerTo(name, args, from, s) == Refused(p) <==> Objection(name, args, from, s, p)
  {
    KeysAre();
    WordsAre();
    hide Get, NodeFields, Values, Wants, Closest, CompactNodes;
  }

  /** The words a complaint is put in. */
  function Words(p: Problem): string {
    match p
    case MissingQuery => "missing query"
    case MissingArguments => "missing arguments"
    case InvalidId => "invalid id"
    case InvalidTarget => "invalid target"
    case InvalidInfoHash => "invalid info_hash"
    case MissingToken => "missing token"
    case InvalidToken => "invalid token"
    case InvalidPort => "invalid port"
    case UnknownMethod => "method unknown"
  }

  lemma MissingWords()
    ensures Spells(Message(MissingQuery), "missing query") && Spells(Message(MissingArguments), "missing arguments")
  {
  }

  lemma InvalidWords()
    ensures Spells(Message(InvalidId), "invalid id") && Spells(Message(InvalidTarget), "invalid target")
    ensures Spells(Message(InvalidInfoHash), "invalid info_hash") && Spells(Message(InvalidPort), "invalid port")
  {
  }

  lemma TokenWords()
    ensures Spells(Message(MissingToken), "missing token") && Spells(Message(InvalidToken), "invalid token")
    ensures Spells(Message(UnknownMethod), "method unknown")
  {
  }

  lemma Wording(p: Problem)
    ensures Spells(Message(p), Words(p))
  {
    MissingWords();
    InvalidWords();
    TokenWords();
    hide Spells, Message;
  }

  predicate Spells(b: Bytes, s: string) { |b| == |s| && forall i | 0 <= i < |s| :: s[i] as int == b[i] }

  /** A refusal decodes in full as an error with its number and words, and echoes the transaction id. */
  lemma RefusalReadsBack(tid: Bytes, p: Problem, s: Server, from: Asker)
    requires |tid| <= 32 && ServerOk(s) && AskerOk(from)
    ensures var o := Decode(Strict, Text(ErrorReply(tid, p, s.version, from)));
            && o.Parsed? && o.next == |Text(ErrorReply(tid, p, s.version, from))|
            && Get(o.value, Ascii("t")) == Some(Str(tid)) && Get(o.value, Ascii("y")) == Some(Str(Ascii("e")))
            && Get(o.value, Ascii("e"))
            == Some(List([Int(if p == UnknownMethod then 204 else 203), Str(Message(p))]))
            && Spells(Message(p), Words(p))
  {
    var es := ErrorReply(tid, p, s.version, from);
    KeysAre();
    Wording(p);
    ErrorShort(tid, p, s.version, from);
    ErrorPlain(tid, p, s.version, from);
    hide Representable, Depth, Count, Message, Words, Spells, Decode, Canon, Distinct, DistinctKeys, Find, Text;
    EncodeThenDecode(Dict(es));
    TextIs(es);
    DistinctKeysOf(es);
    FindAt(es, 0);
    FindAt(es, 1);
    FindAt(es, 3);
    GetCanon(es, KEY_E);
    GetCanon(es, KEY_T);
    GetCanon(es, KEY_Y);
    CanonStr();
    PairCanon(Code(p), Message(p));
  }

  /** A refusal names our version, and shows the asker its address exactly once the asker's id was read. */
  lemma RefusalShows(tid: Bytes, p: Problem, s: Server, from: Asker)
    requires |tid| <= 32 && ServerOk(s) && AskerOk(from)
    ensures var o := Decode(Strict, Text(ErrorReply(tid, p, s.version, from)));
            && o.Parsed? && Get(o.value, Ascii("v")) == Some(Str(s.version))
            && (Get(o.value, Ascii("ip")) == None <==> p in [MissingQuery, MissingArguments, InvalidId])
            && (Get(o.value, Ascii("ip")) != None ==> Get(o.value, Ascii("ip")) == Some(Str(from.compact)))
  {
    var es := ErrorReply(tid, p, s.version, from);
    KeysAre();
    ErrorShort(tid, p, s.version, from);
    ErrorPlain(tid, p, s.version, from);
    ErrorFinds(tid, p, s.version, from);
    hide *;
    EncodeThenDecode(Dict(es));
    TextIs(es);
    GetCanon(es, KEY_V);
    GetCanon(es, KEY_IP);
    CanonStr();
  }

  lemma ErrorFinds(tid: Bytes, p: Problem, version: Bytes, from: Asker)
    requires |tid| <= 32 && |version| == 4 && AskerOk(from)
    ensures var es := ErrorReply(tid, p, version, from);
            && Find(es, KEY_V) == Some(Str(version))
            && Find(es, KEY_IP)
            == if p in [MissingQuery, MissingArguments, InvalidId] then None else Some(Str(from.compact))
  {
    var es := ErrorReply(tid, p, version, from);
    ErrorShort(tid, p, version, from);
    DistinctKeysOf(es);
    hide Message, Code, Distinct, DistinctKeys, Find;
    FindAt(es, 2);
    if |es| == 5 {
      FindAt(es, 4);
    } else {
      FindNowhere(es, KEY_IP);
    }
  }

  lemma PairCanon(n: int, b: Bytes)
    ensures Canon(List([Int(n), Str(b)])) == List([Int(n), Str(b)])
  {
    CanonSorted(List([Int(n), Str(b)]));
  }

  lemma ErrorPlain(tid: Bytes, p: Problem, version: Bytes, from: Asker)
    requires |tid| <= 32 && |version| == 4 && AskerOk(from)
    ensures Representable(Dict(ErrorReply(tid, p, version, from))) && Depth(Dict(ErrorReply(tid, p, version, from))) <= 2
  {
    var es := ErrorReply(tid, p, version, from);
    var items := [Int(Code(p)), Str(Message(p))];
    RepresentableAll(items, es);
    DepthAll(items, es, 2);
    DepthAll(items, [], 1);
    assert es[0].value == List(items);
  }
}
