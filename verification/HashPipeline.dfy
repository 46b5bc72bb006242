/** Hashing a new torrent. */
module HashPipeline {
  /* Hashing the files of a new torrent: jobs handed to workers that finish in any order, and the plain
   "lay the files end to end and cut" reading that the result must have. */

  import opened Common

  const BLOCK: nat := 16384
  const MIN_PIECE_LENGTH: nat := 16384
  const AUTO_MAX_PIECE_LENGTH: nat := 16777216
  const TARGET_PIECES: nat := 1500
  const HASH_BYTES_IN_FLIGHT: nat := 67108864

  datatype Version = V1Only | V2Only | Hybrid

  /** A file as planned (its length) and as read (its bytes, and whether its time stamp moved). */
  datatype SourceFile = SourceFile(length: nat, content: Bytes, touched: bool)

  /** The hash functions, and the Merkle root over a file's piece roots. */
  datatype Hashes = Hashes(
    sha1: Bytes -> Bytes,
    blocksRoot: Bytes -> Bytes,
    pieceRoot: Bytes -> Bytes,
    layerRoot: seq<Bytes> -> Bytes)

  datatype HashJob = HashJob(data: Bytes, v1: bool, v1Pad: nat, v2: Option<bool>)

  datatype PieceHashes = PieceHashes(v1: Option<Bytes>, v2: Option<Bytes>)

  /** The version 1 file list: files in order, and padding files between them. */
  datatype Entry = FileEntry(index: nat) | PaddingEntry(len: nat)

  function Zeros(n: nat): (z: Bytes)
    ensures |z| == n && forall i | 0 <= i < n :: z[i] == 0
  {
    seq(n, _ => 0)
  }

  function HashOf(h: Hashes, job: HashJob): PieceHashes {
    PieceHashes(
      if job.v1 then Some(h.sha1(job.data + Zeros(job.v1Pad))) else None,
      match job.v2
      case None => None
      case Some(small) => Some(if small then h.blocksRoot(job.data) else h.pieceRoot(job.data)))
  }

  // ----- cutting into pieces -----

  /** `n` is a whole number of pieces. */
  predicate Whole(n: nat, piece: nat)
    requires piece > 0
    decreases n
  {
    n == 0 || (n >= piece && Whole(n - piece, piece))
  }

  function Cut(s: Bytes, piece: nat): seq<Bytes>
    requires piece > 0
  {
    if s == [] then []
    else if |s| <= piece then [s]
    else [s[..piece]] + Cut(s[piece..], piece)
  }

  lemma {:induction false} WholeAdd(a: nat, b: nat, piece: nat)
    requires piece > 0 && Whole(a, piece)
    ensures Whole(b, piece) <==> Whole(a + b, piece)
    decreases a
  {
    if a == 0 {
    } else {
      WholeAdd(a - piece, b, piece);
    }
  }

  lemma {:induction false} WholeTimes(q: nat, piece: nat)
    requires piece > 0
    ensures Whole(q * piece, piece)
  {
    if q == 0 {
    } else {
      WholeTimes(q - 1, piece);
      assert q * piece - piece == (q - 1) * piece;
    }
  }

  /** A piece appended after whole pieces is the next one cut. */
  lemma {:induction false} CutSnoc(s: Bytes, t: Bytes, piece: nat)
    requires piece > 0 && Whole(|s|, piece) && 0 < |t| <= piece
    ensures Cut(s + t, piece) == Cut(s, piece) + [t]
    decreases |s|
  {
    if s == [] {
      assert s + t == t;
    } else {
      assert (s + t)[..piece] == s[..piece] && (s + t)[piece..] == s[piece..] + t;
      CutSnoc(s[piece..], t, piece);
      if |s| == piece {
        assert s[..piece] == s && s[piece..] == [] && [] + t == t;
      }
    }
  }

  /** Zeros that bring a file up to a whole number of pieces. */
  function PaddingAfter(length: nat, piece: nat): (pad: nat)
    requires piece > 0
    ensures pad < piece && Whole(length + pad, piece)
  {
    var pad := (piece - length % piece) % piece;
    PaddingFills(length, piece);
    pad
  }

  lemma PaddingFills(length: nat, piece: nat)
    requires piece > 0
    ensures 0 <= (piece - length % piece) % piece < piece
    ensures Whole(length + (piece - length % piece) % piece, piece)
  {
    var q, r := length / piece, length % piece;
    assert length == q * piece + r;
    WholeTimes(q, piece);
    if r == 0 {
      assert piece % piece == 0;
    } else {
      assert (piece - r) % piece == piece - r;
      WholeAdd(q * piece, piece, piece);
    }
  }

  /** The padding after a file that ends `t` bytes into a piece is the rest of that piece. */
  lemma PadsLastPiece(before: nat, t: nat, piece: nat)
    requires piece > 0 && Whole(before, piece) && 0 < t <= piece
    ensures t + PaddingAfter(before + t, piece) == piece
  {
    var pad := PaddingAfter(before + t, piece);
    assert before + t + pad == before + (t + pad);
    WholeAdd(before, t + pad, piece);
    assert Whole(t + pad, piece) && (t + pad == piece || t + pad - piece < piece);
  }

  // ----- what the jobs amount to -----

  /** What each version 1 job hashes. */
  function V1Pieces(jobs: seq<HashJob>): seq<Bytes> {
    if jobs == [] then []
    else
      var j := jobs[|jobs| - 1];
      V1Pieces(jobs[..|jobs| - 1]) + if j.v1 then [j.data + Zeros(j.v1Pad)] else []
  }

  function Datas(jobs: seq<HashJob>): seq<Bytes> { seq(|jobs|, i requires 0 <= i < |jobs| => jobs[i].data) }

  function Digests(f: Bytes -> Bytes, pieces: seq<Bytes>): seq<Bytes> {
    seq(|pieces|, i requires 0 <= i < |pieces| => f(pieces[i]))
  }

  /** The version 1 digests, in order, of those results that have one. */
  function Firsts(hs: seq<PieceHashes>): seq<Bytes> {
    if hs == [] then []
    else
      var last := hs[|hs| - 1].v1;
      Firsts(hs[..|hs| - 1]) + if last.Some? then [last.value] else []
  }

  function Seconds(hs: seq<PieceHashes>): seq<Bytes> {
    if hs == [] then []
    else
      var last := hs[|hs| - 1].v2;
      Seconds(hs[..|hs| - 1]) + if last.Some? then [last.value] else []
  }

  predicate Results(h: Hashes, jobs: seq<HashJob>, hs: seq<PieceHashes>) {
    |hs| == |jobs| && forall i | 0 <= i < |jobs| :: hs[i] == HashOf(h, jobs[i])
  }

  lemma {:induction false} FirstsAreDigests(h: Hashes, jobs: seq<HashJob>, hs: seq<PieceHashes>)
    requires Results(h, jobs, hs)
    ensures Firsts(hs) == Digests(h.sha1, V1Pieces(jobs))
  {
    if jobs == [] {
    } else {
      FirstsAreDigests(h, jobs[..|jobs| - 1], hs[..|hs| - 1]);
    }
  }

  lemma {:induction false} SecondsAreDigests(h: Hashes, jobs: seq<HashJob>, hs: seq<PieceHashes>, small: bool)
    requires Results(h, jobs, hs) && forall i | 0 <= i < |jobs| :: jobs[i].v2 == Some(small)
    ensures Seconds(hs) == Digests(if small then h.blocksRoot else h.pieceRoot, Datas(jobs))
  {
    if jobs == [] {
    } else {
      SecondsAreDigests(h, jobs[..|jobs| - 1], hs[..|hs| - 1], small);
    }
  }

  lemma V1Snoc(jobs: seq<HashJob>, j: HashJob)
    ensures V1Pieces(jobs + [j]) == V1Pieces(jobs) + if j.v1 then [j.data + Zeros(j.v1Pad)] else []
  {
    assert (jobs + [j])[..|jobs|] == jobs;
  }

  // ----- the plain reading of a torrent -----

  /** The version 1 file list of the first `k` files. */
  function Listing(files: seq<SourceFile>, version: Version, piece: nat, k: nat): seq<Entry>
    requires piece > 0 && k <= |files|
  {
    if k == 0 then []
    else
      var pad := PaddingAfter(files[k - 1].length, piece);
      Listing(files, version, piece, k - 1) + [FileEntry(k - 1)]
      + if version == Hybrid && pad > 0 && k < |files| then [PaddingEntry(pad)] else []
  }

  /** The bytes a file list stands for, end to end. */
  function Payload(list: seq<Entry>, files: seq<SourceFile>): Bytes {
    if list == [] then []
    else
      var e := list[|list| - 1];
      Payload(list[..|list| - 1], files) + EntryBytes(e, files)
  }

  function Declared(files: seq<SourceFile>, version: Version, piece: nat, k: nat): Bytes
    requires piece > 0 && k <= |files|
  {
    Payload(Listing(files, version, piece, k), files)
  }

  function PadFor(files: seq<SourceFile>, version: Version, piece: nat, i: nat): nat
    requires piece > 0 && i < |files|
  {
    if version == Hybrid && i + 1 < |files| then PaddingAfter(files[i].length, piece) else 0
  }

  function EntryBytes(e: Entry, files: seq<SourceFile>): Bytes {
    match e
    case FileEntry(i) => if i < |files| then files[i].content else []
    case PaddingEntry(n) => Zeros(n)
  }

  lemma PayloadSnoc(list: seq<Entry>, e: Entry, files: seq<SourceFile>)
    ensures Payload(list + [e], files) == Payload(list, files) + EntryBytes(e, files)
  {
    assert (list + [e])[..|list|] == list;
  }

  /** One more file adds its bytes and its padding. */
  lemma DeclaredStep(files: seq<SourceFile>, version: Version, piece: nat, i: nat)
    requires piece > 0 && i < |files|
    ensures Declared(files, version, piece, i + 1)
         == Declared(files, version, piece, i) + files[i].content + Zeros(PadFor(files, version, piece, i))
  {
    var l := Listing(files, version, piece, i);
    var pad := PaddingAfter(files[i].length, piece);
    var tail := if version == Hybrid && pad > 0 && i + 1 < |files| then [PaddingEntry(pad)] else [];
    assert Listing(files, version, piece, i + 1) == l + [FileEntry(i)] + tail;
    hide Listing, Payload;
    PayloadSnoc(l, FileEntry(i), files);
    PayloadSnoc(l + [FileEntry(i)], PaddingEntry(pad), files);
    if tail == [] {
      assert l + [FileEntry(i)] + tail == l + [FileEntry(i)];
      assert Zeros(PadFor(files, version, piece, i)) == [];
    }
  }

  /** A file read as planned: same length, same time stamp. */
  predicate Stable(f: SourceFile) { |f.content| == f.length && !f.touched }

  /** Padding keeps every file but the last starting on a piece boundary. */
  lemma {:induction false} StartsOnBoundary(files: seq<SourceFile>, piece: nat, k: nat)
    requires piece > 0 && k < |files| && forall i | 0 <= i < k :: Stable(files[i])
    ensures Whole(|Declared(files, Hybrid, piece, k)|, piece)
  {
    if k == 0 {
    } else {
      StartsOnBoundary(files, piece, k - 1);
      DeclaredStep(files, Hybrid, piece, k - 1);
      var pad := PaddingAfter(files[k - 1].length, piece);
      WholeAdd(|Declared(files, Hybrid, piece, k - 1)|, files[k - 1].length + pad, piece);
    }
  }

  /** The jobs made for one file hash the file on its own, cut from its first byte. */
  predicate OwnPieces(jobs: seq<HashJob>, content: Bytes, small: bool, piece: nat)
    requires piece > 0
  {
    Datas(jobs) == Cut(content, piece) && forall i | 0 <= i < |jobs| :: jobs[i].v2 == Some(small)
  }

  function FileRoot(h: Hashes, roots: seq<Bytes>, small: bool): Option<Bytes> {
    if roots == [] then None
    else if |roots| == 1 && small then Some(roots[0])
    else Some(h.layerRoot(roots))
  }

  /** A file of at most one piece has the root over its own blocks; a longer one the root over the
      roots of its pieces; an empty one none. */
  function PlainRoot(h: Hashes, f: SourceFile, piece: nat): Option<Bytes>
    requires piece > 0
  {
    if f.content == [] then None
    else if f.length <= piece then Some(h.blocksRoot(f.content))
    else Some(h.layerRoot(Digests(h.pieceRoot, Cut(f.content, piece))))
  }

  lemma RootIsPlain(h: Hashes, f: SourceFile, jobs: seq<HashJob>, hs: seq<PieceHashes>, piece: nat)
    requires piece > 0 && Stable(f) && Results(h, jobs, hs) && OwnPieces(jobs, f.content, f.length <= piece, piece)
    ensures FileRoot(h, Seconds(hs), f.length <= piece) == PlainRoot(h, f, piece)
  {
    SecondsAreDigests(h, jobs, hs, f.length <= piece);
  }

  // ----- choosing a piece length -----

  predicate PowerOfTwo(n: nat) { n == 1 || (n >= 2 && n % 2 == 0 && PowerOfTwo(n / 2)) }

  /** The least power of two, from 16 KiB up to 16 MiB, that reaches a 1500th of the total. */
  method AutoPieceLength(total: nat) returns (length: nat)
    ensures 16384 <= length <= 16777216 && PowerOfTwo(length)
    ensures length < 16777216 ==> length >= total / 1500
    ensures length > 16384 ==> length / 2 < total / 1500
  {
    var target := total / TARGET_PIECES;
    length := MIN_PIECE_LENGTH;
    SmallPowers();
    while length < target && length < AUTO_MAX_PIECE_LENGTH
      invariant MIN_PIECE_LENGTH <= length <= AUTO_MAX_PIECE_LENGTH && PowerOfTwo(length)
      invariant length > MIN_PIECE_LENGTH ==> length / 2 < target
      decreases AUTO_MAX_PIECE_LENGTH - length
    {
      PowersApart(length, AUTO_MAX_PIECE_LENGTH);
      length := length * 2;
    }
  }

  lemma {:induction false} PowersApart(a: nat, b: nat)
    requires PowerOfTwo(a) && PowerOfTwo(b) && a < b
    ensures 2 * a <= b
  {
    if a > 1 {
      PowersApart(a / 2, b / 2);
    }
  }

  ghost function Power(k: nat): (n: nat)
    ensures n > 0 && PowerOfTwo(n)
  {
    if k == 0 then 1 else 2 * Power(k - 1)
  }

  lemma SmallPowers()
    ensures PowerOfTwo(MIN_PIECE_LENGTH) && PowerOfTwo(AUTO_MAX_PIECE_LENGTH)
  {
    hide PowerOfTwo;
    assert Power(14) == MIN_PIECE_LENGTH;
    assert Power(24) == AUTO_MAX_PIECE_LENGTH;
  }
}
