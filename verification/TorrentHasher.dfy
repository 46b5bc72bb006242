/**
 The read-and-submit loop over the files of a torrent, and the pipeline of jobs behind it. Workers finish
 in any order and buffers are recycled, yet the finished torrent is the plain reading of its files.
 */
module TorrentHasher {
  import opened Common
  import opened HashPipeline

  function Clamp(n: nat, low: nat, high: nat): nat { if n < low then low else if n > high then high else n }

  /** As many jobs in flight as fit in 64 MiB, but at least one and at most two per thread. */
  predicate Filling(limit: nat, piece: nat, most: nat) {
    && 1 <= limit <= most && (limit == 1 || limit * piece <= 67108864)
    && (limit == most || (limit + 1) * piece > 67108864)
  }

  lemma InFlight(piece: nat, most: nat)
    requires piece > 0 && most > 0
    ensures Filling(Clamp(HASH_BYTES_IN_FLIGHT / piece, 1, most), piece, most)
  {
    var n := 67108864 / piece;
    assert 67108864 == piece * n + 67108864 % piece;
    var l := Clamp(n, 1, most);
    if l <= n {
      Product(piece, l, n);
    }
    if n < l {
      Product(piece, n + 1, l + 1);
    }
  }

  /** Bytes of the jobs whose results are in. */
  function DoneBytes(results: seq<Option<PieceHashes>>, jobs: seq<HashJob>): nat
    requires |results| == |jobs|
  {
    if results == [] then 0
    else
      var n := |results| - 1;
      DoneBytes(results[..n], jobs[..n]) + if results[n].Some? then |jobs[n].data| else 0
  }

  function JobBytes(jobs: seq<HashJob>): nat {
    if jobs == [] then 0 else JobBytes(jobs[..|jobs| - 1]) + |jobs[|jobs| - 1].data|
  }

  lemma {:induction false} OneMoreDone(results: seq<Option<PieceHashes>>, jobs: seq<HashJob>, k: nat, v: PieceHashes)
    requires |results| == |jobs| && k < |results| && results[k].None?
    ensures DoneBytes(results[k := Some(v)], jobs) == DoneBytes(results, jobs) + |jobs[k].data|
  {
    var n := |results| - 1;
    if k < n {
      OneMoreDone(results[..n], jobs[..n], k, v);
      assert results[k := Some(v)][..n] == results[..n][k := Some(v)];
    } else {
      assert results[k := Some(v)][..n] == results[..n];
    }
  }

  lemma OneMoreJob(results: seq<Option<PieceHashes>>, jobs: seq<HashJob>, job: HashJob)
    requires |results| == |jobs|
    ensures DoneBytes(results + [None], jobs + [job]) == DoneBytes(results, jobs)
  {
    assert (results + [None])[..|results|] == results && (jobs + [job])[..|jobs|] == jobs;
  }

  lemma {:induction false} AllDone(results: seq<Option<PieceHashes>>, jobs: seq<HashJob>)
    requires |results| == |jobs| && forall i | 0 <= i < |results| :: results[i].Some?
    ensures DoneBytes(results, jobs) == JobBytes(jobs)
  {
    if results == [] {
    } else {
      AllDone(results[..|results| - 1], jobs[..|jobs| - 1]);
    }
  }

  /** What one worker does with one job. */
  method Hash(h: Hashes, job: HashJob) returns (hashes: PieceHashes)
    ensures hashes == HashOf(h, job)
  {
    var v1: Option<Bytes> := None;
    if job.v1 {
      var absorbed := job.data;
      var pad: nat := job.v1Pad;
      assert absorbed == job.data + Zeros(0);
      while pad > 0
        invariant pad <= job.v1Pad && absorbed == job.data + Zeros(job.v1Pad - pad)
      {
        var take := if pad < BLOCK then pad else BLOCK;
        assert Zeros(job.v1Pad - pad) + Zeros(take) == Zeros(job.v1Pad - (pad - take));
        absorbed := absorbed + Zeros(take);
        pad := pad - take;
      }
      v1 := Some(h.sha1(absorbed));
    }
    assert v1 == HashOf(h, job).v1;
    var v2: Option<Bytes> := None;
    if job.v2.Some? {
      v2 := Some(if job.v2.value then h.blocksRoot(job.data) else h.pieceRoot(job.data));
    }
    assert v2 == HashOf(h, job).v2;
    hashes := PieceHashes(v1, v2);
  }

  /** Every job is with the workers or has its own result, in its own place. */
  ghost predicate InStep(h: Hashes, jobs: seq<HashJob>, inflight: map<nat, HashJob>,
                         results: seq<Option<PieceHashes>>, hashed: nat) {
    && |results| == |jobs|
    && (forall i | 0 <= i < |jobs| :: i in inflight || results[i] == Some(HashOf(h, jobs[i])))
    && (forall i | i in inflight :: i < |jobs| && inflight[i] == jobs[i] && results[i].None?)
    && hashed == DoneBytes(results, jobs)
  }

  lemma SubmitKeeps(h: Hashes, jobs: seq<HashJob>, inflight: map<nat, HashJob>,
                    results: seq<Option<PieceHashes>>, hashed: nat, job: HashJob)
    requires InStep(h, jobs, inflight, results, hashed)
    ensures InStep(h, jobs + [job], inflight[|results| := job], results + [None], hashed)
    ensures |inflight[|results| := job]| == |inflight| + 1
  {
    OneMoreJob(results, jobs, job);
    hide HashOf, DoneBytes;
    assert |results| !in inflight;
  }

  lemma CollectKeeps(h: Hashes, jobs: seq<HashJob>, inflight: map<nat, HashJob>,
                     results: seq<Option<PieceHashes>>, hashed: nat, k: nat)
    requires InStep(h, jobs, inflight, results, hashed) && k in inflight
    ensures k < |results| && inflight[k] == jobs[k]
    ensures InStep(h, jobs, inflight - {k}, results[k := Some(HashOf(h, jobs[k]))], hashed + |jobs[k].data|)
    ensures |inflight - {k}| == |inflight| - 1
  {
    OneMoreDone(results, jobs, k, HashOf(h, jobs[k]));
    hide HashOf, DoneBytes;
    assert (inflight - {k}).Keys == inflight.Keys - {k};
  }

  lemma AllBack(h: Hashes, jobs: seq<HashJob>, results: seq<Option<PieceHashes>>, hashed: nat)
    requires InStep(h, jobs, map[], results, hashed)
    ensures |results| == |jobs| && forall i | 0 <= i < |jobs| :: results[i] == Some(HashOf(h, jobs[i]))
    ensures hashed == JobBytes(jobs)
  {
    AllDone(results, jobs);
  }

  class Pipeline {
    const h: Hashes
    const limit: nat
    var pending: nat
    /** Jobs handed to the workers and not yet back, by position. */
    var inflight: map<nat, HashJob>
    var results: seq<Option<PieceHashes>>
    var spare: seq<Bytes>
    var hashed: nat
    /** Every job submitted so far, in order. */
    ghost var jobs: seq<HashJob>

    ghost predicate Valid()
      reads this
    {
      && 1 <= limit && pending == |inflight| <= limit
      && InStep(h, jobs, inflight, results, hashed)
      && (forall b | b in spare :: b == [])
    }

    constructor (h: Hashes, piece: nat, threads: nat)
      requires piece > 0
      ensures Valid() && jobs == [] && this.h == h
      ensures Filling(limit, piece, if threads == 0 then 2 else 2 * threads)
    {
      InFlight(piece, if threads == 0 then 2 else 2 * threads);
      hide Filling, Clamp, HashOf, DoneBytes;
      this.h := h;
      limit := Clamp(HASH_BYTES_IN_FLIGHT / piece, 1, if threads == 0 then 2 else 2 * threads);
      pending, inflight, results, spare, hashed, jobs := 0, map[], [], [], 0, [];
    }

    /** The position the next job will take. */
    method Count() returns (n: nat)
      requires Valid()
      ensures n == |jobs|
    {
      n := |results|;
    }

    /** A buffer to read into: a returned one if there is any. It is empty either way. */
    method Buffer() returns (b: Bytes)
      requires Valid()
      modifies `spare
      ensures Valid() && b == []
    {
      hide HashOf, DoneBytes;
      if spare == [] {
        return [];
      }
      b := spare[|spare| - 1];
      assert b in spare;
      var rest := spare[..|spare| - 1];
      assert forall c | c in rest :: c in spare;
      spare := rest;
    }

    method Submit(job: HashJob)
      requires Valid()
      modifies this
      ensures Valid() && jobs == old(jobs) + [job]
    {
      hide InStep;
      while pending >= limit
        invariant Valid() && jobs == old(jobs)
        decreases pending
      {
        Collect();
      }
      SubmitKeeps(h, jobs, inflight, results, hashed, job);
      inflight := inflight[|results| := job];
      results := results + [None];
      pending := pending + 1;
      jobs := jobs + [job];
    }

    /** Receive one result, from whichever worker finishes next. */
    method Collect()
      requires Valid() && pending > 0
      modifies this
      ensures Valid() && jobs == old(jobs) && pending == old(pending) - 1
    {
      hide HashOf, InStep;
      var k :| k in inflight;
      CollectKeeps(h, jobs, inflight, results, hashed, k);
      var job := inflight[k];
      var hashes := Hash(h, job);
      pending := pending - 1;
      inflight := inflight - {k};
      hashed := hashed + |job.data|;
      results := results[k := Some(hashes)];
      spare := spare + [[]];
    }

    /** One result per job, in the order of submission, whatever order the workers kept. */
    method Finish() returns (hs: seq<PieceHashes>)
      requires Valid()
      modifies this
      ensures Valid() && jobs == old(jobs) && pending == 0
      ensures Results(h, jobs, hs) && hashed == JobBytes(jobs)
    {
      hide HashOf, InStep;
      while pending > 0
        invariant Valid() && jobs == old(jobs)
      {
        Collect();
      }
      assert inflight == map[];
      AllBack(h, jobs, results, hashed);
      hs := [];
      for i := 0 to |results|
        invariant |hs| == i && forall k | 0 <= k < i :: hs[k] == HashOf(h, jobs[k])
      {
        hs := hs + [results[i].value];
      }
    }
  }

  // ----- how far the jobs have got through the declared bytes -----

  /** `consumed` bytes are in the jobs, but for those of a version 1 piece still being filled. */
  predicate Streamed(jobs: seq<HashJob>, stream: Bytes, consumed: Bytes, version: Version, piece: nat)
    requires piece > 0
  {
    match version
    case V2Only => stream == [] && V1Pieces(jobs) == []
    case Hybrid => stream == [] && V1Pieces(jobs) == Cut(consumed, piece)
    case V1Only =>
      && |stream| < piece && |stream| <= |consumed|
      && var full := consumed[..|consumed| - |stream|];
         consumed == full + stream && Whole(|full|, piece) && V1Pieces(jobs) == Cut(full, piece)
  }

  lemma OwnStep(jobs: seq<HashJob>, content: Bytes, done: nat, t: Bytes, small: bool, piece: nat, j: HashJob)
    requires piece > 0 && done + |t| <= |content| && t == content[done..done + |t|] && 0 < |t| <= piece
    requires Whole(done, piece) && OwnPieces(jobs, content[..done], small, piece)
    requires j.data == t && j.v2 == Some(small)
    ensures OwnPieces(jobs + [j], content[..done + |t|], small, piece)
    ensures |t| == piece ==> Whole(done + |t|, piece)
  {
    CutSnoc(content[..done], t, piece);
    assert content[..done + |t|] == content[..done] + t;
    assert Datas(jobs + [j]) == Datas(jobs) + [t];
    WholeAdd(done, |t|, piece);
  }

  lemma HybridStep(jobs: seq<HashJob>, c: Bytes, t: Bytes, pad: nat, piece: nat, j: HashJob)
    requires piece > 0 && Streamed(jobs, [], c, Hybrid, piece) && Whole(|c|, piece)
    requires 0 < |t| && |t| + pad <= piece && j.data == t && j.v1 && j.v1Pad == pad
    ensures Streamed(jobs + [j], [], c + t + Zeros(pad), Hybrid, piece)
  {
    CutSnoc(c, t + Zeros(pad), piece);
    assert c + (t + Zeros(pad)) == c + t + Zeros(pad);
    V1Snoc(jobs, j);
  }

  lemma StreamStep(jobs: seq<HashJob>, stream: Bytes, c: Bytes, t: Bytes, piece: nat)
    requires piece > 0 && Streamed(jobs, stream, c, V1Only, piece) && 0 < |t| <= piece - |stream|
    ensures |stream + t| < piece ==> Streamed(jobs, stream + t, c + t, V1Only, piece)
    ensures |stream + t| == piece ==> Streamed(jobs + [HashJob(stream + t, true, 0, None)], [], c + t, V1Only, piece)
  {
    var full := c[..|c| - |stream|];
    var buf := stream + t;
    assert c + t == full + buf && (c + t)[..|c + t| - |buf|] == full;
    if |buf| == piece {
      CutSnoc(full, buf, piece);
      WholeAdd(|full|, piece, piece);
      V1Snoc(jobs, HashJob(buf, true, 0, None));
      assert (full + buf)[..|full + buf|] == full + buf && buf + Zeros(0) == buf;
      assert full + buf == full + buf + [];
    }
  }

  lemma StreamEnds(jobs: seq<HashJob>, stream: Bytes, c: Bytes, piece: nat)
    requires piece > 0 && Streamed(jobs, stream, c, V1Only, piece)
    ensures stream == [] ==> V1Pieces(jobs) == Cut(c, piece)
    ensures stream != [] ==> V1Pieces(jobs + [HashJob(stream, true, 0, None)]) == Cut(c, piece)
  {
    var full := c[..|c| - |stream|];
    if stream != [] {
      CutSnoc(full, stream, piece);
      V1Snoc(jobs, HashJob(stream, true, 0, None));
      assert stream + Zeros(0) == stream;
    } else {
      assert full == c;
    }
  }

  datatype Status = FileRead | FileChanged | Stopped

  /** Bytes of the file list up to `done` bytes into a file, its padding included once it is through. */
  function Upto(before: Bytes, f: SourceFile, done: nat, pad: nat): Bytes
    requires done <= |f.content|
  {
    before + f.content[..done] + Zeros(if done == f.length then pad else 0)
  }

  function OwnPad(f: SourceFile, version: Version, last: bool, piece: nat): nat
    requires piece > 0
  {
    if version == Hybrid && !last then PaddingAfter(f.length, piece) else 0
  }

  /** In the middle of a file, `done` bytes in: `own` are its jobs, `was` those of the files before. */
  ghost predicate Mid(was: seq<HashJob>, own: seq<HashJob>, left: Bytes, before: Bytes, f: SourceFile, done: nat,
                      last: bool, version: Version, piece: nat)
    requires piece > 0 && done <= |f.content|
  {
    && (version != V1Only ==> left == [] && OwnPieces(own, f.content[..done], f.length <= piece, piece))
    && (version != V1Only && done != f.length ==> Whole(done, piece))
    && (version == Hybrid ==> Whole(|before|, piece))
    && Streamed(was + own, left, Upto(before, f, done, OwnPad(f, version, last, piece)), version, piece)
  }

  lemma MidStart(was: seq<HashJob>, left: Bytes, before: Bytes, f: SourceFile, last: bool, version: Version, piece: nat)
    requires piece > 0 && Streamed(was, left, before, version, piece)
    requires version == Hybrid ==> Whole(|before|, piece)
    ensures Mid(was, [], left, before, f, 0, last, version, piece) && |left| < piece
  {
    assert Upto(before, f, 0, OwnPad(f, version, last, piece)) == before;
    assert was + [] == was;
  }

  lemma MidBuffer(was: seq<HashJob>, own: seq<HashJob>, left: Bytes, before: Bytes, f: SourceFile, done: nat,
                  last: bool, version: Version, piece: nat)
    requires piece > 0 && done <= |f.content| && Mid(was, own, left, before, f, done, last, version, piece)
    ensures version != V1Only ==> left == []
  {
  }

  lemma NotWhole(f: SourceFile)
    ensures |f.content| < f.length ==> !Stable(f)
  {
  }

  lemma MidChunk(was: seq<HashJob>, own: seq<HashJob>, before: Bytes, f: SourceFile, done: nat, t: Bytes,
                 last: bool, version: Version, piece: nat, j: HashJob)
    requires piece > 0 && version != V1Only && done < done + |t| <= f.length && done + |t| <= |f.content|
    requires t == f.content[done..done + |t|] && |t| <= piece && (|t| == piece || done + |t| == f.length)
    requires Mid(was, own, [], before, f, done, last, version, piece)
    requires j == HashJob(t, version == Hybrid,
                          if done + |t| == f.length then OwnPad(f, version, last, piece) else 0, Some(f.length <= piece))
    ensures Mid(was, own + [j], [], before, f, done + |t|, last, version, piece)
  {
    OwnStep(own, f.content, done, t, f.length <= piece, piece, j);
    UptoStep(was + own, before, f, done, t, last, version, piece, j);
    assert was + (own + [j]) == was + own + [j];
  }

  lemma MidStream(was: seq<HashJob>, own: seq<HashJob>, left: Bytes, before: Bytes, f: SourceFile, done: nat, t: Bytes,
                  last: bool, piece: nat)
    requires piece > 0 && done < done + |t| <= f.length && done + |t| <= |f.content|
    requires t == f.content[done..done + |t|] && |t| <= piece - |left|
    requires Mid(was, own, left, before, f, done, last, V1Only, piece)
    ensures |left + t| < piece ==> Mid(was, own, left + t, before, f, done + |t|, last, V1Only, piece)
    ensures |left + t| == piece ==>
              Mid(was, own + [HashJob(left + t, true, 0, None)], [], before, f, done + |t|, last, V1Only, piece)
  {
    hide Streamed, OwnPieces, Upto, Zeros, Whole;
    StreamStep(was + own, left, Upto(before, f, done, 0), t, piece);
    UptoGrows(before, f, done, |t|);
    assert was + (own + [HashJob(left + t, true, 0, None)]) == was + own + [HashJob(left + t, true, 0, None)];
  }

  lemma MidEnd(was: seq<HashJob>, own: seq<HashJob>, left: Bytes, before: Bytes, f: SourceFile, last: bool,
               version: Version, piece: nat)
    requires piece > 0 && f.length <= |f.content| && Mid(was, own, left, before, f, f.length, last, version, piece)
    ensures Stable(f) <==> |f.content| == f.length && !f.touched
    ensures Stable(f) ==>
              Streamed(was + own, left, before + f.content + Zeros(OwnPad(f, version, last, piece)), version, piece)
    ensures Stable(f) && version != V1Only ==> OwnPieces(own, f.content, f.length <= piece, piece)
  {
    if Stable(f) {
      assert f.content[..f.length] == f.content;
    }
  }

  lemma UptoGrows(before: Bytes, f: SourceFile, done: nat, want: nat)
    requires done < done + want <= f.length && done + want <= |f.content|
    ensures Upto(before, f, done + want, 0) == Upto(before, f, done, 0) + f.content[done..done + want]
  {
    assert f.content[..done + want] == f.content[..done] + f.content[done..done + want];
  }

  lemma UptoStep(jobs: seq<HashJob>, before: Bytes, f: SourceFile, done: nat, t: Bytes, last: bool,
                 version: Version, piece: nat, j: HashJob)
    requires piece > 0 && version != V1Only && done < done + |t| <= f.length && done + |t| <= |f.content|
    requires t == f.content[done..done + |t|] && Whole(done, piece) && |t| <= piece
    requires version == Hybrid ==> Whole(|before|, piece)
    requires Streamed(jobs, [], Upto(before, f, done, OwnPad(f, version, last, piece)), version, piece)
    requires j.data == t && j.v1 == (version == Hybrid)
    requires j.v1Pad == if done + |t| == f.length then OwnPad(f, version, last, piece) else 0
    ensures Streamed(jobs + [j], [], Upto(before, f, done + |t|, OwnPad(f, version, last, piece)), version, piece)
  {
    var c := before + f.content[..done];
    assert Upto(before, f, done, OwnPad(f, version, last, piece)) == c;
    assert Upto(before, f, done + |t|, OwnPad(f, version, last, piece)) == c + t + Zeros(j.v1Pad);
    if version == Hybrid {
      WholeAdd(|before|, done, piece);
      if done + |t| == f.length && !last {
        PadsLastPiece(done, |t|, piece);
      }
      HybridStep(jobs, c, t, j.v1Pad, piece, j);
    } else {
      V1Snoc(jobs, j);
    }
  }

  /** How often a file is read from, that is, how often the cancel flag is looked at, and how much of a
      piece is filled afterwards; only version 1 pieces run on into the next file. */
  function Reads(length: nat, filled: nat, piece: nat, runsOn: bool): (nat, nat)
    requires filled < piece
    decreases length
  {
    if length == 0 then (0, filled)
    else
      var want := if length < piece - filled then length else piece - filled;
      var (n, after) := Reads(length - want, if runsOn && filled + want < piece then filled + want else 0, piece, runsOn);
      (n + 1, after)
  }

  /** The pieces a stretch of bytes lies in, and where in a piece it ends. */
  lemma {:induction false} ReadsExactly(length: nat, filled: nat, piece: nat)
    requires filled < piece
    ensures Reads(length, filled, piece, true)
         == (if length == 0 then 0 else (filled + length + piece - 1) / piece, (filled + length) % piece)
    ensures Reads(length, 0, piece, false).0 == (length + piece - 1) / piece
    decreases length
  {
    if length == 0 {
      Within(filled, piece);
      Within(piece - 1, piece);
    } else {
      var want := if length < piece - filled then length else piece - filled;
      if length <= piece - filled {
        FirstPiece(filled + length, piece);
      } else {
        ReadsExactly(length - want, 0, piece);
        OnePieceMore(filled + length, piece);
      }
      if length <= piece {
        FirstPiece(length, piece);
      } else {
        ReadsExactly(length - piece, 0, piece);
        OnePieceMore(length, piece);
      }
    }
  }

  lemma Within(n: nat, piece: nat)
    requires n < piece
    ensures n / piece == 0 && n % piece == n
  {
  }

  lemma FirstPiece(n: nat, piece: nat)
    requires 0 < n <= piece
    ensures (n + piece - 1) / piece == 1 && n % piece == if n == piece then 0 else n
  {
    assert n + piece - 1 == piece * 1 + (n - 1);
    QuotientIs(n + piece - 1, piece, 1, n - 1);
  }

  lemma OnePieceMore(n: nat, piece: nat)
    requires 0 < piece < n
    ensures (n + piece - 1) / piece == 1 + (n - piece + piece - 1) / piece
    ensures n % piece == (n - piece) % piece
  {
    var q, r := (n - 1) / piece, (n - 1) % piece;
    assert n - 1 == piece * q + r;
    assert n + piece - 1 == piece * (q + 1) + r;
    QuotientIs(n + piece - 1, piece, q + 1, r);
    var u, v := (n - piece) / piece, (n - piece) % piece;
    assert n - piece == piece * u + v;
    assert n == piece * (u + 1) + v;
    QuotientIs(n, piece, u + 1, v);
  }

  /** How often the first `k` files are read from, and how much of a piece is filled then. */
  function Looks(files: seq<SourceFile>, k: nat, version: Version, piece: nat): (r: (nat, nat))
    requires k <= |files| && piece > 0
    ensures r.1 < piece
  {
    if k == 0 then (0, 0)
    else
      var (n, filled) := Looks(files, k - 1, version, piece);
      FillsLess(files[k - 1].length, filled, piece, version == V1Only);
      var r := Reads(files[k - 1].length, filled, piece, version == V1Only);
      (n + r.0, r.1)
  }

  lemma {:induction false} FillsLess(length: nat, filled: nat, piece: nat, runsOn: bool)
    requires filled < piece
    ensures Reads(length, filled, piece, runsOn).1 < piece
    ensures !runsOn && filled == 0 ==> Reads(length, filled, piece, runsOn).1 == 0
    decreases length
  {
    if length == 0 {
    } else {
      var want := if length < piece - filled then length else piece - filled;
      FillsLess(length - want, if runsOn && filled + want < piece then filled + want else 0, piece, runsOn);
    }
  }

  lemma ReadsTurn(length: nat, filled: nat, piece: nat, runsOn: bool)
    requires filled < piece && length > 0
    ensures var want := if length < piece - filled then length else piece - filled;
            var rest := Reads(length - want, if runsOn && filled + want < piece then filled + want else 0, piece, runsOn);
            Reads(length, filled, piece, runsOn) == (rest.0 + 1, rest.1)
  {
  }

  lemma ReadsNone(filled: nat, piece: nat, runsOn: bool)
    requires filled < piece
    ensures Reads(0, filled, piece, runsOn) == (0, filled)
  {
  }

  lemma {:induction false} LooksGrow(files: seq<SourceFile>, j: nat, k: nat, version: Version, piece: nat)
    requires j <= k <= |files| && piece > 0
    ensures Looks(files, j, version, piece).0 <= Looks(files, k, version, piece).0
    decreases k
  {
    if j == k {
    } else {
      LooksGrow(files, j, k - 1, version, piece);
    }
  }

  lemma LooksNone(files: seq<SourceFile>, version: Version, piece: nat)
    requires piece > 0
    ensures Looks(files, 0, version, piece) == (0, 0)
  {
  }

  lemma LooksTurn(files: seq<SourceFile>, k: nat, version: Version, piece: nat)
    requires k < |files| && piece > 0
    ensures var (n, filled) := Looks(files, k, version, piece);
            var rs := Reads(files[k].length, filled, piece, version == V1Only);
            && Looks(files, k + 1, version, piece) == (n + rs.0, rs.1)
            && n + rs.0 <= Looks(files, |files|, version, piece).0
            && (version != V1Only && filled == 0 ==> rs.1 == 0)
  {
    LooksGrow(files, k + 1, |files|, version, piece);
    FillsLess(files[k].length, Looks(files, k, version, piece).1, piece, version == V1Only);
  }

  /** Read one file piece by piece. `cancelAfter` is the number of looks at the cancel flag before
      it is seen set; `last` tells the last file, after which no padding comes. */
  method ReadFile(p: Pipeline, f: SourceFile, version: Version, last: bool, piece: nat, stream: Bytes,
                  cancelAfter: Option<nat>, polls: nat, ghost before: Bytes)
      returns (status: Status, left: Bytes, polled: nat)
    requires piece > 0 && p.Valid() && Streamed(p.jobs, stream, before, version, piece)
    requires version == Hybrid ==> Whole(|before|, piece)
    requires |stream| < piece && (version != V1Only ==> stream == [])
    requires cancelAfter.Some? ==> polls <= cancelAfter.value
    modifies p
    ensures p.Valid() && |old(p.jobs)| <= |p.jobs| && p.jobs[..|old(p.jobs)|] == old(p.jobs)
    ensures var rs := Reads(f.length, |stream|, piece, version == V1Only);
            && (status == Stopped ==> cancelAfter.Some? && cancelAfter.value < polls + rs.0)
            && (status == FileRead ==> polled == polls + rs.0 && |left| == rs.1)
            && (status == FileRead && cancelAfter.Some? ==> polled <= cancelAfter.value)
    ensures status == FileChanged ==> !Stable(f)
    ensures status == FileRead ==> Stable(f)
    ensures status == FileRead ==>
              Streamed(p.jobs, left, before + f.content + Zeros(OwnPad(f, version, last, piece)), version, piece)
    ensures status == FileRead && version != V1Only ==>
              OwnPieces(p.jobs[|old(p.jobs)|..], f.content, f.length <= piece, piece)
  {
    hide *;
    polled, left := polls, stream;
    var small := f.length <= piece;
    var pad := OwnPad(f, version, last, piece);
    var remaining: nat := f.length;
    ghost var was := p.jobs;
    ghost var own: seq<HashJob> := [];
    MidStart(was, left, before, f, last, version, piece);
    while remaining > 0
      invariant remaining <= f.length && f.length - remaining <= |f.content| && |left| < piece
      invariant version != V1Only ==> left == []
      invariant var (n, filled) := Reads(remaining, |left|, piece, version == V1Only);
                Reads(f.length, |stream|, piece, version == V1Only) == (polled - polls + n, filled)
      invariant polls <= polled && (cancelAfter.Some? ==> polled <= cancelAfter.value)
      invariant p.Valid() && p.jobs == was + own
      invariant Mid(was, own, left, before, f, f.length - remaining, last, version, piece)
    {
      MidBuffer(was, own, left, before, f, f.length - remaining, last, version, piece);
      ReadsTurn(remaining, |left|, piece, version == V1Only);
      if cancelAfter.Some? && cancelAfter.value <= polled {
        return Stopped, left, polled;
      }
      polled := polled + 1;
      var buf: Bytes := left;
      if version != V1Only {
        buf := p.Buffer();
      }
      var want := if remaining < piece - |buf| then remaining else piece - |buf|;
      var start := f.length - remaining;
      if start + want > |f.content| {
        NotWhole(f);
        return FileChanged, left, polled;
      }
      var t := f.content[start..start + want];
      buf := buf + t;
      remaining := remaining - want;
      assert buf == left + t;
      if version != V1Only {
        var job := HashJob(buf, version == Hybrid, if remaining == 0 then pad else 0, Some(small));
        MidChunk(was, own, before, f, start, t, last, version, piece, job);
        p.Submit(job);
        own := own + [job];
        assert p.jobs == was + own;
      } else {
        MidStream(was, own, left, before, f, start, t, last, piece);
        if |buf| == piece {
          p.Submit(HashJob(buf, true, 0, None));
          own := own + [HashJob(buf, true, 0, None)];
          assert p.jobs == was + own;
          left := p.Buffer();
        } else {
          left := buf;
        }
      }
    }
    assert p.jobs[..|was|] == was && p.jobs[|was|..] == own;
    MidEnd(was, own, left, before, f, last, version, piece);
    ReadsNone(|left|, piece, version == V1Only);
    status := if |f.content| == f.length && !f.touched then FileRead else FileChanged;
  }

  // ----- the whole torrent -----

  /** `roots` is empty for a torrent without version 2 data. */
  datatype Created = Created(pieces: seq<Bytes>, list: seq<Entry>, roots: seq<Option<Bytes>>)

  datatype Outcome = Done(torrent: Created) | Changed(index: nat) | Cancelled

  datatype Span = Span(from: nat, to: nat)

  ghost predicate OwnSpan(f: SourceFile, jobs: seq<HashJob>, span: Span, version: Version, piece: nat)
    requires piece > 0
  {
    && span.from <= span.to <= |jobs|
    && (version != V1Only ==> OwnPieces(jobs[span.from..span.to], f.content, f.length <= piece, piece))
  }

  lemma SpanStays(f: SourceFile, jobs: seq<HashJob>, more: seq<HashJob>, span: Span, version: Version, piece: nat)
    requires piece > 0 && jobs <= more && OwnSpan(f, jobs, span, version, piece)
    ensures OwnSpan(f, more, span, version, piece)
  {
    assert more[span.from..span.to] == jobs[span.from..span.to];
  }

  ghost predicate OwnSpans(files: seq<SourceFile>, k: nat, jobs: seq<HashJob>, spans: seq<Span>, version: Version, piece: nat)
    requires piece > 0 && k <= |files|
  {
    |spans| == k && forall i | 0 <= i < k :: Stable(files[i]) && OwnSpan(files[i], jobs, spans[i], version, piece)
  }

  lemma SpansGrow(files: seq<SourceFile>, k: nat, jobs: seq<HashJob>, spans: seq<Span>, version: Version, piece: nat,
                  more: seq<HashJob>)
    requires piece > 0 && k < |files| && OwnSpans(files, k, jobs, spans, version, piece) && jobs <= more
    requires Stable(files[k]) && OwnSpan(files[k], more, Span(|jobs|, |more|), version, piece)
    ensures OwnSpans(files, k + 1, more, spans + [Span(|jobs|, |more|)], version, piece)
  {
    hide OwnSpan, Stable;
    var grown := spans + [Span(|jobs|, |more|)];
    forall i | 0 <= i < k + 1
      ensures Stable(files[i]) && OwnSpan(files[i], more, grown[i], version, piece)
    {
      if i < k {
        SpanStays(files[i], jobs, more, spans[i], version, piece);
      }
    }
  }

  /** The first `k` files are read: their bytes are in the jobs, and each has its own span of them. */
  ghost predicate Through(files: seq<SourceFile>, k: nat, jobs: seq<HashJob>, stream: Bytes, spans: seq<Span>,
                          version: Version, piece: nat)
    requires piece > 0 && k <= |files|
  {
    && OwnSpans(files, k, jobs, spans, version, piece)
    && Streamed(jobs, stream, Declared(files, version, piece, k), version, piece)
  }

  lemma ThroughOne(files: seq<SourceFile>, k: nat, jobs: seq<HashJob>, stream: Bytes, spans: seq<Span>,
                   version: Version, piece: nat, more: seq<HashJob>, left: Bytes)
    requires piece > 0 && k < |files| && Through(files, k, jobs, stream, spans, version, piece)
    requires Stable(files[k]) && jobs <= more
    requires Streamed(more, left,
                      Declared(files, version, piece, k) + files[k].content
                      + Zeros(OwnPad(files[k], version, k + 1 == |files|, piece)), version, piece)
    requires version != V1Only ==> OwnPieces(more[|jobs|..], files[k].content, files[k].length <= piece, piece)
    ensures Through(files, k + 1, more, left, spans + [Span(|jobs|, |more|)], version, piece)
  {
    DeclaredStep(files, version, piece, k);
    assert PadFor(files, version, piece, k) == OwnPad(files[k], version, k + 1 == |files|, piece);
    assert more[|jobs|..|more|] == more[|jobs|..];
    assert OwnSpan(files[k], more, Span(|jobs|, |more|), version, piece);
    hide Streamed, OwnSpans, OwnSpan, Declared, Stable;
    SpansGrow(files, k, jobs, spans, version, piece, more);
  }

  lemma ThroughNone(files: seq<SourceFile>, version: Version, piece: nat)
    requires piece > 0
    ensures Through(files, 0, [], [], [], version, piece)
  {
  }

  lemma ThroughReady(files: seq<SourceFile>, k: nat, jobs: seq<HashJob>, stream: Bytes, spans: seq<Span>,
                     version: Version, piece: nat)
    requires piece > 0 && k < |files| && Through(files, k, jobs, stream, spans, version, piece)
    ensures Streamed(jobs, stream, Declared(files, version, piece, k), version, piece)
    ensures version == Hybrid ==> Whole(|Declared(files, version, piece, k)|, piece)
    ensures forall i | 0 <= i < k :: Stable(files[i])
  {
    if version == Hybrid {
      StartsOnBoundary(files, piece, k);
    }
  }

  /** What the version 1 digests of all jobs, one left-over piece included, amount to. */
  lemma DigestsOfAll(h: Hashes, files: seq<SourceFile>, jobs: seq<HashJob>, stream: Bytes,
                     version: Version, piece: nat, all: seq<HashJob>, hs: seq<PieceHashes>)
    requires piece > 0 && Streamed(jobs, stream, Declared(files, version, piece, |files|), version, piece)
    requires all == jobs + if stream == [] then [] else [HashJob(stream, true, 0, None)]
    requires Results(h, all, hs)
    ensures Firsts(hs) == if version == V2Only then [] else Digests(h.sha1, Cut(Declared(files, version, piece, |files|), piece))
  {
    FirstsAreDigests(h, all, hs);
    var declared := Declared(files, version, piece, |files|);
    hide Declared, Results, Firsts, Cut, Whole;
    assert stream == [] ==> all == jobs;
    if version == V1Only {
      StreamEnds(jobs, stream, declared, piece);
    }
  }

  /** What the results of one file's own jobs say about it. */
  lemma RootOfSpan(h: Hashes, f: SourceFile, all: seq<HashJob>, hs: seq<PieceHashes>, span: Span,
                   version: Version, piece: nat)
    requires piece > 0 && version != V1Only && Stable(f) && OwnSpan(f, all, span, version, piece) && Results(h, all, hs)
    ensures span.from <= span.to <= |hs|
    ensures FileRoot(h, Seconds(hs[span.from..span.to]), f.length <= piece) == PlainRoot(h, f, piece)
  {
    var own, ownHs := all[span.from..span.to], hs[span.from..span.to];
    hide Stable, OwnPieces, FileRoot, PlainRoot, HashOf, Seconds;
    RootIsPlain(h, f, own, ownHs, piece);
  }

  lemma SpanBounds(f: SourceFile, all: seq<HashJob>, span: Span, version: Version, piece: nat)
    requires piece > 0 && OwnSpan(f, all, span, version, piece)
    ensures span.from <= span.to <= |all|
  {
  }

  /** The spans of the files still hold when one left-over version 1 piece is added. */
  lemma SpansOfAll(files: seq<SourceFile>, jobs: seq<HashJob>, spans: seq<Span>, version: Version, piece: nat, all: seq<HashJob>)
    requires piece > 0 && OwnSpans(files, |files|, jobs, spans, version, piece) && jobs <= all
    ensures |spans| == |files|
    ensures forall i | 0 <= i < |files| ::
              Stable(files[i]) && OwnSpan(files[i], all, spans[i], version, piece) && spans[i].from <= spans[i].to <= |all|
  {
    hide OwnSpan, Stable;
    forall i | 0 <= i < |files|
      ensures OwnSpan(files[i], all, spans[i], version, piece) && spans[i].from <= spans[i].to <= |all|
    {
      SpanStays(files[i], jobs, all, spans[i], version, piece);
      SpanBounds(files[i], all, spans[i], version, piece);
    }
  }

  /** What the results of all jobs, one left-over version 1 piece included, say about the torrent. */
  lemma ThroughAll(h: Hashes, files: seq<SourceFile>, jobs: seq<HashJob>, stream: Bytes, spans: seq<Span>,
                   version: Version, piece: nat, all: seq<HashJob>, hs: seq<PieceHashes>)
    requires piece > 0 && Through(files, |files|, jobs, stream, spans, version, piece)
    requires all == jobs + if stream == [] then [] else [HashJob(stream, true, 0, None)]
    requires Results(h, all, hs)
    ensures Firsts(hs) == if version == V2Only then [] else Digests(h.sha1, Cut(Declared(files, version, piece, |files|), piece))
    ensures forall i | 0 <= i < |files| :: Stable(files[i])
    ensures |spans| == |files| && forall i | 0 <= i < |files| :: spans[i].from <= spans[i].to <= |hs|
    ensures version != V1Only ==> forall i | 0 <= i < |files| ::
      FileRoot(h, Seconds(hs[spans[i].from..spans[i].to]), files[i].length <= piece) == PlainRoot(h, files[i], piece)
  {
    hide OwnSpan, OwnSpans, Stable, Streamed, Declared, FileRoot, PlainRoot, HashOf, Seconds, Firsts, Cut;
    DigestsOfAll(h, files, jobs, stream, version, piece, all, hs);
    SpansOfAll(files, jobs, spans, version, piece, all);
    if version != V1Only {
      forall i | 0 <= i < |files|
        ensures FileRoot(h, Seconds(hs[spans[i].from..spans[i].to]), files[i].length <= piece) == PlainRoot(h, files[i], piece)
      {
        RootOfSpan(h, files[i], all, hs, spans[i], version, piece);
      }
    }
  }

  /** The finished torrent is the plain reading of the files: version 1 pieces cut from the declared
      list laid end to end, and per file the root over that file's own pieces. */
  ghost predicate PlainReading(h: Hashes, files: seq<SourceFile>, version: Version, piece: nat, c: Created)
    requires piece > 0
  {
    && c.list == Listing(files, version, piece, |files|)
    && c.pieces == (if version == V2Only then [] else Digests(h.sha1, Cut(Payload(c.list, files), piece)))
    && |c.roots| == (if version == V1Only then 0 else |files|)
    && forall i | 0 <= i < |c.roots| :: c.roots[i] == PlainRoot(h, files[i], piece)
  }

  method CreateOn(h: Hashes, files: seq<SourceFile>, version: Version, piece: nat, threads: nat, cancelAfter: Option<nat>)
      returns (r: Outcome)
    requires piece > 0
    ensures r.Done? ==> PlainReading(h, files, version, piece, r.torrent)
    ensures r.Done? ==> forall i | 0 <= i < |files| :: Stable(files[i])
    ensures r.Changed? ==> r.index < |files| && !Stable(files[r.index]) && forall i | 0 <= i < r.index :: Stable(files[i])
    ensures r.Cancelled? ==> cancelAfter.Some? && cancelAfter.value <= Looks(files, |files|, version, piece).0
    ensures r.Done? ==> cancelAfter.None? || cancelAfter.value > Looks(files, |files|, version, piece).0
  {
    hide *;
    var p := new Pipeline(h, piece, threads);
    var spans: seq<Span> := [];
    var stream: Bytes := [];
    var polls: nat := 0;
    ThroughNone(files, version, piece);
    LooksNone(files, version, piece);
    for k := 0 to |files|
      invariant p.Valid() && p.h == h && Through(files, k, p.jobs, stream, spans, version, piece)
      invariant |spans| == k
      invariant (polls, |stream|) == Looks(files, k, version, piece) && (version != V1Only ==> stream == [])
      invariant cancelAfter.Some? ==> polls <= cancelAfter.value
    {
      ghost var was, before := p.jobs, Declared(files, version, piece, k);
      ThroughReady(files, k, was, stream, spans, version, piece);
      LooksTurn(files, k, version, piece);
      var first := p.Count();
      var status, left, polled := ReadFile(p, files[k], version, k + 1 == |files|, piece, stream, cancelAfter, polls, before);
      if status == Stopped {
        return Cancelled;
      }
      if status == FileChanged {
        return Changed(k);
      }
      ThroughOne(files, k, was, stream, spans, version, piece, p.jobs, left);
      var end := p.Count();
      spans, stream, polls := spans + [Span(first, end)], left, polled;
    }
    ghost var jobs := p.jobs;
    if stream != [] {
      p.Submit(HashJob(stream, true, 0, None));
    } else {
      assert jobs + [] == jobs;
    }
    var hs := p.Finish();
    ThroughAll(h, files, jobs, stream, spans, version, piece, p.jobs, hs);
    if cancelAfter.Some? && cancelAfter.value <= polls {
      return Cancelled;
    }
    var list := BuildList(files, version, piece);
    var roots: seq<Option<Bytes>> := [];
    if version != V1Only {
      for i := 0 to |files|
        invariant |roots| == i && forall j | 0 <= j < i :: roots[j] == PlainRoot(h, files[j], piece)
      {
        roots := roots + [FileRoot(h, Seconds(hs[spans[i].from..spans[i].to]), files[i].length <= piece)];
      }
    }
    r := Done(Created(Firsts(hs), list, roots));
    IsPlain(h, files, version, piece, r.torrent);
  }

  lemma IsPlain(h: Hashes, files: seq<SourceFile>, version: Version, piece: nat, c: Created)
    requires piece > 0 && c.list == Listing(files, version, piece, |files|)
    requires c.pieces
          == if version == V2Only then [] else Digests(h.sha1, Cut(Declared(files, version, piece, |files|), piece))
    requires |c.roots| == (if version == V1Only then 0 else |files|)
    requires forall i | 0 <= i < |c.roots| :: c.roots[i] == PlainRoot(h, files[i], piece)
    ensures PlainReading(h, files, version, piece, c)
  {
  }

  method BuildList(files: seq<SourceFile>, version: Version, piece: nat) returns (list: seq<Entry>)
    requires piece > 0
    ensures list == Listing(files, version, piece, |files|)
  {
    list := [];
    for i := 0 to |files|
      invariant list == Listing(files, version, piece, i)
    {
      list := list + [FileEntry(i)];
      var pad := PaddingAfter(files[i].length, piece);
      if version == Hybrid && pad > 0 && i + 1 < |files| {
        list := list + [PaddingEntry(pad)];
      }
    }
  }
}
