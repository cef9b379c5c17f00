/** The piece scheduler (`task.go`, `process.go`, `dgo_torrent.go`): the byte
    range of each piece, the job list, the request pipeline of
    `downloadPiece`, the handling of one incoming message, the decision a
    worker takes for each job, and the reassembly of the file.

    The three files are revisions of one scheduler and are modelled once. They
    differ in the `propagate` parameter (on a failed read, `task.go` returns the
    error while `process.go` swallows it) and in `dgo_torrent.go`'s
    `peerRoutine`, a stub that takes no job (`StubDownloadBlocks`). `Bitfield.Set`
    is not part of this model and is the `setBit` parameter; SHA-1 is the
    `sha1` parameter. One worker runs sequentially over a job queue. */
module Scheduler {
  import opened Common
  import opened Peer
  import Bitfield

  /** `BLOCKSIZE` and `MAXBACKLOG`. */
  const BlockSize: nat := 16384
  const MaxBacklog: nat := 5

  function Min(a: int, b: int): int
  {
    if a < b then a else b
  }

  // ---------------------------------------------------------------------------
  // getPieceBounds

  datatype Bounds = Bounds(begin: int, end: int)

  /** `getPieceBounds`. */
  function PieceBounds(pieceLength: int, fileLength: int, index: int): Bounds
  {
    var begin := index * pieceLength;
    var end := begin + pieceLength;
    Bounds(begin, if end > fileLength then fileLength else end)
  }

  /** The number of pieces of a file: its length divided by the piece length,
      rounded up. */
  function NumPieces(pieceLength: int, fileLength: int): nat
    requires pieceLength > 0
  {
    if fileLength <= 0 then 0 else (fileLength + pieceLength - 1) / pieceLength
  }

  lemma MulMono(a: int, b: int, c: int)
    requires a <= b && c >= 0
    ensures a * c <= b * c
  {
    assert (b - a) * c >= 0;
  }

  /** Piece `k` starts inside the file exactly when `k` is below the number of
      pieces. */
  lemma StartsInside(pieceLength: int, fileLength: int, k: nat)
    requires pieceLength > 0
    ensures k < NumPieces(pieceLength, fileLength) <==> k * pieceLength < fileLength
  {
    if fileLength > 0 {
      var q := (fileLength + pieceLength - 1) / pieceLength;
      var r := (fileLength + pieceLength - 1) % pieceLength;
      assert fileLength + pieceLength - 1 == q * pieceLength + r && 0 <= r < pieceLength;
      if k < q {
        MulMono(k, q - 1, pieceLength);
        assert (q - 1) * pieceLength == q * pieceLength - pieceLength;
      } else {
        MulMono(q, k, pieceLength);
      }
    } else {
      assert k * pieceLength >= 0;
    }
  }

  /** The ranges of the pieces tile the file: each is non-empty, no longer than
      a piece, and ends where the next one begins; the last ends at the end of
      the file. */
  lemma PieceBoundsTile(pieceLength: int, fileLength: int, i: nat)
    requires pieceLength > 0 && i < NumPieces(pieceLength, fileLength)
    ensures var b := PieceBounds(pieceLength, fileLength, i);
      && 0 <= b.begin < b.end <= fileLength
      && b.end - b.begin <= pieceLength
      && (i + 1 < NumPieces(pieceLength, fileLength) ==> b.end == PieceBounds(pieceLength, fileLength, i + 1).begin)
      && (i + 1 == NumPieces(pieceLength, fileLength) ==> b.end == fileLength)
  {
    StartsInside(pieceLength, fileLength, i);
    StartsInside(pieceLength, fileLength, i + 1);
    assert (i + 1) * pieceLength == i * pieceLength + pieceLength;
  }

  /** Every byte of the file lies in the range of piece `x / pieceLength`. */
  lemma PieceOf(pieceLength: int, fileLength: int, x: int)
    requires pieceLength > 0 && 0 <= x < fileLength
    ensures var i := x / pieceLength; var b := PieceBounds(pieceLength, fileLength, i);
      0 <= i < NumPieces(pieceLength, fileLength) && b.begin <= x < b.end
  {
    var i := x / pieceLength;
    assert x == i * pieceLength + x % pieceLength;
    StartsInside(pieceLength, fileLength, i);
    assert (i + 1) * pieceLength == i * pieceLength + pieceLength;
  }

  /** The ranges of two different pieces do not overlap. */
  lemma PieceBoundsOrdered(pieceLength: int, fileLength: int, i: nat, j: nat)
    requires pieceLength > 0 && i < j < NumPieces(pieceLength, fileLength)
    ensures PieceBounds(pieceLength, fileLength, i).end <= PieceBounds(pieceLength, fileLength, j).begin
  {
    MulMono(i + 1, j, pieceLength);
    assert (i + 1) * pieceLength == i * pieceLength + pieceLength;
  }

  // ---------------------------------------------------------------------------
  // The job list

  /** `TorrentWork` / `pJob` / `pieceTask`. */
  datatype Job = Job(index: int, hash: Bytes, length: int)

  /** `TorrentWorkResult` / `pJobResult` / `pieceResult`. */
  datatype JobResult = JobResult(index: int, data: Bytes)

  /** The length of piece `index`: the extent of its bounds. */
  function PieceSize(pieceLength: int, fileLength: int, index: int): int
  {
    var b := PieceBounds(pieceLength, fileLength, index);
    b.end - b.begin
  }

  /** One job per piece hash, in index order. */
  function JobsOf(pieceLength: int, fileLength: int, pieceHashes: seq<Bytes>): (r: seq<Job>)
    ensures |r| == |pieceHashes|
  {
    seq(|pieceHashes|, i requires 0 <= i < |pieceHashes| => Job(i, pieceHashes[i], PieceSize(pieceLength, fileLength, i)))
  }

  /** The loop that fills the job queue in `Start` / `Download`. */
  method InitJobs(pieceLength: int, fileLength: int, pieceHashes: seq<Bytes>) returns (jobs: seq<Job>)
    ensures jobs == JobsOf(pieceLength, fileLength, pieceHashes)
  {
    jobs := [];
    for index := 0 to |pieceHashes|
      invariant |jobs| == index
      invariant forall i :: 0 <= i < index ==> jobs[i] == Job(i, pieceHashes[i], PieceSize(pieceLength, fileLength, i))
    {
      var b := PieceBounds(pieceLength, fileLength, index);
      jobs := jobs + [Job(index, pieceHashes[index], b.end - b.begin)];
    }
  }

  function TotalLength(jobs: seq<Job>): int
  {
    if jobs == [] then 0 else TotalLength(jobs[..|jobs| - 1]) + jobs[|jobs| - 1].length
  }

  /** The jobs of the first `k` pieces together cover the first
      `min(k * pieceLength, fileLength)` bytes. */
  lemma {:induction false} JobsPrefixLength(pieceLength: int, fileLength: int, pieceHashes: seq<Bytes>, k: nat)
    requires pieceLength > 0 && fileLength >= 0 && k <= |pieceHashes| && k <= NumPieces(pieceLength, fileLength)
    ensures TotalLength(JobsOf(pieceLength, fileLength, pieceHashes)[..k]) == Min(k * pieceLength, fileLength)
  {
    var jobs := JobsOf(pieceLength, fileLength, pieceHashes);
    if k == 0 {
      assert jobs[..0] == [];
    } else {
      JobsPrefixLength(pieceLength, fileLength, pieceHashes, k - 1);
      assert jobs[..k][..k - 1] == jobs[..k - 1];
      StartsInside(pieceLength, fileLength, k - 1);
      assert k * pieceLength == (k - 1) * pieceLength + pieceLength;
    }
  }

  /** With one hash per piece, the job lengths add up to the file length. */
  lemma JobsCoverFile(pieceLength: int, fileLength: int, pieceHashes: seq<Bytes>)
    requires pieceLength > 0 && fileLength >= 0 && |pieceHashes| == NumPieces(pieceLength, fileLength)
    ensures TotalLength(JobsOf(pieceLength, fileLength, pieceHashes)) == fileLength
  {
    var n := |pieceHashes|;
    var jobs := JobsOf(pieceLength, fileLength, pieceHashes);
    JobsPrefixLength(pieceLength, fileLength, pieceHashes, n);
    assert jobs[..n] == jobs;
    StartsInside(pieceLength, fileLength, n);
  }

  // ---------------------------------------------------------------------------
  // Requests

  /** The byte count requested after `k` requests of a piece of `length` bytes. */
  function Requested(length: int, k: nat): int
  {
    Min(k * 16384, length)
  }

  /** `k` requests fit a piece of `length` bytes: each starts inside it. */
  predicate Sendable(length: int, k: nat)
  {
    k == 0 || (k - 1) * 16384 < length
  }

  /** The frame of one REQUEST message. */
  function RequestFrame(index: int, offset: int, length: int): (r: Bytes)
  {
    FrameBytes(NewRequestMsg(index, offset, length)).value
  }

  /** The frames of the first `k` requests of a piece: request `j` asks for
      the block at `j * BlockSize` of `min(BlockSize, remaining)` bytes. */
  function Requests(index: int, length: int, k: nat): (r: Bytes)
    requires Sendable(length, k)
  {
    if k == 0 then []
    else
      var offset := (k - 1) * 16384;
      Requests(index, length, k - 1) + RequestFrame(index, offset, Min(BlockSize, length - offset))
  }

  /** Each request is a 17-byte REQUEST frame that the peer reads back as
      the message `NewRequestMsg` built. */
  lemma RequestFrameReads(index: int, offset: int, length: int, t: Bytes)
    ensures |RequestFrame(index, offset, length)| == 17
    ensures ReadFrame(RequestFrame(index, offset, length) + t) == Ok(Frame(Some(NewRequestMsg(index, offset, length)), t))
  {
    FrameRoundTrip(NewRequestMsg(index, offset, length), t);
  }

  /** Requests are contiguous: each starts where the bytes requested before it
      end, and asks for a non-empty block. */
  lemma RequestsContiguous(length: int, j: nat)
    requires Sendable(length, j + 1)
    ensures Requested(length, j) == j * 16384
    ensures 0 < Min(BlockSize, length - j * 16384) <= BlockSize
    ensures Requested(length, j + 1) == Requested(length, j) + Min(BlockSize, length - j * 16384)
    ensures Requested(length, j + 1) <= length
  {
  }

  /** One more request extends the frames by the next block. */
  lemma RequestsSnoc(index: int, length: int, k: nat)
    requires Sendable(length, k) && Requested(length, k) < length
    ensures Sendable(length, k + 1) && Requested(length, k) == k * 16384
    ensures Requested(length, k + 1) == Requested(length, k) + Min(BlockSize, length - Requested(length, k))
    ensures Requests(index, length, k + 1)
      == Requests(index, length, k) + RequestFrame(index, Requested(length, k), Min(BlockSize, length - Requested(length, k)))
  {
  }

  /** The number of requests sent once one pass of the request loop is over,
      when it starts after `sent` requests with `backlog` of them outstanding:
      none while choked; otherwise one after another while fewer than
      `MAXBACKLOG` are outstanding and the piece is not fully requested. */
  function RequestRound(length: int, choked: bool, backlog: int, sent: nat): (r: nat)
    requires Sendable(length, sent) && backlog <= MaxBacklog
    ensures r >= sent && Sendable(length, r) && backlog + (r - sent) <= MaxBacklog
    ensures choked ==> r == sent
    ensures !choked ==> backlog + (r - sent) == MaxBacklog || Requested(length, r) >= length
    decreases MaxBacklog - backlog
  {
    if choked || backlog >= MaxBacklog || Requested(length, sent) >= length then sent
    else RequestRound(length, false, backlog + 1, sent + 1)
  }

  /** One request of the pass leaves the rest of the pass to send the same
      requests. */
  lemma RequestRoundStep(length: int, backlog: int, sent: nat)
    requires Sendable(length, sent) && backlog < MaxBacklog && Requested(length, sent) < length
    ensures Sendable(length, sent + 1)
    ensures RequestRound(length, false, backlog, sent) == RequestRound(length, false, backlog + 1, sent + 1)
  {
  }

  // ---------------------------------------------------------------------------
  // The state of one job

  /** What `handleMsg` can change: the connection's choke flag and bitfield,
      the byte count, the backlog and the piece buffer. */
  datatype View = View(choked: bool, piecesMap: Bytes, downloaded: int, backlog: int, data: Bytes)

  /** The outcome of handling one message; `readFailed` says the read itself
      failed. */
  datatype Handled = Handled(err: Option<PeerError>, readFailed: bool, view: View)

  /** What is left of the stream `s` after `ReadMsg`: the bytes after the
      frame, or nothing once a short read has consumed them all. */
  function Unread(s: Bytes): (r: Bytes)
    ensures |r| <= |s|
  {
    match ReadFrame(s)
    case Err(_) => []
    case Ok(f) => f.rest
  }

  /** The buffer after Go's `copy(data[offset:], block)`, one byte at a time. */
  function Patch(data: Bytes, offset: nat, block: Bytes): (r: Bytes)
    requires offset + |block| <= |data|
    ensures |r| == |data|
    decreases |block|
  {
    if |block| == 0 then data
    else Patch(data[offset := block[0]], offset + 1, block[1..])
  }

  /** The copied block replaces exactly the bytes at its offset. */
  lemma {:induction false} PatchSlices(data: Bytes, offset: nat, block: Bytes)
    requires offset + |block| <= |data|
    ensures Patch(data, offset, block) == data[..offset] + block + data[offset + |block|..]
    decreases |block|
  {
    if |block| == 0 {
      assert data[..offset] + block + data[offset..] == data;
    } else {
      var d := data[offset := block[0]];
      PatchSlices(d, offset + 1, block[1..]);
      assert d[..offset + 1] == data[..offset] + [block[0]];
      assert d[offset + 1 + |block[1..]|..] == data[offset + |block|..];
      assert [block[0]] + block[1..] == block;
      Associative(data[..offset], [block[0]], block[1..]);
    }
  }

  /** `handleMsg` on the unread bytes `s` of the connection. */
  function HandleStep(index: int, v: View, s: Bytes, propagate: bool, setBit: (Bytes, int) -> Bytes): (r: Handled)
  {
    match ReadFrame(s)
    case Err(e) => Handled(if propagate then Some(e) else None, true, v)
    case Ok(f) =>
      if f.msg.None? then Handled(None, false, v)
      else
        var m := f.msg.value;
        if m.kind == MsgChoke then Handled(None, false, v.(choked := true))
        else if m.kind == MsgUnchoke then Handled(None, false, v.(choked := false))
        else if m.kind == MsgHave then
          match GetHaveIndex(m)
          case Err(e) => Handled(Some(e), false, v)
          case Ok(i) => Handled(None, false, v.(piecesMap := setBit(v.piecesMap, i)))
        else if m.kind == MsgPiece then
          match PieceError(index, |v.data|, m)
          case Some(e) => Handled(Some(e), false, v)
          case None =>
            var offset := FromBE32(m.payload[4..8]);
            var block := m.payload[8..];
            Handled(None, false, v.(downloaded := v.downloaded + |block|, backlog := v.backlog - 1,
                                    data := Patch(v.data, offset, block)))
        else Handled(None, false, v)
  }

  /** A keep-alive, a CHOKE, an UNCHOKE, a HAVE, a PIECE (whose block
      replaces the buffer's bytes at its offset and nothing else), or any
      other message, each with its one effect; a failed read changes nothing and yields the
      read error only when errors propagate. */
  lemma HandleStepEffects(index: int, v: View, s: Bytes, propagate: bool, setBit: (Bytes, int) -> Bytes)
    ensures var h := HandleStep(index, v, s, propagate, setBit);
      && (ReadFrame(s).Err? ==> h.readFailed && h.view == v && h.err == (if propagate then Some(ShortRead) else None))
      && (ReadFrame(s).Ok? ==> !h.readFailed)
      && (ReadFrame(s).Ok? && ReadFrame(s).value.msg.Some? ==>
            var m := ReadFrame(s).value.msg.value;
            && (m.kind == MsgChoke ==> h == Handled(None, false, v.(choked := true)))
            && (m.kind == MsgUnchoke ==> h == Handled(None, false, v.(choked := false)))
            && (m.kind == MsgHave ==>
                  (GetHaveIndex(m).Ok? <==> h.err.None?)
                  && h.view == (if h.err.None? then v.(piecesMap := setBit(v.piecesMap, GetHaveIndex(m).value)) else v))
            && (m.kind == MsgPiece ==>
                  h.err == PieceError(index, |v.data|, m)
                  && (h.err.Some? ==> h.view == v)
                  && (h.err.None? ==>
                        && h.view.choked == v.choked && h.view.piecesMap == v.piecesMap
                        && h.view.downloaded == v.downloaded + |m.payload| - 8
                        && h.view.backlog == v.backlog - 1
                        && var off := FromBE32(m.payload[4..8]);
                           h.view.data == v.data[..off] + m.payload[8..] + v.data[off + |m.payload| - 8..]))
            && (m.kind !in {MsgChoke, MsgUnchoke, MsgHave, MsgPiece} ==> h == Handled(None, false, v)))
      && (ReadFrame(s).Ok? && ReadFrame(s).value.msg.None? ==> h == Handled(None, false, v))
  {
    if ReadFrame(s).Ok? && ReadFrame(s).value.msg.Some? {
      var m := ReadFrame(s).value.msg.value;
      if m.kind == MsgPiece && PieceError(index, |v.data|, m).None? {
        PatchSlices(v.data, FromBE32(m.payload[4..8]), m.payload[8..]);
      }
    }
  }

  /** Handling a message never raises the backlog, never lowers the byte
      count, keeps the buffer's size, only ever returns a read error when
      errors propagate, and changes nothing when it returns an error. */
  lemma HandleStepMonotone(index: int, v: View, s: Bytes, propagate: bool, setBit: (Bytes, int) -> Bytes)
    ensures var h := HandleStep(index, v, s, propagate, setBit);
      && h.view.backlog <= v.backlog
      && h.view.downloaded >= v.downloaded
      && |h.view.data| == |v.data|
      && (h.err == Some(ShortRead) ==> propagate && h.readFailed)
      && (h.readFailed <==> ReadFrame(s).Err?) && (h.readFailed ==> Unread(s) == [])
      && (h.readFailed && h.err.None? ==> !propagate)
      && (h.err.Some? ==> h.view == v)
  {
    var h := HandleStep(index, v, s, propagate, setBit);
    if ReadFrame(s).Ok? && ReadFrame(s).value.msg.Some? {
      var m := ReadFrame(s).value.msg.value;
      if m.kind == MsgPiece && PieceError(index, |v.data|, m).None? {
        var offset := FromBE32(m.payload[4..8]);
        var block := m.payload[8..];
      }
    }
  }

  /** `TorrentWorkState` / `pJobState`. */
  class JobState {
    const index: int
    const conn: PeerConn
    var requested: int
    var downloaded: int
    var backlog: int
    const data: array<byte>

    constructor (index: int, conn: PeerConn, length: nat)
      ensures this.index == index && this.conn == conn
      ensures fresh(data) && data[..] == Zeros(length)
      ensures requested == 0 && downloaded == 0 && backlog == 0
    {
      this.index := index;
      this.conn := conn;
      data := new byte[length](_ => 0);
      requested := 0;
      downloaded := 0;
      backlog := 0;
    }

    function Snapshot(): View
      reads this, conn, data
    {
      View(conn.choked, conn.piecesMap, downloaded, backlog, data[..])
    }

    /** `handleMsg`: one message is read and acted on. */
    method HandleMsg(propagate: bool, setBit: (Bytes, int) -> Bytes) returns (err: Option<PeerError>, readFailed: bool)
      modifies this, conn, conn.conn, data
      ensures var h := HandleStep(index, old(Snapshot()), old(conn.conn.incoming), propagate, setBit);
        err == h.err && readFailed == h.readFailed && Snapshot() == h.view
      ensures conn.conn.incoming == Unread(old(conn.conn.incoming))
      ensures conn.conn.outgoing == old(conn.conn.outgoing) && requested == old(requested)
    {
      var msg := conn.ReadMsg();
      if msg.Err? {
        if propagate {
          return Some(msg.error), true;
        }
        return None, true;
      }
      if msg.value.None? {
        return None, false;
      }
      var m := msg.value.value;
      if m.kind == MsgChoke {
        conn.choked := true;
      } else if m.kind == MsgUnchoke {
        conn.choked := false;
      } else if m.kind == MsgHave {
        var have := GetHaveIndex(m);
        if have.Err? {
          return Some(have.error), false;
        }
        conn.piecesMap := setBit(conn.piecesMap, have.value);
      } else if m.kind == MsgPiece {
        var n, e := CopyPieceData(index, data, m);
        if e.Some? {
          return e, false;
        }
        PatchSlices(old(data[..]), FromBE32(m.payload[4..8]), m.payload[8..]);
        downloaded := downloaded + n;
        backlog := backlog - 1;
      }
      return None, false;
    }

    /** One pass of the request loop: the next block is requested. */
    method SendRequest(length: int, ghost base: Bytes, ghost k: nat)
      requires Sendable(length, k) && requested == Requested(length, k) && requested < length
      requires conn.conn.outgoing == base + Requests(index, length, k)
      modifies this, conn.conn
      ensures Sendable(length, k + 1) && requested == Requested(length, k + 1)
      ensures conn.conn.outgoing == base + Requests(index, length, k + 1)
      ensures backlog == old(backlog) + 1 && downloaded == old(downloaded)
      ensures conn.conn.incoming == old(conn.conn.incoming)
    {
      var blockLength := BlockSize;
      if length - requested < blockLength {
        blockLength := length - requested;
      }
      RequestsSnoc(index, length, k);
      ghost var frame := RequestFrame(index, requested, blockLength);
      Associative(base, Requests(index, length, k), frame);
      var msg := NewRequestMsg(index, requested, blockLength);
      var written, err := conn.WriteMsg(Some(msg));
      assert conn.conn.outgoing == base + Requests(index, length, k) + frame;
      backlog := backlog + 1;
      requested := requested + blockLength;
    }

    /** The request loop of `downloadPiece`: while unchoked, requests go out
        until five are outstanding or the whole piece is requested. `sent`
        counts the requests of this piece so far; `base` is what the
        connection had written before the first. */
    method RequestBlocks(length: int, ghost base: Bytes, ghost sent: nat) returns (ghost sent': nat)
      requires Sendable(length, sent) && requested == Requested(length, sent) && backlog <= MaxBacklog
      requires conn.conn.outgoing == base + Requests(index, length, sent)
      modifies this, conn.conn
      ensures Sendable(length, sent') && requested == Requested(length, sent') && sent' >= sent
      ensures conn.conn.outgoing == base + Requests(index, length, sent')
      ensures backlog == old(backlog) + (sent' - sent) && backlog <= MaxBacklog
      ensures conn.choked ==> sent' == sent
      ensures !conn.choked ==> backlog == MaxBacklog || requested >= length
      ensures downloaded == old(downloaded) && conn.conn.incoming == old(conn.conn.incoming)
      ensures sent' == RequestRound(length, conn.choked, old(backlog), sent)
    {
      sent' := sent;
      if !conn.choked {
        while backlog < MaxBacklog && requested < length
          invariant Sendable(length, sent') && requested == Requested(length, sent') && sent' >= sent
          invariant conn.conn.outgoing == base + Requests(index, length, sent')
          invariant backlog == old(backlog) + (sent' - sent) && backlog <= MaxBacklog
          invariant RequestRound(length, false, backlog, sent') == RequestRound(length, false, old(backlog), sent)
          invariant downloaded == old(downloaded) && conn.conn.incoming == old(conn.conn.incoming)
          decreases length - requested
        {
          RequestRoundStep(length, backlog, sent');
          SendRequest(length, base, sent');
          sent' := sent' + 1;
        }
      }
    }

    /** The loop of `downloadPiece` on a fresh job: requests go out and
        messages are handled until the piece is complete or a message ends
        it. */
    method Fetch(length: int, propagate: bool, setBit: (Bytes, int) -> Bytes) returns (r: Download, ghost sent: nat)
      requires length >= 0 && requested == 0 && backlog <= MaxBacklog
      modifies this, conn, conn.conn, data
      ensures var run := DownloadRun(index, length, old(Snapshot()), 0, old(conn.conn.incoming), false, propagate, setBit);
        && r == run.outcome && sent == run.sent && Snapshot() == run.last && conn.conn.incoming == run.rest
      ensures Sendable(length, sent) && conn.conn.outgoing == old(conn.conn.outgoing) + Requests(index, length, sent)
    {
      ghost var base := conn.conn.outgoing;
      ghost var run := DownloadRun(index, length, Snapshot(), 0, conn.conn.incoming, false, propagate, setBit);
      sent := 0;
      // Set once a read has failed and been swallowed: from then on every
      // read fails and changes nothing, so only the next round of requests
      // still goes out.
      var stalled := false;
      while downloaded < length
        invariant Sendable(length, sent) && requested == Requested(length, sent)
        invariant conn.conn.outgoing == base + Requests(index, length, sent)
        invariant backlog <= MaxBacklog
        invariant DownloadRun(index, length, Snapshot(), sent, conn.conn.incoming, stalled, propagate, setBit) == run
        decreases |conn.conn.incoming| + (if stalled then 0 else 1)
      {
        ghost var v0 := Snapshot();
        ghost var s := conn.conn.incoming;
        ghost var sent0 := sent;
        sent := RequestBlocks(length, base, sent);
        ghost var v := Snapshot();
        assert sent == RequestRound(length, v0.choked, v0.backlog, sent0);
        assert v == v0.(backlog := v0.backlog + (sent - sent0));
        if stalled {
          DownloadRunStalled(index, length, v0, sent0, s, propagate, setBit);
          return Stalled, sent;
        }
        DownloadRunStep(index, length, v0, sent0, s, propagate, setBit, sent, v);
        DownloadOnNext(index, length, sent, v, s, propagate, setBit);
        var err, readFailed := HandleMsg(propagate, setBit);
        if err.Some? {
          return Failed(err.value), sent;
        }
        stalled := readFailed;
      }
      DownloadRunDone(index, length, Snapshot(), sent, conn.conn.incoming, stalled, propagate, setBit);
      r := Piece(JobResult(index, data[..]));
    }
  }

  // ---------------------------------------------------------------------------
  // downloadPiece

  /** How `downloadPiece` ends. `Stalled` is the loop of `process.go` that,
      once a read has failed and been swallowed, reads and fails forever. */
  datatype Download = Piece(result: JobResult) | Failed(error: PeerError) | Stalled

  /** Where `downloadPiece` ends: its outcome, the number of requests sent,
      the state it ends in, and the bytes of the connection left unread. */
  datatype Run = Run(outcome: Download, sent: nat, last: View, rest: Bytes)

  /** The state of a fresh job on a connection: nothing downloaded, nothing
      outstanding, a zeroed buffer of the piece's length. */
  function StartView(choked: bool, piecesMap: Bytes, length: nat): View
  {
    View(choked, piecesMap, 0, 0, Zeros(length))
  }

  /** The loop of `downloadPiece` from a state `v` with `sent` requests sent
      and the stream `s` unread: once the piece is complete it is the result;
      otherwise one pass of requests goes out and, unless a read has already
      failed and been swallowed (`stalled`, after which every read fails and
      changes nothing), one message is handled. */
  function DownloadRun(index: int, length: int, v: View, sent: nat, s: Bytes, stalled: bool,
                       propagate: bool, setBit: (Bytes, int) -> Bytes): Run
    requires Sendable(length, sent) && v.backlog <= MaxBacklog
    decreases |s| + (if stalled then 0 else 1), 1
  {
    if v.downloaded >= length then Run(Piece(JobResult(index, v.data)), sent, v, s)
    else
      var sent' := RequestRound(length, v.choked, v.backlog, sent);
      var v' := v.(backlog := v.backlog + (sent' - sent));
      if stalled then Run(Stalled, sent', v', s)
      else DownloadOn(index, length, sent', v', s, propagate, setBit)
  }

  /** The rest of the loop from the message handling of a pass: an error from
      the message ends the download in the state the message left. */
  function DownloadOn(index: int, length: int, sent: nat, v: View, s: Bytes,
                      propagate: bool, setBit: (Bytes, int) -> Bytes): Run
    requires Sendable(length, sent) && v.backlog <= MaxBacklog
    decreases |s| + 1, 0
  {
    var h := HandleStep(index, v, s, propagate, setBit);
    HandleStepMonotone(index, v, s, propagate, setBit);
    if h.err.Some? then Run(Failed(h.err.value), sent, h.view, Unread(s))
    else DownloadRun(index, length, h.view, sent, Unread(s), h.readFailed, propagate, setBit)
  }

  /** One pass of the loop of a download that is neither complete nor
      stalled: the requests of the pass, then the message handling. The
      caller names the pass's request count `sent'` and the state `w` after
      the requests. */
  lemma DownloadRunStep(index: int, length: int, v: View, sent: nat, s: Bytes,
                        propagate: bool, setBit: (Bytes, int) -> Bytes, sent': nat, w: View)
    requires Sendable(length, sent) && v.backlog <= MaxBacklog && v.downloaded < length
    requires sent' == RequestRound(length, v.choked, v.backlog, sent)
    requires w == v.(backlog := v.backlog + (sent' - sent))
    ensures Sendable(length, sent') && w.backlog <= MaxBacklog
    ensures DownloadRun(index, length, v, sent, s, false, propagate, setBit)
            == DownloadOn(index, length, sent', w, s, propagate, setBit)
  {
  }

  /** The message handling of a pass ends the download on the message's
      error or goes on from the state it left. */
  lemma DownloadOnNext(index: int, length: int, sent: nat, v: View, s: Bytes,
                       propagate: bool, setBit: (Bytes, int) -> Bytes)
    requires Sendable(length, sent) && v.backlog <= MaxBacklog
    ensures var h := HandleStep(index, v, s, propagate, setBit);
      && h.view.backlog <= MaxBacklog
      && (h.err.Some? ==> DownloadOn(index, length, sent, v, s, propagate, setBit)
                            == Run(Failed(h.err.value), sent, h.view, Unread(s)))
      && (h.err.None? ==> DownloadOn(index, length, sent, v, s, propagate, setBit)
                            == DownloadRun(index, length, h.view, sent, Unread(s), h.readFailed, propagate, setBit))
  {
    HandleStepMonotone(index, v, s, propagate, setBit);
  }

  /** A download whose byte count has reached the length returns its buffer. */
  lemma DownloadRunDone(index: int, length: int, v: View, sent: nat, s: Bytes, stalled: bool,
                        propagate: bool, setBit: (Bytes, int) -> Bytes)
    requires Sendable(length, sent) && v.backlog <= MaxBacklog && v.downloaded >= length
    ensures DownloadRun(index, length, v, sent, s, stalled, propagate, setBit)
            == Run(Piece(JobResult(index, v.data)), sent, v, s)
  {
  }

  /** A stalled download sends its last round of requests and stops. */
  lemma DownloadRunStalled(index: int, length: int, v: View, sent: nat, s: Bytes,
                           propagate: bool, setBit: (Bytes, int) -> Bytes)
    requires Sendable(length, sent) && v.backlog <= MaxBacklog && v.downloaded < length
    ensures var sent' := RequestRound(length, v.choked, v.backlog, sent);
      DownloadRun(index, length, v, sent, s, true, propagate, setBit)
        == Run(Stalled, sent', v.(backlog := v.backlog + (sent' - sent)), s)
  {
  }

  /** The bounds `downloadPiece` keeps, for a run from state `v` after `sent`
      requests: at most `MAXBACKLOG` requests outstanding, the requests within
      the piece, the buffer's size, and a byte count that only grows. A piece
      is returned only once the byte count reaches the length, and it is the
      buffer; an abort happens before that; the download stalls only when read
      errors are swallowed, and a read error is returned only when they are
      not. */
  predicate RunEnds(index: int, length: int, v: View, sent: nat, propagate: bool, run: Run)
  {
    && run.sent >= sent && Sendable(length, run.sent) && Requested(length, run.sent) <= length
    && run.last.backlog <= MaxBacklog
    && |run.last.data| == |v.data| && run.last.downloaded >= v.downloaded
    && (run.outcome.Piece? ==> run.outcome.result == JobResult(index, run.last.data) && run.last.downloaded >= length)
    && (run.outcome.Failed? ==> run.last.downloaded < length)
    && (run.outcome.Stalled? ==> !propagate && run.rest == [])
    && (run.outcome == Failed(ShortRead) ==> propagate)
  }

  /** The bounds of a run from a later state hold from an earlier one. */
  lemma RunEndsCarry(index: int, length: int, v: View, w: View, sent: nat, sent': nat, propagate: bool, run: Run)
    requires RunEnds(index, length, w, sent', propagate, run)
    requires sent' >= sent && |w.data| == |v.data| && w.downloaded >= v.downloaded
    ensures RunEnds(index, length, v, sent, propagate, run)
  {
  }

  /** Whatever the messages, `downloadPiece` keeps its bounds. */
  lemma {:induction false} DownloadRunEnds(index: int, length: int, v: View, sent: nat, s: Bytes, stalled: bool,
                                           propagate: bool, setBit: (Bytes, int) -> Bytes)
    requires Sendable(length, sent) && v.backlog <= MaxBacklog
    requires stalled ==> !propagate && s == []
    ensures RunEnds(index, length, v, sent, propagate, DownloadRun(index, length, v, sent, s, stalled, propagate, setBit))
    decreases |s| + (if stalled then 0 else 1), 1
  {
    if v.downloaded < length {
      var sent' := RequestRound(length, v.choked, v.backlog, sent);
      var v' := v.(backlog := v.backlog + (sent' - sent));
      if stalled {
        DownloadRunStalled(index, length, v, sent, s, propagate, setBit);
      } else {
        DownloadRunStep(index, length, v, sent, s, propagate, setBit, sent', v');
        DownloadOnEnds(index, length, sent', v', s, propagate, setBit);
        RunEndsCarry(index, length, v, v', sent, sent', propagate, DownloadOn(index, length, sent', v', s, propagate, setBit));
      }
    }
  }

  /** The same bounds from the message handling of a pass of a download that
      is not complete. */
  lemma {:induction false} DownloadOnEnds(index: int, length: int, sent: nat, v: View, s: Bytes,
                                          propagate: bool, setBit: (Bytes, int) -> Bytes)
    requires Sendable(length, sent) && v.backlog <= MaxBacklog && v.downloaded < length
    ensures RunEnds(index, length, v, sent, propagate, DownloadOn(index, length, sent, v, s, propagate, setBit))
    decreases |s| + 1, 0
  {
    var h := HandleStep(index, v, s, propagate, setBit);
    HandleStepMonotone(index, v, s, propagate, setBit);
    DownloadOnNext(index, length, sent, v, s, propagate, setBit);
    if h.err.None? {
      DownloadRunEnds(index, length, h.view, sent, Unread(s), h.readFailed, propagate, setBit);
      RunEndsCarry(index, length, v, h.view, sent, sent, propagate,
                   DownloadRun(index, length, h.view, sent, Unread(s), h.readFailed, propagate, setBit));
    }
  }

  /** What the first message does to a download that is not complete: a
      failed read aborts it with the read error when errors propagate and
      stalls it when they are swallowed; a HAVE that `GetHaveIndex` rejects
      and a PIECE that `CopyPieceData` rejects abort it with their error. */
  lemma DownloadRunAborts(index: int, length: int, v: View, sent: nat, s: Bytes,
                          propagate: bool, setBit: (Bytes, int) -> Bytes)
    requires Sendable(length, sent) && v.backlog <= MaxBacklog && v.downloaded < length
    ensures var run := DownloadRun(index, length, v, sent, s, false, propagate, setBit);
      && (ReadFrame(s).Err? ==> run.outcome == (if propagate then Failed(ShortRead) else Stalled))
      && (ReadFrame(s).Ok? && ReadFrame(s).value.msg.Some? ==>
            var m := ReadFrame(s).value.msg.value;
            && (m.kind == MsgHave && GetHaveIndex(m).Err? ==> run.outcome == Failed(GetHaveIndex(m).error))
            && (m.kind == MsgPiece && PieceError(index, |v.data|, m).Some? ==>
                  run.outcome == Failed(PieceError(index, |v.data|, m).value)))
  {
    var sent' := RequestRound(length, v.choked, v.backlog, sent);
    var v' := v.(backlog := v.backlog + (sent' - sent));
    var h := HandleStep(index, v', s, propagate, setBit);
    HandleStepMonotone(index, v', s, propagate, setBit);
    if ReadFrame(s).Err? && !propagate {
      assert h.view == v' && Unread(s) == [];
      var sent'' := RequestRound(length, v'.choked, v'.backlog, sent');
      assert DownloadRun(index, length, v', sent', [], true, propagate, setBit).outcome == Stalled;
    }
  }

  /** `downloadPiece`: the run of its loop over the connection's unread
      bytes. The requests it writes are the first `sent` blocks of the piece,
      in order; a piece it returns has the job's index and length. */
  method DownloadPiece(conn: PeerConn, job: Job, propagate: bool, setBit: (Bytes, int) -> Bytes) returns (r: Download, ghost sent: nat)
    requires job.length >= 0
    modifies conn, conn.conn
    ensures var run := DownloadRun(job.index, job.length, StartView(old(conn.choked), old(conn.piecesMap), job.length),
                                   0, old(conn.conn.incoming), false, propagate, setBit);
      && r == run.outcome && sent == run.sent
      && conn.choked == run.last.choked && conn.piecesMap == run.last.piecesMap && conn.conn.incoming == run.rest
    ensures Sendable(job.length, sent) && Requested(job.length, sent) <= job.length
    ensures conn.conn.outgoing == old(conn.conn.outgoing) + Requests(job.index, job.length, sent)
    ensures r.Piece? ==> r.result.index == job.index && |r.result.data| == job.length
    ensures r.Stalled? ==> !propagate && conn.conn.incoming == []
    ensures r.Failed? && r.error == ShortRead ==> propagate
  {
    var state := new JobState(job.index, conn, job.length);
    ghost var v := state.Snapshot();
    assert v == StartView(conn.choked, conn.piecesMap, job.length);
    r, sent := state.Fetch(job.length, propagate, setBit);
    DownloadRunEnds(job.index, job.length, v, 0, old(conn.conn.incoming), false, propagate, setBit);
  }

  // ---------------------------------------------------------------------------
  // peerRoutine

  /** `checkPiece`. */
  function CheckPiece(job: Job, res: JobResult, sha1: Bytes -> Bytes): bool
  {
    sha1(res.data) == job.hash
  }

  /** What a worker does with one job: emit its result, put it back, put it
      back and quit, or hang in a stalled download. */
  datatype Decision = Emit(result: JobResult) | Requeue | RequeueAndQuit | Hang

  /** What the job loop reads and changes of a connection: its choke flag, the
      peer's bitfield and the bytes not yet read. */
  datatype Link = Link(choked: bool, piecesMap: Bytes, incoming: Bytes)

  function LinkOf(conn: PeerConn): Link
    reads conn, conn.conn
  {
    Link(conn.choked, conn.piecesMap, conn.conn.incoming)
  }

  /** The download of `job` on a connection in state `l`. */
  function JobRun(job: Job, l: Link, propagate: bool, setBit: (Bytes, int) -> Bytes): Run
    requires job.length >= 0
  {
    DownloadRun(job.index, job.length, StartView(l.choked, l.piecesMap, job.length), 0, l.incoming, false, propagate, setBit)
  }

  /** The decision on a job and the connection after it. */
  datatype Turn = Turn(decision: Decision, after: Link)

  /** One pass of the job loop of `peerRoutine` on `job`: a piece the peer
      does not have goes back at once; otherwise it is downloaded, an error
      puts it back and quits, a stalled download hangs, and a downloaded piece
      is emitted when its hash matches and put back when it does not. */
  function Take(job: Job, l: Link, propagate: bool, setBit: (Bytes, int) -> Bytes, sha1: Bytes -> Bytes): Turn
    requires job.length >= 0
  {
    if !Bitfield.Test(l.piecesMap, job.index) then Turn(Requeue, l)
    else
      var run := JobRun(job, l, propagate, setBit);
      var after := Link(run.last.choked, run.last.piecesMap, run.rest);
      match run.outcome
      case Failed(_) => Turn(RequeueAndQuit, after)
      case Stalled => Turn(Hang, after)
      case Piece(res) => Turn(if CheckPiece(job, res, sha1) then Emit(res) else Requeue, after)
  }

  /** Each decision happens exactly in its case: a job the peer lacks is put
      back and nothing changes; otherwise the worker quits exactly when the
      download fails, hangs exactly when it stalls, which needs swallowed read
      errors, and emits a result for the job's piece, of the job's length,
      whose hash matches. */
  lemma TakeCases(job: Job, l: Link, propagate: bool, setBit: (Bytes, int) -> Bytes, sha1: Bytes -> Bytes)
    requires job.length >= 0
    ensures var t := Take(job, l, propagate, setBit, sha1);
      var run := JobRun(job, l, propagate, setBit);
      && (!Bitfield.Test(l.piecesMap, job.index) ==> t == Turn(Requeue, l))
      && (Bitfield.Test(l.piecesMap, job.index) ==>
            && (t.decision == RequeueAndQuit <==> run.outcome.Failed?)
            && (t.decision == Hang <==> run.outcome.Stalled?)
            && (t.decision == Requeue <==> run.outcome.Piece? && !CheckPiece(job, run.outcome.result, sha1)))
      && (t.decision.Emit? ==>
            && Bitfield.Test(l.piecesMap, job.index) && run.outcome == Piece(t.decision.result)
            && t.decision.result.index == job.index && |t.decision.result.data| == job.length
            && CheckPiece(job, t.decision.result, sha1))
      && (t.decision.Hang? ==> !propagate)
  {
    DownloadRunEnds(job.index, job.length, StartView(l.choked, l.piecesMap, job.length), 0, l.incoming, false, propagate, setBit);
  }

  /** The body of the job loop of `peerRoutine`. */
  method TakeJob(conn: PeerConn, job: Job, propagate: bool, setBit: (Bytes, int) -> Bytes, sha1: Bytes -> Bytes) returns (d: Decision)
    requires job.length >= 0
    modifies conn, conn.conn
    ensures var t := Take(job, old(LinkOf(conn)), propagate, setBit, sha1);
      d == t.decision && LinkOf(conn) == t.after
    ensures old(conn.conn.outgoing) <= conn.conn.outgoing
    ensures !Bitfield.Test(old(conn.piecesMap), job.index) ==>
      d == Requeue && conn.conn.outgoing == old(conn.conn.outgoing) && conn.conn.incoming == old(conn.conn.incoming)
    ensures d.Emit? ==>
      && Bitfield.Test(old(conn.piecesMap), job.index)
      && d.result.index == job.index && |d.result.data| == job.length && CheckPiece(job, d.result, sha1)
    ensures d.Hang? ==> !propagate
  {
    ghost var l := LinkOf(conn);
    TakeCases(job, l, propagate, setBit, sha1);
    if !Bitfield.Test(conn.piecesMap, job.index) {
      return Requeue;
    }
    var res, sent := DownloadPiece(conn, job, propagate, setBit);
    match res
    case Failed(_) =>
      return RequeueAndQuit;
    case Stalled =>
      return Hang;
    case Piece(result) =>
      if !CheckPiece(job, result, sha1) {
        return Requeue;
      }
      return Emit(result);
  }

  /** Where a worker's job loop ends: the results it sent, the jobs it emitted
      them for, its decisions in order, the queue it leaves, the job it holds
      when it hangs, and its connection. */
  datatype Routine = Routine(results: seq<JobResult>, emitted: seq<Job>, decisions: seq<Decision>,
                             rest: seq<Job>, held: seq<Job>, link: Link)

  /** `r` after passes that sent `results` for the jobs `emitted` with
      `decisions`. */
  function Prepend(results: seq<JobResult>, emitted: seq<Job>, decisions: seq<Decision>, r: Routine): Routine
  {
    r.(results := results + r.results, emitted := emitted + r.emitted, decisions := decisions + r.decisions)
  }

  /** The pass of a worker as a value: `Take` with the worker's settings. */
  function Worker(propagate: bool, setBit: (Bytes, int) -> Bytes, sha1: Bytes -> Bytes): (Job, Link) -> Turn
  {
    (j: Job, l: Link) => if j.length >= 0 then Take(j, l, propagate, setBit, sha1) else Turn(Requeue, l)
  }

  /** The job loop of `peerRoutine` for at most `rounds` passes over the queue
      `queue`, each taking the job at the front with `take` (a `Worker`). A
      job put back goes to the end. The loop stops when the queue is empty,
      after `rounds` passes, on a failed download and in a stalled one. */
  function JobLoop(queue: seq<Job>, l: Link, rounds: nat, take: (Job, Link) -> Turn): Routine
    decreases rounds, 1
  {
    if queue == [] || rounds == 0 then Routine([], [], [], queue, [], l)
    else JobPass(queue, take(queue[0], l), rounds, take)
  }

  /** The rest of the job loop once the pass on the job at the front of
      `queue` has turned out `t`. */
  function JobPass(queue: seq<Job>, t: Turn, rounds: nat, take: (Job, Link) -> Turn): Routine
    requires queue != [] && rounds > 0
    decreases rounds, 0
  {
    var job := queue[0];
    match t.decision
    case Requeue => Prepend([], [], [Requeue], JobLoop(queue[1..] + [job], t.after, rounds - 1, take))
    case Emit(res) => Prepend([res], [job], [t.decision], JobLoop(queue[1..], t.after, rounds - 1, take))
    case RequeueAndQuit => Routine([], [], [RequeueAndQuit], queue[1..] + [job], [], t.after)
    case Hang => Routine([], [], [Hang], queue[1..], [job], t.after)
  }

  /** What the job loop needs of its passes: an emitted result is for the
      job's piece, of its length, with its hash, and a pass hangs only when
      read errors are swallowed. */
  ghost predicate Sound(take: (Job, Link) -> Turn, propagate: bool, sha1: Bytes -> Bytes)
  {
    forall j: Job, l: Link :: j.length >= 0 ==>
      var d := take(j, l).decision;
      && (d.Emit? ==> d.result.index == j.index && |d.result.data| == j.length && CheckPiece(j, d.result, sha1))
      && (d.Hang? ==> !propagate)
  }

  /** A worker's passes are sound, and on a job of the queue a worker pass
      is `Take`. */
  lemma WorkerSound(propagate: bool, setBit: (Bytes, int) -> Bytes, sha1: Bytes -> Bytes)
    ensures Sound(Worker(propagate, setBit, sha1), propagate, sha1)
    ensures forall j: Job, l: Link :: j.length >= 0 ==>
      Worker(propagate, setBit, sha1)(j, l) == Take(j, l, propagate, setBit, sha1)
  {
    forall j: Job, l: Link | j.length >= 0
      ensures var d := Worker(propagate, setBit, sha1)(j, l).decision;
        && (d.Emit? ==> d.result.index == j.index && |d.result.data| == j.length && CheckPiece(j, d.result, sha1))
        && (d.Hang? ==> !propagate)
    {
      TakeCases(j, l, propagate, setBit, sha1);
    }
  }

  /** The results of the `Emit` decisions, in order. */
  function Emitted(decisions: seq<Decision>): seq<JobResult>
  {
    if decisions == [] then []
    else (if decisions[0].Emit? then [decisions[0].result] else []) + Emitted(decisions[1..])
  }

  lemma {:induction false} EmittedAppend(a: seq<Decision>, b: seq<Decision>)
    ensures Emitted(a + b) == Emitted(a) + Emitted(b)
  {
    if a == [] {
      assert a + b == b;
    } else {
      assert (a + b)[0] == a[0];
      assert (a + b)[1..] == a[1..] + b;
      EmittedAppend(a[1..], b);
      Associative(if a[0].Emit? then [a[0].result] else [], Emitted(a[1..]), Emitted(b));
    }
  }

  lemma PrependAssociates(r1: seq<JobResult>, e1: seq<Job>, d1: seq<Decision>,
                          r2: seq<JobResult>, e2: seq<Job>, d2: seq<Decision>, r: Routine)
    ensures Prepend(r1, e1, d1, Prepend(r2, e2, d2, r)) == Prepend(r1 + r2, e1 + e2, d1 + d2, r)
  {
    Associative(r1, r2, r.results);
    Associative(e1, e2, r.emitted);
    Associative(d1, d2, r.decisions);
  }

  /** How the jobs of a queue are shared out when its front job is put back
      (`Requeue`), emitted (`Emit`), put back as the worker quits
      (`RequeueAndQuit`) or held by a hanging worker (`Hang`). */
  lemma JobsRequeue<T>(q: seq<T>, rest: seq<T>, em: seq<T>, held: seq<T>)
    requires q != [] && multiset(q[1..] + [q[0]]) == multiset(rest) + multiset(em) + multiset(held)
    ensures multiset(q) == multiset(rest) + multiset(em) + multiset(held)
  {
    assert q == [q[0]] + q[1..];
  }

  lemma JobsEmit<T>(q: seq<T>, rest: seq<T>, em: seq<T>, held: seq<T>)
    requires q != [] && multiset(q[1..]) == multiset(rest) + multiset(em) + multiset(held)
    ensures multiset(q) == multiset(rest) + multiset([q[0]] + em) + multiset(held)
  {
    assert q == [q[0]] + q[1..];
  }

  lemma JobsQuit<T>(q: seq<T>)
    requires q != []
    ensures multiset(q) == multiset(q[1..] + [q[0]]) + multiset{} + multiset{}
  {
    assert q == [q[0]] + q[1..];
  }

  lemma JobsHang<T>(q: seq<T>)
    requires q != []
    ensures multiset(q) == multiset(q[1..]) + multiset{} + multiset([q[0]])
  {
    assert q == [q[0]] + q[1..];
  }

  /** No job is lost: the queue's jobs are those left, those emitted and the
      one, at most, that a hanging worker holds. */
  lemma {:induction false} JobLoopJobs(queue: seq<Job>, l: Link, rounds: nat, take: (Job, Link) -> Turn)
    ensures var r := JobLoop(queue, l, rounds, take);
      && multiset(queue) == multiset(r.rest) + multiset(r.emitted) + multiset(r.held)
      && |r.held| <= 1
    decreases rounds, 2
  {
    if queue != [] && rounds > 0 {
      JobPassJobs(queue, take(queue[0], l), rounds, take);
    }
  }

  /** The same after the pass on the front job has turned out `t`. */
  lemma {:induction false} JobPassJobs(queue: seq<Job>, t: Turn, rounds: nat, take: (Job, Link) -> Turn)
    requires queue != [] && rounds > 0
    ensures var r := JobPass(queue, t, rounds, take);
      && multiset(queue) == multiset(r.rest) + multiset(r.emitted) + multiset(r.held)
      && |r.held| <= 1
    decreases rounds, 1
  {
    match t.decision
    case Requeue =>
      RequeueJobs(queue, t, rounds, take);
    case Emit(res) =>
      EmitJobs(queue, t, rounds, take);
    case RequeueAndQuit =>
      JobsQuit(queue);
    case Hang =>
      JobsHang(queue);
  }

  lemma {:induction false} RequeueJobs(queue: seq<Job>, t: Turn, rounds: nat, take: (Job, Link) -> Turn)
    requires queue != [] && rounds > 0 && t.decision == Requeue
    ensures var r := JobPass(queue, t, rounds, take);
      && multiset(queue) == multiset(r.rest) + multiset(r.emitted) + multiset(r.held)
      && |r.held| <= 1
    decreases rounds, 0
  {
    var r' := JobLoop(queue[1..] + [queue[0]], t.after, rounds - 1, take);
    JobLoopJobs(queue[1..] + [queue[0]], t.after, rounds - 1, take);
    JobsRequeue(queue, r'.rest, r'.emitted, r'.held);
  }

  lemma {:induction false} EmitJobs(queue: seq<Job>, t: Turn, rounds: nat, take: (Job, Link) -> Turn)
    requires queue != [] && rounds > 0 && t.decision.Emit?
    ensures var r := JobPass(queue, t, rounds, take);
      && multiset(queue) == multiset(r.rest) + multiset(r.emitted) + multiset(r.held)
      && |r.held| <= 1
    decreases rounds, 0
  {
    var r' := JobLoop(queue[1..], t.after, rounds - 1, take);
    JobLoopJobs(queue[1..], t.after, rounds - 1, take);
    JobsEmit(queue, r'.rest, r'.emitted, r'.held);
  }

  /** Every result is right: the results are the `Emit` decisions, one per
      emitted job, each for that job's piece, of its length and with its
      hash; a worker holds a job only when it hangs, which needs swallowed
      read errors. */
  lemma {:induction false} JobLoopResults(queue: seq<Job>, l: Link, rounds: nat, take: (Job, Link) -> Turn,
                                          propagate: bool, sha1: Bytes -> Bytes)
    requires forall j :: j in queue ==> j.length >= 0
    requires Sound(take, propagate, sha1)
    ensures var r := JobLoop(queue, l, rounds, take);
      && r.results == Emitted(r.decisions) && |r.results| == |r.emitted|
      && (forall i :: 0 <= i < |r.results| ==>
            r.results[i].index == r.emitted[i].index && |r.results[i].data| == r.emitted[i].length
            && CheckPiece(r.emitted[i], r.results[i], sha1))
      && (r.held != [] ==> !propagate)
    decreases rounds
  {
    if queue != [] && rounds > 0 {
      var r := JobLoop(queue, l, rounds, take);
      var job := queue[0];
      var t := take(job, l);
      assert r == JobPass(queue, t, rounds, take);
      assert job in queue;
      match t.decision
      case Requeue =>
        var q' := queue[1..] + [job];
        var r' := JobLoop(q', t.after, rounds - 1, take);
        assert r.results == r'.results && r.emitted == r'.emitted && r.held == r'.held
          && r.decisions == [Requeue] + r'.decisions;
        assert forall j :: j in q' ==> j in queue;
        JobLoopResults(q', t.after, rounds - 1, take, propagate, sha1);
        EmittedAppend([Requeue], r'.decisions);
      case Emit(res) =>
        var r' := JobLoop(queue[1..], t.after, rounds - 1, take);
        assert r.results == [res] + r'.results && r.emitted == [job] + r'.emitted && r.held == r'.held
          && r.decisions == [t.decision] + r'.decisions;
        assert forall j :: j in queue[1..] ==> j in queue;
        JobLoopResults(queue[1..], t.after, rounds - 1, take, propagate, sha1);
        EmittedAppend([t.decision], r'.decisions);
        forall i | 0 <= i < |r.results|
          ensures r.results[i].index == r.emitted[i].index && |r.results[i].data| == r.emitted[i].length
                  && CheckPiece(r.emitted[i], r.results[i], sha1)
        {
          if i > 0 {
            assert r.results[i] == r'.results[i - 1] && r.emitted[i] == r'.emitted[i - 1];
          }
        }
      case RequeueAndQuit =>
        assert r.results == [] && r.emitted == [] && r.held == [] && r.decisions == [RequeueAndQuit];
      case Hang =>
        assert r.results == [] && r.emitted == [] && r.decisions == [Hang];
    }
  }

  /** The loop stops only for its four reasons, and every pass before the
      last went on: the queue is empty, or all `rounds` passes are used, or
      the last decision quit or hung; a worker holds a job exactly when it
      hung. */
  lemma {:induction false} JobLoopStops(queue: seq<Job>, l: Link, rounds: nat, take: (Job, Link) -> Turn)
    ensures var r := JobLoop(queue, l, rounds, take);
      var n := |r.decisions|;
      && n <= rounds
      && (forall i :: 0 <= i < n - 1 ==> r.decisions[i].Emit? || r.decisions[i] == Requeue)
      && (r.rest == [] || n == rounds || (n > 0 && r.decisions[n - 1] in {RequeueAndQuit, Hang}))
      && (r.held != [] <==> n > 0 && r.decisions[n - 1] == Hang)
    decreases rounds
  {
    if queue != [] && rounds > 0 {
      var job := queue[0];
      var t := take(job, l);
      match t.decision
      case Requeue =>
        var r' := JobLoop(queue[1..] + [job], t.after, rounds - 1, take);
        JobLoopStops(queue[1..] + [job], t.after, rounds - 1, take);
        assert forall i :: 1 <= i < |r'.decisions| + 1 ==> ([Requeue] + r'.decisions)[i] == r'.decisions[i - 1];
      case Emit(res) =>
        var r' := JobLoop(queue[1..], t.after, rounds - 1, take);
        JobLoopStops(queue[1..], t.after, rounds - 1, take);
        assert forall i :: 1 <= i < |r'.decisions| + 1 ==> ([t.decision] + r'.decisions)[i] == r'.decisions[i - 1];
      case RequeueAndQuit =>
      case Hang =>
    }
  }

  /** One pass of the job loop, as a worker that has kept the results,
      emitted jobs and decisions of the passes before it sees it: the pass's
      turn `t` either leaves a loop on the rest of the queue, or ends it. */
  lemma JobLoopStep(results: seq<JobResult>, emitted: seq<Job>, decisions: seq<Decision>, queue: seq<Job>,
                    l: Link, rounds: nat, take: (Job, Link) -> Turn, t: Turn, full: Routine)
    requires queue != [] && rounds > 0 && t == take(queue[0], l)
    requires Prepend(results, emitted, decisions, JobLoop(queue, l, rounds, take)) == full
    ensures t.decision == Requeue ==>
      Prepend(results, emitted, decisions + [Requeue],
              JobLoop(queue[1..] + [queue[0]], t.after, rounds - 1, take)) == full
    ensures t.decision.Emit? ==>
      Prepend(results + [t.decision.result], emitted + [queue[0]], decisions + [t.decision],
              JobLoop(queue[1..], t.after, rounds - 1, take)) == full
    ensures t.decision == RequeueAndQuit ==>
      full == Routine(results, emitted, decisions + [RequeueAndQuit], queue[1..] + [queue[0]], [], t.after)
    ensures t.decision == Hang ==>
      full == Routine(results, emitted, decisions + [Hang], queue[1..], [queue[0]], t.after)
  {
    match t.decision
    case Requeue =>
      PrependAssociates(results, emitted, decisions, [], [], [Requeue],
                        JobLoop(queue[1..] + [queue[0]], t.after, rounds - 1, take));
    case Emit(res) =>
      PrependAssociates(results, emitted, decisions, [res], [queue[0]], [t.decision],
                        JobLoop(queue[1..], t.after, rounds - 1, take));
    case RequeueAndQuit =>
    case Hang =>
  }

  /** `peerRoutine` for one worker over the job queue, once connected: it
      writes INTERESTED, then runs the job loop. No job is lost: the queue's
      jobs are those left, those emitted, and the one a hanging worker
      holds. */
  method PeerRoutine(conn: PeerConn, queue: seq<Job>, rounds: nat, propagate: bool,
                     setBit: (Bytes, int) -> Bytes, sha1: Bytes -> Bytes)
    returns (results: seq<JobResult>, rest: seq<Job>, ghost emitted: seq<Job>, ghost held: seq<Job>,
             ghost decisions: seq<Decision>)
    requires forall j :: j in queue ==> j.length >= 0
    modifies conn, conn.conn
    ensures var r := JobLoop(queue, old(LinkOf(conn)), rounds, Worker(propagate, setBit, sha1));
      && results == r.results && emitted == r.emitted && decisions == r.decisions
      && rest == r.rest && held == r.held && LinkOf(conn) == r.link
    ensures old(conn.conn.outgoing) + FrameBytes(PeerMsg(MsgInterested, [])).value <= conn.conn.outgoing
    ensures multiset(queue) == multiset(rest) + multiset(emitted) + multiset(held)
    ensures results == Emitted(decisions) && |results| == |emitted|
    ensures forall i :: 0 <= i < |results| ==>
      results[i].index == emitted[i].index && |results[i].data| == emitted[i].length && CheckPiece(emitted[i], results[i], sha1)
    ensures |held| <= 1 && (held != [] ==> !propagate)
  {
    var written, err := conn.WriteMsg(Some(PeerMsg(MsgInterested, [])));
    ghost var full := JobLoop(queue, LinkOf(conn), rounds, Worker(propagate, setBit, sha1));
    WorkerSound(propagate, setBit, sha1);
    JobLoopJobs(queue, LinkOf(conn), rounds, Worker(propagate, setBit, sha1));
    JobLoopResults(queue, LinkOf(conn), rounds, Worker(propagate, setBit, sha1), propagate, sha1);
    results, rest, emitted, held, decisions := RunJobs(conn, queue, rounds, propagate, setBit, sha1);
  }

  /** The job loop of `peerRoutine`. */
  method RunJobs(conn: PeerConn, queue: seq<Job>, rounds: nat, propagate: bool,
                 setBit: (Bytes, int) -> Bytes, sha1: Bytes -> Bytes)
    returns (results: seq<JobResult>, rest: seq<Job>, ghost emitted: seq<Job>, ghost held: seq<Job>,
             ghost decisions: seq<Decision>)
    requires forall j :: j in queue ==> j.length >= 0
    modifies conn, conn.conn
    ensures JobLoop(queue, old(LinkOf(conn)), rounds, Worker(propagate, setBit, sha1))
            == Routine(results, emitted, decisions, rest, held, LinkOf(conn))
    ensures old(conn.conn.outgoing) <= conn.conn.outgoing
  {
    ghost var take := Worker(propagate, setBit, sha1);
    ghost var full := JobLoop(queue, LinkOf(conn), rounds, take);
    ghost var sentSoFar := conn.conn.outgoing;
    rest := queue;
    results := [];
    emitted := [];
    decisions := [];
    held := [];
    var n := 0;
    while rest != [] && n < rounds
      invariant n <= rounds
      invariant forall j :: j in rest ==> j.length >= 0
      invariant Prepend(results, emitted, decisions, JobLoop(rest, LinkOf(conn), rounds - n, take)) == full
      invariant sentSoFar <= conn.conn.outgoing
      decreases rounds - n
    {
      var job := rest[0];
      ghost var l := LinkOf(conn);
      ghost var before := conn.conn.outgoing;
      var d := TakeJob(conn, job, propagate, setBit, sha1);
      JobLoopStep(results, emitted, decisions, rest, l, rounds - n, take, Turn(d, LinkOf(conn)), full);
      PrefixTrans(sentSoFar, before, conn.conn.outgoing);
      FrontIn(rest);
      n := n + 1;
      match d
      case Requeue =>
        rest := rest[1..] + [job];
        decisions := decisions + [Requeue];
      case RequeueAndQuit =>
        rest := rest[1..] + [job];
        decisions := decisions + [RequeueAndQuit];
        return;
      case Hang =>
        rest := rest[1..];
        held := [job];
        decisions := decisions + [Hang];
        return;
      case Emit(res) =>
        rest := rest[1..];
        results := results + [res];
        emitted := emitted + [job];
        decisions := decisions + [d];
    }
  }

  lemma PrefixTrans<T>(a: seq<T>, b: seq<T>, c: seq<T>)
    requires a <= b && b <= c
    ensures a <= c
  {
    assert a == c[..|a|] by {
      assert b[..|a|] == c[..|a|];
    }
  }

  /** A queue's jobs after its front job are the queue's, whether or not that
      job goes back at the end. */
  lemma FrontIn<T>(q: seq<T>)
    requires q != []
    ensures forall x :: x in q[1..] ==> x in q
    ensures forall x :: x in q[1..] + [q[0]] ==> x in q
  {
  }

  // ---------------------------------------------------------------------------
  // Reassembly

  /** How the reassembly loop ends: with the file, blocked on a result that
      never comes, or in the panic of slicing out of the buffer. */
  datatype Assembly = Assembled(buf: Bytes) | Blocked | SliceOutOfRange(index: int)

  /** `copy(buf[begin:end], res.data)`. */
  function Place(pieceLength: int, buf: Bytes, res: JobResult): (r: Assembly)
  {
    var b := PieceBounds(pieceLength, |buf|, res.index);
    if !(0 <= b.begin <= b.end <= |buf|) then SliceOutOfRange(res.index)
    else
      var n := Min(b.end - b.begin, |res.data|);
      Assembled(buf[..b.begin] + res.data[..n] + buf[b.begin + n..])
  }

  /** The results copied one after the other. */
  function Fill(pieceLength: int, buf: Bytes, rs: seq<JobResult>): (r: Assembly)
  {
    if rs == [] then Assembled(buf)
    else
      match Fill(pieceLength, buf, rs[..|rs| - 1])
      case Assembled(b) => Place(pieceLength, b, rs[|rs| - 1])
      case other => other
  }

  /** The reassembly loop of `Start` / `Download` over the results as they
      arrive: exactly `count` of them are copied into a zeroed buffer of the
      file's length. */
  function AssemblyOf(pieceLength: int, fileLength: nat, count: nat, results: seq<JobResult>): Assembly
  {
    var m := Min(count, |results|);
    match Fill(pieceLength, Zeros(fileLength), results[..m])
    case Assembled(b) => if |results| < count then Blocked else Assembled(b)
    case other => other
  }

  /** `copy(buf[begin:end], res.data)` in place; `false` is the panic of a
      slice out of the buffer. */
  method PlaceInto(pieceLength: int, buf: array<byte>, res: JobResult) returns (ok: bool)
    modifies buf
    ensures ok <==> Place(pieceLength, old(buf[..]), res).Assembled?
    ensures ok ==> Place(pieceLength, old(buf[..]), res) == Assembled(buf[..])
    ensures !ok ==> buf[..] == old(buf[..])
  {
    ghost var before := buf[..];
    var b := PieceBounds(pieceLength, buf.Length, res.index);
    if !(0 <= b.begin <= b.end <= buf.Length) {
      return false;
    }
    var n := Min(b.end - b.begin, |res.data|);
    var copied := Copy(buf, b.begin, res.data[..n]);
    assert res.data[..n][..copied] == res.data[..n];
    assert buf[..] == before[..b.begin] + res.data[..n] + before[b.begin + n..];
    return true;
  }

  /** The reassembly loop. */
  method Reassemble(pieceLength: int, fileLength: nat, count: nat, results: seq<JobResult>) returns (buf: array<byte>, a: Assembly)
    ensures fresh(buf) && buf.Length == fileLength
    ensures a == AssemblyOf(pieceLength, fileLength, count, results)
    ensures a.Assembled? ==> buf[..] == a.buf
  {
    buf := new byte[fileLength](_ => 0);
    assert buf[..] == Zeros(fileLength);
    var received := 0;
    while received < count
      invariant received <= count && received <= |results|
      invariant buf.Length == fileLength
      invariant Fill(pieceLength, Zeros(fileLength), results[..received]) == Assembled(buf[..])
      decreases count - received
    {
      if received >= |results| {
        assert results[..Min(count, |results|)] == results[..received];
        return buf, Blocked;
      }
      var res := results[received];
      FillStep(pieceLength, Zeros(fileLength), results, received);
      var ok := PlaceInto(pieceLength, buf, res);
      if !ok {
        ghost var m := Min(count, |results|);
        assert results[..m][..received] == results[..received];
        SliceFailureSticks(pieceLength, Zeros(fileLength), results[..m], received);
        return buf, SliceOutOfRange(res.index);
      }
      received := received + 1;
    }
    assert results[..Min(count, |results|)] == results[..received];
    a := Assembled(buf[..]);
  }

  lemma FillStep(pieceLength: int, buf: Bytes, rs: seq<JobResult>, k: nat)
    requires k < |rs|
    ensures Fill(pieceLength, buf, rs[..k + 1])
      == match Fill(pieceLength, buf, rs[..k])
         case Assembled(b) => Place(pieceLength, b, rs[k])
         case other => other
  {
    assert rs[..k + 1][..k] == rs[..k];
  }

  /** A failure in a prefix of the results is the failure of the whole. */
  lemma {:induction false} FillFailureSticks(pieceLength: int, buf: Bytes, rs: seq<JobResult>, k: nat)
    requires k <= |rs| && !Fill(pieceLength, buf, rs[..k]).Assembled?
    ensures Fill(pieceLength, buf, rs) == Fill(pieceLength, buf, rs[..k])
    decreases |rs|
  {
    if k < |rs| {
      assert rs[..|rs| - 1][..k] == rs[..k];
      FillFailureSticks(pieceLength, buf, rs[..|rs| - 1], k);
    } else {
      assert rs[..k] == rs;
    }
  }

  /** A result whose range falls outside the buffer stops the reassembly at
      it. */
  lemma SliceFailureSticks(pieceLength: int, buf: Bytes, rs: seq<JobResult>, k: nat)
    requires k < |rs| && Fill(pieceLength, buf, rs[..k]).Assembled?
    requires var b := PieceBounds(pieceLength, |Fill(pieceLength, buf, rs[..k]).buf|, rs[k].index);
      !(0 <= b.begin <= b.end <= |Fill(pieceLength, buf, rs[..k]).buf|)
    ensures Fill(pieceLength, buf, rs) == SliceOutOfRange(rs[k].index)
  {
    assert rs[..k + 1][..k] == rs[..k];
    FillFailureSticks(pieceLength, buf, rs, k + 1);
  }

  /** `out` holds the data of `res` in the range of its piece. */
  predicate Holds(pieceLength: int, out: Bytes, res: JobResult)
  {
    var b := PieceBounds(pieceLength, |out|, res.index);
    0 <= b.begin <= b.end <= |out| && out[b.begin..b.end] == res.data
  }

  /** Writing `d` at `at` leaves a range it does not overlap as it was. */
  lemma Untouched(out: Bytes, at: nat, d: Bytes, lo: nat, hi: nat)
    requires at + |d| <= |out| && lo <= hi <= |out|
    requires hi <= at || at + |d| <= lo
    ensures (out[..at] + d + out[at + |d|..])[lo..hi] == out[lo..hi]
  {
    var out' := out[..at] + d + out[at + |d|..];
    assert |out'| == |out|;
    assert forall x :: lo <= x < hi ==> out'[x] == out[x];
  }

  /** Copying a result for a piece of its length into `out` puts its data
      in its range and keeps every other piece's data where it was. */
  lemma PlaceKeeps(pieceLength: int, out: Bytes, last: JobResult, prevs: seq<JobResult>)
    requires pieceLength > 0
    requires 0 <= last.index < NumPieces(pieceLength, |out|) && |last.data| == PieceSize(pieceLength, |out|, last.index)
    requires forall r :: r in prevs ==>
      0 <= r.index < NumPieces(pieceLength, |out|) && r.index != last.index && Holds(pieceLength, out, r)
    ensures Place(pieceLength, out, last).Assembled?
    ensures var out' := Place(pieceLength, out, last).buf;
      |out'| == |out| && Holds(pieceLength, out', last)
      && forall r :: r in prevs ==> Holds(pieceLength, out', r)
  {
    PlaceWrites(pieceLength, out, last);
    var bl := PieceBounds(pieceLength, |out|, last.index);
    var out' := out[..bl.begin] + last.data + out[bl.begin + |last.data|..];
    forall r | r in prevs
      ensures Holds(pieceLength, out', r)
    {
      KeepsOther(pieceLength, out, last, r);
    }
  }

  lemma PlaceWrites(pieceLength: int, out: Bytes, last: JobResult)
    requires pieceLength > 0
    requires 0 <= last.index < NumPieces(pieceLength, |out|) && |last.data| == PieceSize(pieceLength, |out|, last.index)
    ensures var bl := PieceBounds(pieceLength, |out|, last.index);
      var out' := out[..bl.begin] + last.data + out[bl.begin + |last.data|..];
      Place(pieceLength, out, last) == Assembled(out') && |out'| == |out| && Holds(pieceLength, out', last)
  {
    var bl := PieceBounds(pieceLength, |out|, last.index);
    PieceBoundsTile(pieceLength, |out|, last.index);
    var out' := out[..bl.begin] + last.data + out[bl.begin + |last.data|..];
    assert out'[bl.begin..bl.end] == last.data;
  }

  lemma KeepsOther(pieceLength: int, out: Bytes, last: JobResult, r: JobResult)
    requires pieceLength > 0
    requires 0 <= last.index < NumPieces(pieceLength, |out|) && |last.data| == PieceSize(pieceLength, |out|, last.index)
    requires 0 <= r.index < NumPieces(pieceLength, |out|) && r.index != last.index && Holds(pieceLength, out, r)
    ensures var bl := PieceBounds(pieceLength, |out|, last.index);
      Holds(pieceLength, out[..bl.begin] + last.data + out[bl.begin + |last.data|..], r)
  {
    var bl := PieceBounds(pieceLength, |out|, last.index);
    var br := PieceBounds(pieceLength, |out|, r.index);
    PieceBoundsTile(pieceLength, |out|, last.index);
    if r.index < last.index {
      PieceBoundsOrdered(pieceLength, |out|, r.index, last.index);
    } else {
      PieceBoundsOrdered(pieceLength, |out|, last.index, r.index);
    }
    Untouched(out, bl.begin, last.data, br.begin, br.end);
  }

  /** Results for distinct pieces of the file, each with the data length of
      its piece, are all copied, and each ends up in the range of its piece:
      later copies never overwrite earlier ones. */
  lemma {:induction false} FillPlaces(pieceLength: int, buf: Bytes, rs: seq<JobResult>)
    requires pieceLength > 0
    requires forall r :: r in rs ==>
      0 <= r.index < NumPieces(pieceLength, |buf|) && |r.data| == PieceSize(pieceLength, |buf|, r.index)
    requires forall j, k :: 0 <= j < k < |rs| ==> rs[j].index != rs[k].index
    ensures Fill(pieceLength, buf, rs).Assembled? && |Fill(pieceLength, buf, rs).buf| == |buf|
    ensures forall r :: r in rs ==> Holds(pieceLength, Fill(pieceLength, buf, rs).buf, r)
    decreases |rs|
  {
    if rs != [] {
      var pre := rs[..|rs| - 1];
      var last := rs[|rs| - 1];
      assert forall r :: r in pre ==> r in rs;
      FillPlaces(pieceLength, buf, pre);
      var out := Fill(pieceLength, buf, pre).buf;
      forall r | r in pre
        ensures r.index != last.index
      {
        var j :| 0 <= j < |pre| && pre[j] == r;
        assert rs[j] == r;
      }
      PlaceKeeps(pieceLength, out, last, pre);
      TakeLast(rs);
    }
  }

  /** The file is assembled from exactly `count` results: one for every
      piece, each with its piece's length, place every piece at its range. */
  lemma Assembles(pieceLength: int, fileLength: nat, count: nat, results: seq<JobResult>)
    requires pieceLength > 0 && |results| >= count
    requires forall j :: 0 <= j < count ==>
      0 <= results[j].index < NumPieces(pieceLength, fileLength)
      && |results[j].data| == PieceSize(pieceLength, fileLength, results[j].index)
    requires forall j, k :: 0 <= j < k < count ==> results[j].index != results[k].index
    ensures AssemblyOf(pieceLength, fileLength, count, results).Assembled?
    ensures var out := AssemblyOf(pieceLength, fileLength, count, results).buf;
      |out| == fileLength && forall j :: 0 <= j < count ==> Holds(pieceLength, out, results[j])
  {
    var rs := results[..count];
    assert Min(count, |results|) == count;
    assert forall j :: 0 <= j < count ==> rs[j] == results[j];
    FillPlaces(pieceLength, Zeros(fileLength), rs);
  }

  /** `dgo_torrent.go`'s `peerRoutine` never produces a result, so the
      reassembly loop of `Download` blocks for ever whenever there is a piece. */
  lemma StubDownloadBlocks(pieceLength: int, fileLength: nat, count: nat)
    requires count > 0
    ensures AssemblyOf(pieceLength, fileLength, count, []) == Blocked
  {
    var none: seq<JobResult> := [];
    assert none[..0] == none;
  }
}
