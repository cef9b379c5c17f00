/** The peer wire protocol (`peer.go`): compact peer lists, length-prefixed
    message frames, the handshake and its check, the first BITFIELD frame, and
    the HAVE / REQUEST / PIECE payloads.

    A TCP connection is a `Stream`: the bytes still to be read and the bytes
    written so far. Dialling, deadlines and write errors of the socket are not
    modelled. */
module Peer {
  import opened Common

  const IpLen: nat := 4
  const PortLen: nat := 2
  /** `PEER_LEN`: one compact peer entry. */
  const PeerLen: nat := 6
  const PeerIdLen: nat := 20
  const InfoHashLen: nat := 20

  /** `PeerMsgTyep` values. */
  const MsgChoke: byte := 0
  const MsgUnchoke: byte := 1
  const MsgInterested: byte := 2
  const MsgNotInterested: byte := 3
  const MsgHave: byte := 4
  const MsgBitfield: byte := 5
  const MsgRequest: byte := 6
  const MsgPiece: byte := 7
  const MsgCancel: byte := 8
  const MsgKeepAlive: byte := 9
  const MsgInvalid: byte := 10

  /** `Peer`. */
  datatype PeerAddr = PeerAddr(ip: Bytes, port: uint16)

  /** `PeerMsg`: a type byte and its payload. */
  datatype PeerMsg = PeerMsg(kind: byte, payload: Bytes)

  /** The errors of this file. `ShortRead` is `io.ReadFull` reaching the end of
      the stream; `LengthOverflow` is the runtime panic of `WriteMsg` when the
      32-bit frame size wraps around. */
  datatype PeerError =
    | ShortRead
    | TypeOutOfRange
    | LengthOverflow
    | ExpectedBitfield
    | NotBitfield
    | ZeroPreLen
    | InfoHashMismatch
    | ExpectedPiece
    | PayloadTooShort
    | IndexMismatch
    | OffsetTooHigh
    | DataTooLarge
    | ExpectedHave
    | BadHaveLength

  datatype Res<+T> = Ok(value: T) | Err(error: PeerError)

  // ---------------------------------------------------------------------------
  // Byte buffers

  /** Go's `copy(dst[at:], src)`: as many bytes as fit, and their number. */
  method Copy(dst: array<byte>, at: nat, src: Bytes) returns (n: nat)
    requires at <= dst.Length
    modifies dst
    ensures n == if dst.Length - at < |src| then dst.Length - at else |src|
    ensures dst[..] == old(dst[..at]) + src[..n] + old(dst[at + n..])
  {
    n := if dst.Length - at < |src| then dst.Length - at else |src|;
    for i := 0 to n
      invariant forall j :: 0 <= j < dst.Length ==> dst[j] == if at <= j < at + i then src[j - at] else old(dst[j])
    {
      dst[at + i] := src[i];
    }
    assert dst[..] == old(dst[..at]) + src[..n] + old(dst[at + n..]);
  }

  /** `binary.BigEndian.PutUint32(dst[at:at+4], v)`. */
  method PutUint32(dst: array<byte>, at: nat, v: uint32)
    requires at + 4 <= dst.Length
    modifies dst
    ensures dst[..] == old(dst[..at]) + BE32(v) + old(dst[at + 4..])
  {
    var b := BE32(v);
    dst[at], dst[at + 1], dst[at + 2], dst[at + 3] := b[0], b[1], b[2], b[3];
    assert dst[..] == old(dst[..at]) + BE32(v) + old(dst[at + 4..]);
  }

  /** A connection: the bytes not yet read, and everything written. */
  class Stream {
    var incoming: Bytes
    var outgoing: Bytes

    constructor (incoming: Bytes)
      ensures this.incoming == incoming && outgoing == []
    {
      this.incoming := incoming;
      outgoing := [];
    }

    /** `io.ReadFull` of `n` bytes: a short stream is consumed entirely and
        yields an error. */
    method ReadFull(n: nat) returns (r: Res<Bytes>)
      modifies this
      ensures |old(incoming)| < n ==> r == Err(ShortRead) && incoming == []
      ensures |old(incoming)| >= n ==> r == Ok(old(incoming)[..n]) && incoming == old(incoming)[n..]
      ensures outgoing == old(outgoing)
    {
      if |incoming| < n {
        incoming := [];
        return Err(ShortRead);
      }
      r := Ok(incoming[..n]);
      incoming := incoming[n..];
    }

    /** `Write`: the bytes are appended to what the peer receives. */
    method Write(b: Bytes)
      modifies this
      ensures outgoing == old(outgoing) + b && incoming == old(incoming)
    {
      outgoing := outgoing + b;
    }
  }

  // ---------------------------------------------------------------------------
  // FindPeers (the decoding loop)

  /** The peers of one compact list whose length is a multiple of six: four
      address bytes and a big-endian port each. */
  function CompactPeers(raw: Bytes): (r: seq<PeerAddr>)
    requires |raw| % PeerLen == 0
    ensures |r| == |raw| / PeerLen
  {
    seq(|raw| / PeerLen, i requires 0 <= i < |raw| / PeerLen =>
      PeerAddr(raw[i * PeerLen..i * PeerLen + IpLen], FromBE16(raw[i * PeerLen + IpLen..i * PeerLen + PeerLen])))
  }

  /** The peers `FindPeers` collects from the `peers` strings of the tracker
      responses, in order; a response whose length is not a multiple of six is
      skipped as a whole. */
  function PeersOf(responses: seq<Bytes>): seq<PeerAddr>
  {
    if responses == [] then []
    else
      var raw := responses[|responses| - 1];
      PeersOf(responses[..|responses| - 1]) + (if |raw| % PeerLen == 0 then CompactPeers(raw) else [])
  }

  /** The loop of `FindPeers` over the tracker responses. */
  method DecodePeers(responses: seq<Bytes>) returns (peers: seq<PeerAddr>)
    ensures peers == PeersOf(responses)
  {
    peers := [];
    for t := 0 to |responses|
      invariant peers == PeersOf(responses[..t])
    {
      assert responses[..t + 1][..t] == responses[..t];
      var rawPeers := responses[t];
      if |rawPeers| % PeerLen != 0 {
        continue;
      }
      var peerCount := |rawPeers| / PeerLen;
      var peerList := new PeerAddr[peerCount](_ => PeerAddr([], 0));
      for i := 0 to peerCount
        invariant forall j :: 0 <= j < i ==> peerList[j] == CompactPeers(rawPeers)[j]
      {
        var offset := i * PeerLen;
        peerList[i] := PeerAddr(rawPeers[offset..offset + IpLen], FromBE16(rawPeers[offset + IpLen..offset + PeerLen]));
      }
      assert peerList[..] == CompactPeers(rawPeers);
      peers := peers + peerList[..];
    }
    assert responses[..|responses|] == responses;
  }

  /** The compact form of one peer with a four-byte address. */
  function EncodePeer(p: PeerAddr): (r: Bytes)
    requires |p.ip| == IpLen
    ensures |r| == PeerLen
  {
    p.ip + BE16(p.port)
  }

  predicate IPv4(ps: seq<PeerAddr>)
  {
    forall i :: 0 <= i < |ps| ==> |ps[i].ip| == IpLen
  }

  /** A compact peer list. */
  function EncodePeers(ps: seq<PeerAddr>): (r: Bytes)
    requires IPv4(ps)
    ensures |r| == PeerLen * |ps|
  {
    if ps == [] then [] else EncodePeers(ps[..|ps| - 1]) + EncodePeer(ps[|ps| - 1])
  }

  lemma {:induction false} EncodePeersAt(ps: seq<PeerAddr>, i: nat)
    requires IPv4(ps) && i < |ps|
    ensures EncodePeers(ps)[i * PeerLen..i * PeerLen + PeerLen] == EncodePeer(ps[i])
    decreases |ps|
  {
    var n := |ps|;
    var pre := EncodePeers(ps[..n - 1]);
    assert EncodePeers(ps) == pre + EncodePeer(ps[n - 1]);
    if i < n - 1 {
      EncodePeersAt(ps[..n - 1], i);
      assert EncodePeers(ps)[i * PeerLen..i * PeerLen + PeerLen] == pre[i * PeerLen..i * PeerLen + PeerLen];
    } else {
      assert EncodePeers(ps)[i * PeerLen..i * PeerLen + PeerLen] == EncodePeer(ps[n - 1]);
    }
  }

  /** Decoding a compact list gives back the peers it was made of, in order. */
  lemma CompactRoundTrip(ps: seq<PeerAddr>)
    requires IPv4(ps)
    ensures CompactPeers(EncodePeers(ps)) == ps
  {
    var raw := EncodePeers(ps);
    var r := CompactPeers(raw);
    forall i | 0 <= i < |ps|
      ensures r[i] == ps[i]
    {
      EncodePeersAt(ps, i);
      var e := raw[i * PeerLen..i * PeerLen + PeerLen];
      assert raw[i * PeerLen..i * PeerLen + IpLen] == e[..IpLen];
      assert raw[i * PeerLen + IpLen..i * PeerLen + PeerLen] == e[IpLen..];
    }
  }

  /** A response whose length is not a multiple of six contributes nothing,
      wherever it occurs. */
  lemma {:induction false} MalformedSkipped(before: seq<Bytes>, raw: Bytes, after: seq<Bytes>)
    requires |raw| % PeerLen != 0
    ensures PeersOf(before + [raw] + after) == PeersOf(before + after)
    decreases |after|
  {
    if after == [] {
      assert (before + [raw])[..|before|] == before;
      assert before + [raw] + after == before + [raw];
      assert before + after == before;
    } else {
      var n := |after|;
      MalformedSkipped(before, raw, after[..n - 1]);
      assert (before + [raw] + after)[..|before| + n] == before + [raw] + after[..n - 1];
      assert (before + after)[..|before| + n - 1] == before + after[..n - 1];
    }
  }

  // ---------------------------------------------------------------------------
  // ReadMsg / WriteMsg

  /** A frame read off the stream: `None` is a keep-alive. */
  datatype Frame = Frame(msg: Option<PeerMsg>, rest: Bytes)

  /** `ReadMsg` on the stream `s`: a big-endian length, then that many bytes
      of which the first is the type and the others the payload; a zero length
      is a keep-alive. */
  function ReadFrame(s: Bytes): (r: Res<Frame>)
    ensures r.Err? ==> r.error == ShortRead
    ensures r.Ok? ==> |r.value.rest| <= |s| - 4
  {
    if |s| < 4 then Err(ShortRead)
    else
      var length := FromBE32(s[..4]);
      if length == 0 then Ok(Frame(None, s[4..]))
      else if |s| - 4 < length then Err(ShortRead)
      else Ok(Frame(Some(PeerMsg(s[4], s[5..4 + length])), s[4 + length..]))
  }

  /** The bytes `WriteMsg` sends. The frame length `uint32(len(payload)+1)`
      and the buffer size `4+length` are 32-bit quantities; when the size wraps
      below five bytes the header writes panic, and otherwise `copy` keeps as
      much of the payload as the buffer holds. */
  function FrameBytes(m: PeerMsg): (r: Res<Bytes>)
    ensures r.Err? <==> m.kind >= MsgInvalid || ToUint32(4 + ToUint32(|m.payload| + 1)) < 5
    ensures r.Ok? && |m.payload| + 5 < TwoTo32 ==> r.value == BE32(|m.payload| + 1) + [m.kind] + m.payload
  {
    if m.kind >= MsgInvalid then Err(TypeOutOfRange)
    else
      var payloadLength := ToUint32(|m.payload| + 1);
      var size := ToUint32(4 + payloadLength as int);
      if size < 5 then Err(LengthOverflow)
      else
        var kept := if size - 5 < |m.payload| then size - 5 else |m.payload|;
        assert kept <= |m.payload|;
        Ok(BE32(payloadLength) + [m.kind] + m.payload[..kept])
  }

  /** Reading a written frame gives back the message and leaves the stream
      just after it. */
  lemma FrameRoundTrip(m: PeerMsg, t: Bytes)
    requires m.kind < MsgInvalid && |m.payload| + 5 < TwoTo32
    ensures FrameBytes(m).Ok? && ReadFrame(FrameBytes(m).value + t) == Ok(Frame(Some(m), t))
  {
    var s := FrameBytes(m).value + t;
    BE32RoundTrip(|m.payload| + 1);
    assert s[..4] == BE32(|m.payload| + 1);
    assert s[4] == m.kind;
    assert s[5..4 + |m.payload| + 1] == m.payload;
    assert s[4 + |m.payload| + 1..] == t;
  }

  /** Four zero bytes are a keep-alive. */
  lemma KeepAliveFrame(t: Bytes)
    ensures ReadFrame(BE32(0) + t) == Ok(Frame(None, t))
  {
    assert (BE32(0) + t)[..4] == BE32(0);
    BE32RoundTrip(0);
    assert (BE32(0) + t)[4..] == t;
  }

  /** Every frame `ReadMsg` accepts with a type `WriteMsg` allows is exactly
      what `WriteMsg` would send for it. */
  lemma ReadFrameWritten(s: Bytes)
    requires ReadFrame(s).Ok? && ReadFrame(s).value.msg.Some?
    requires ReadFrame(s).value.msg.value.kind < MsgInvalid && |ReadFrame(s).value.msg.value.payload| + 5 < TwoTo32
    ensures var f := ReadFrame(s).value;
      FrameBytes(f.msg.value).Ok? && FrameBytes(f.msg.value).value + f.rest == s
  {
    var f := ReadFrame(s).value;
    var m := f.msg.value;
    var length := FromBE32(s[..4]);
    assert |m.payload| + 1 == length;
    FromBE32RoundTrip(s[..4]);
    assert s == s[..4] + [s[4]] + s[5..4 + length] + s[4 + length..];
  }

  // ---------------------------------------------------------------------------
  // The handshake

  /** `"BitTorrent protocol"`. */
  const Protocol: Bytes := Ascii("BitTorrent protocol")

  /** The peer id as the last 20 bytes of the handshake carry it: cut to 20
      bytes, or padded with zeros. */
  function PaddedId(peerId: Bytes): (r: Bytes)
    ensures |r| == PeerIdLen
    ensures |peerId| >= PeerIdLen ==> r == peerId[..PeerIdLen]
    ensures |peerId| < PeerIdLen ==> r[..|peerId|] == peerId && r[|peerId|..] == Zeros(PeerIdLen - |peerId|)
  {
    if |peerId| >= PeerIdLen then peerId[..PeerIdLen] else peerId + Zeros(PeerIdLen - |peerId|)
  }

  /** The 68 bytes of a handshake: the protocol string with its length, eight
      reserved zero bytes, the info hash and the padded peer id. */
  function HandshakeMsg(infoHash: Bytes, peerId: Bytes): (r: Bytes)
    requires |infoHash| == InfoHashLen
    ensures |r| == 68 && r[0] == 19
  {
    [19] + Protocol + Zeros(8) + infoHash + PaddedId(peerId)
  }

  /** `handshake`: the buffer is filled with a moving cursor and written. */
  method Handshake(conn: Stream, infoHash: Bytes, peerId: Bytes)
    requires |infoHash| == InfoHashLen
    modifies conn
    ensures conn.outgoing == old(conn.outgoing) + HandshakeMsg(infoHash, peerId)
    ensures conn.incoming == old(conn.incoming)
  {
    var buf := new byte[|Protocol| + 49](_ => 0);
    buf[0] := |Protocol|;
    assert buf[..] == [19] + Zeros(67);
    var cur := 1;
    var n := CopyAtCursor(buf, cur, Protocol, [19]);
    assert Protocol[..n] == Protocol;
    cur := cur + n;
    n := CopyAtCursor(buf, cur, Zeros(8), [19] + Protocol);
    assert Zeros(8)[..n] == Zeros(8);
    cur := cur + n;
    n := CopyAtCursor(buf, cur, infoHash, [19] + Protocol + Zeros(8));
    assert infoHash[..n] == infoHash;
    cur := cur + n;
    ghost var filled := [19] + Protocol + Zeros(8) + infoHash;
    n := CopyAtCursor(buf, cur, peerId, filled);
    assert buf[..] == filled + (peerId[..n] + Zeros(20 - n)) by {
      Associative(filled, peerId[..n], Zeros(20 - n));
    }
    assert peerId[..n] + Zeros(20 - n) == PaddedId(peerId);
    conn.Write(buf[..]);
  }

  /** `cur += copy(buf[cur:], src)` on a buffer that holds `filled` and then
      zeros. */
  method CopyAtCursor(buf: array<byte>, cur: nat, src: Bytes, ghost filled: Bytes) returns (n: nat)
    requires cur == |filled| <= buf.Length && buf[..] == filled + Zeros(buf.Length - cur)
    modifies buf
    ensures n == if buf.Length - cur < |src| then buf.Length - cur else |src|
    ensures buf[..] == filled + src[..n] + Zeros(buf.Length - cur - n)
  {
    ghost var b := buf[..];
    n := Copy(buf, cur, src);
    assert b[..cur] == filled;
    assert b[cur + n..] == Zeros(buf.Length - cur - n);
  }

  /** The outcome of `checkHandshakeMsg` and the stream after it. */
  datatype Checked = Checked(err: Option<PeerError>, rest: Bytes)

  /** `checkHandshakeMsg` on the stream `s`: a non-zero protocol-string length
      `n`, then `48 + n` bytes whose info hash, after the string and eight
      reserved bytes, must be the target. */
  function HandshakeReply(s: Bytes, target: Bytes): (r: Checked)
    ensures |r.rest| <= |s|
  {
    if |s| < 1 then Checked(Some(ShortRead), [])
    else
      var preLen := s[0] as int;
      if preLen == 0 then Checked(Some(ZeroPreLen), s[1..])
      else if |s| - 1 < 48 + preLen then Checked(Some(ShortRead), [])
      else
        var msg := s[1..49 + preLen];
        var infoHash := msg[preLen + 8..preLen + 8 + InfoHashLen];
        Checked(if infoHash == target then None else Some(InfoHashMismatch), s[49 + preLen..])
  }

  /** `checkHandshakeMsg`. */
  method CheckHandshakeMsg(r: Stream, target: Bytes) returns (err: Option<PeerError>)
    modifies r
    ensures var c := HandshakeReply(old(r.incoming), target);
      err == c.err && r.incoming == c.rest && r.outgoing == old(r.outgoing)
  {
    ghost var s := r.incoming;
    var lenBuf := r.ReadFull(1);
    if lenBuf.Err? {
      return Some(lenBuf.error);
    }
    var preLen := lenBuf.value[0] as int;
    if preLen == 0 {
      return Some(ZeroPreLen);
    }
    var msgBuf := r.ReadFull(48 + preLen);
    if msgBuf.Err? {
      return Some(msgBuf.error);
    }
    assert msgBuf.value == s[1..49 + preLen];
    assert r.incoming == s[49 + preLen..];
    var infoHash := msgBuf.value[preLen + 8..preLen + 8 + InfoHashLen];
    if infoHash != target {
      return Some(InfoHashMismatch);
    }
    return None;
  }

  /** A handshake is accepted exactly when it carries the target hash, and the
      check reads exactly its 68 bytes. */
  lemma HandshakeAccepted(infoHash: Bytes, peerId: Bytes, target: Bytes, t: Bytes)
    requires |infoHash| == InfoHashLen
    ensures HandshakeReply(HandshakeMsg(infoHash, peerId) + t, target)
      == Checked(if infoHash == target then None else Some(InfoHashMismatch), t)
  {
    var h := HandshakeMsg(infoHash, peerId);
    var s := h + t;
    assert h == ([19] + Protocol + Zeros(8)) + infoHash + PaddedId(peerId);
    assert h[28..48] == infoHash;
    assert s[1..68] == h[1..68];
    assert s[1..49 + 19][19 + 8..19 + 8 + InfoHashLen] == h[28..48];
    assert s[49 + 19..] == t;
  }

  // ---------------------------------------------------------------------------
  // PeerConn

  /** How `fillBitfield` ends on the stream `s`. */
  function BitfieldError(s: Bytes): Option<PeerError>
  {
    match ReadFrame(s)
    case Err(e) => Some(e)
    case Ok(Frame(None, _)) => Some(ExpectedBitfield)
    case Ok(Frame(Some(m), _)) => if m.kind != MsgBitfield then Some(NotBitfield) else None
  }

  /** `PeerConn`. */
  class PeerConn {
    const conn: Stream
    var choked: bool
    var piecesMap: Bytes
    const peer: PeerAddr
    const peerId: Bytes
    const infoHash: Bytes

    /** The connection as `NewConn` builds it after the handshake: choked, with
        an empty bitfield. */
    constructor (conn: Stream, peer: PeerAddr, infoHash: Bytes, peerId: Bytes)
      ensures this.conn == conn && this.peer == peer && this.infoHash == infoHash && this.peerId == peerId
      ensures choked && piecesMap == []
    {
      this.conn := conn;
      this.peer := peer;
      this.infoHash := infoHash;
      this.peerId := peerId;
      choked := true;
      piecesMap := [];
    }

    /** `ReadMsg`: the next frame; `None` is a keep-alive. */
    method ReadMsg() returns (r: Res<Option<PeerMsg>>)
      modifies conn
      ensures var f := ReadFrame(old(conn.incoming));
        && (f.Err? ==> r == Err(ShortRead) && conn.incoming == [])
        && (f.Ok? ==> r == Ok(f.value.msg) && conn.incoming == f.value.rest)
      ensures conn.outgoing == old(conn.outgoing)
    {
      ghost var s := conn.incoming;
      var lenBuf := conn.ReadFull(4);
      if lenBuf.Err? {
        return Err(lenBuf.error);
      }
      var length := FromBE32(lenBuf.value);
      if length == 0 {
        return Ok(None);
      }
      var msgBuf := conn.ReadFull(length);
      if msgBuf.Err? {
        return Err(msgBuf.error);
      }
      assert msgBuf.value == s[4..4 + length];
      assert conn.incoming == s[4 + length..];
      return Ok(Some(PeerMsg(msgBuf.value[0], msgBuf.value[1..])));
    }

    /** `WriteMsg`: nothing for a nil message, an error for a type out of
        range, otherwise the frame is written and its size returned. */
    method WriteMsg(msg: Option<PeerMsg>) returns (n: int, err: Option<PeerError>)
      modifies conn
      ensures msg.None? ==> n == 0 && err.None? && conn.outgoing == old(conn.outgoing)
      ensures msg.Some? && FrameBytes(msg.value).Err? ==>
        n == 0 && err == Some(FrameBytes(msg.value).error) && conn.outgoing == old(conn.outgoing)
      ensures msg.Some? && FrameBytes(msg.value).Ok? ==>
        err.None? && n == |FrameBytes(msg.value).value|
        && conn.outgoing == old(conn.outgoing) + FrameBytes(msg.value).value
      ensures conn.incoming == old(conn.incoming)
    {
      if msg.None? {
        return 0, None;
      }
      var m := msg.value;
      if m.kind >= MsgInvalid {
        return 0, Some(TypeOutOfRange);
      }
      var payloadLength := ToUint32(|m.payload| + 1);
      var size := ToUint32(4 + payloadLength as int);
      if size < 5 {
        return 0, Some(LengthOverflow);
      }
      var buf := new byte[size](_ => 0);
      PutUint32(buf, 0, payloadLength);
      buf[4] := m.kind;
      ghost var header := buf[..5];
      var copied := Copy(buf, 5, m.payload);
      assert buf[..] == header + m.payload[..copied] by {
        assert header == BE32(payloadLength) + [m.kind];
      }
      conn.Write(buf[..]);
      return buf.Length, None;
    }

    /** `fillBitfield`: the first frame must be a BITFIELD, whose payload
        becomes the peer's bitfield. */
    method FillBitfield() returns (err: Option<PeerError>)
      modifies this, conn
      ensures err == BitfieldError(old(conn.incoming))
      ensures err.None? ==> piecesMap == ReadFrame(old(conn.incoming)).value.msg.value.payload
      ensures err.Some? ==> piecesMap == old(piecesMap)
      ensures choked == old(choked) && conn.outgoing == old(conn.outgoing)
      ensures ReadFrame(old(conn.incoming)).Ok? ==> conn.incoming == ReadFrame(old(conn.incoming)).value.rest
    {
      var msg := ReadMsg();
      if msg.Err? {
        return Some(msg.error);
      }
      if msg.value.None? {
        return Some(ExpectedBitfield);
      }
      if msg.value.value.kind != MsgBitfield {
        return Some(NotBitfield);
      }
      piecesMap := msg.value.value.payload;
      return None;
    }
  }

  /** `NewConn` once the TCP connection is up: send the handshake, check the
      reply, and read the peer's bitfield. The connection starts choked. */
  method NewConn(conn: Stream, peer: PeerAddr, infoHash: Bytes, peerId: Bytes) returns (c: PeerConn?, err: Option<PeerError>)
    requires |infoHash| == InfoHashLen
    modifies conn
    ensures conn.outgoing == old(conn.outgoing) + HandshakeMsg(infoHash, peerId)
    ensures (c == null) <==> err.Some?
    ensures var hs := HandshakeReply(old(conn.incoming), infoHash);
      && (hs.err.Some? ==> err == hs.err)
      && (hs.err.None? ==> err == BitfieldError(hs.rest))
      && (c != null ==>
            && fresh(c) && c.conn == conn && c.choked
            && c.peer == peer && c.infoHash == infoHash && c.peerId == peerId
            && c.piecesMap == ReadFrame(hs.rest).value.msg.value.payload)
  {
    Handshake(conn, infoHash, peerId);
    err := CheckHandshakeMsg(conn, infoHash);
    if err.Some? {
      return null, err;
    }
    c := new PeerConn(conn, peer, infoHash, peerId);
    err := c.FillBitfield();
    if err.Some? {
      return null, err;
    }
  }

  // ---------------------------------------------------------------------------
  // PIECE, HAVE and REQUEST payloads

  /** How `CopyPieceData` ends for a buffer of `bufLen` bytes: the type, the
      eight-byte header, the piece index, and the bounds of the write, in this
      order. */
  function PieceError(index: int, bufLen: nat, msg: PeerMsg): Option<PeerError>
  {
    if msg.kind != MsgPiece then Some(ExpectedPiece)
    else if |msg.payload| < 8 then Some(PayloadTooShort)
    else if FromBE32(msg.payload[0..4]) != index then Some(IndexMismatch)
    else
      var offset := FromBE32(msg.payload[4..8]);
      if offset >= bufLen then Some(OffsetTooHigh)
      else if offset + (|msg.payload| - 8) > bufLen then Some(DataTooLarge)
      else None
  }

  /** `CopyPieceData`: on success the block lands at its offset and nothing
      else in the buffer changes; on failure the buffer is untouched. */
  method CopyPieceData(index: int, buf: array<byte>, msg: PeerMsg) returns (n: int, err: Option<PeerError>)
    modifies buf
    ensures err == PieceError(index, buf.Length, msg)
    ensures err.Some? ==> n == 0 && buf[..] == old(buf[..])
    ensures err.None? ==>
      var offset := FromBE32(msg.payload[4..8]);
      var data := msg.payload[8..];
      && n == |data|
      && buf[..] == old(buf[..offset]) + data + old(buf[offset + |data|..])
  {
    if msg.kind != MsgPiece {
      return 0, Some(ExpectedPiece);
    }
    if |msg.payload| < 8 {
      return 0, Some(PayloadTooShort);
    }
    var parsedIndex := FromBE32(msg.payload[0..4]);
    if parsedIndex != index {
      return 0, Some(IndexMismatch);
    }
    var offset := FromBE32(msg.payload[4..8]);
    if offset >= buf.Length {
      return 0, Some(OffsetTooHigh);
    }
    var data := msg.payload[8..];
    if offset + |data| > buf.Length {
      return 0, Some(DataTooLarge);
    }
    var copied := Copy(buf, offset, data);
    assert data[..copied] == data;
    return |data|, None;
  }

  /** A PIECE message is accepted exactly when its block starts inside the
      buffer and ends within it. */
  lemma PieceAccepted(index: uint32, offset: uint32, data: Bytes, bufLen: nat)
    ensures var msg := PeerMsg(MsgPiece, BE32(index) + BE32(offset) + data);
      PieceError(index, bufLen, msg)
        == if offset >= bufLen then Some(OffsetTooHigh)
           else if offset + |data| > bufLen then Some(DataTooLarge)
           else None
  {
    var p := BE32(index) + BE32(offset) + data;
    assert p[0..4] == BE32(index) && p[4..8] == BE32(offset);
    BE32RoundTrip(index);
    BE32RoundTrip(offset);
  }

  /** `GetHaveIndex`: a HAVE message with exactly four payload bytes. */
  function GetHaveIndex(msg: PeerMsg): (r: Res<int>)
    ensures r.Ok? <==> msg.kind == MsgHave && |msg.payload| == 4
    ensures r.Ok? ==> 0 <= r.value < TwoTo32
  {
    if msg.kind != MsgHave then Err(ExpectedHave)
    else if |msg.payload| != 4 then Err(BadHaveLength)
    else Ok(FromBE32(msg.payload))
  }

  /** `NewRequestMsg`: a REQUEST with the index, offset and length as three
      big-endian 32-bit fields (`uint32` conversions keep the low bits). */
  function NewRequestMsg(index: int, offset: int, length: int): (r: PeerMsg)
    ensures r.kind == MsgRequest && |r.payload| == 12
  {
    PeerMsg(MsgRequest, BE32(ToUint32(index)) + BE32(ToUint32(offset)) + BE32(ToUint32(length)))
  }

  /** The three fields of a request decode back to its arguments, and the
      index field read as a HAVE payload is the index. */
  lemma RequestFields(index: uint32, offset: uint32, length: uint32)
    ensures var p := NewRequestMsg(index, offset, length).payload;
      && FromBE32(p[0..4]) == index && FromBE32(p[4..8]) == offset && FromBE32(p[8..12]) == length
      && GetHaveIndex(PeerMsg(MsgHave, p[0..4])) == Ok(index)
  {
    var p := NewRequestMsg(index, offset, length).payload;
    assert p[0..4] == BE32(index) && p[4..8] == BE32(offset) && p[8..12] == BE32(length);
    BE32RoundTrip(index);
    BE32RoundTrip(offset);
    BE32RoundTrip(length);
  }

  /** A HAVE message made from an index decodes to that index. */
  lemma HaveRoundTrip(index: uint32)
    ensures GetHaveIndex(PeerMsg(MsgHave, BE32(index))) == Ok(index)
  {
    BE32RoundTrip(index);
  }
}
