/** Tracker handling (`tracker.go`): reading a tracker's response dictionary,
    choosing the HTTP announce URLs, the query of an announce request, and the
    collection of peers from the responses (`FindPeers`).

    `url.Parse` is the `scheme` parameter (`None` for a URL it rejects), the
    HTTP round trip with its decoding is the `respond` parameter, and the random
    peer id of each request is the `peerIdFor` parameter. Requests are issued one
    after the other. */
module Tracker {
  import opened Common
  import opened BencodeCodec
  import Torrent
  import Peer

  const KeyComplete: Bytes := Ascii("complete")
  const KeyDownloaded: Bytes := Ascii("downloaded")
  const KeyIncomplete: Bytes := Ascii("incomplete")
  const KeyInterval: Bytes := Ascii("interval")
  const KeyMinInterval: Bytes := Ascii("min interval")
  const KeyPeers: Bytes := Ascii("peers")

  const ParamInfoHash: Bytes := Ascii("info_hash")
  const ParamPeerId: Bytes := Ascii("peer_id")
  const ParamPort: Bytes := Ascii("port")
  const ParamUploaded: Bytes := Ascii("uploaded")
  const ParamDownloaded: Bytes := Ascii("downloaded")
  const ParamCompact: Bytes := Ascii("compact")
  const ParamLeft: Bytes := Ascii("left")

  const SchemeHttp: Bytes := Ascii("http")

  /** The port every announce advertises. */
  const Port: Bytes := Ascii("6666")

  /** `TrackerResp`. */
  datatype TrackerResp = TrackerResp(
    complete: int64, downloaded: int64, incomplete: int64,
    interval: int64, minInterval: int64, peers: Bytes)

  // ---------------------------------------------------------------------------
  // parseTrackerResp

  /** An integer field: the value when it is an integer, 0 when it is absent or
      of another kind. */
  function IntField(resp: map<Bytes, Value>, key: Bytes): (r: int64)
    ensures key in resp && resp[key].Int? ==> r == resp[key].i
    ensures !(key in resp && resp[key].Int?) ==> r == 0
  {
    if key in resp && resp[key].Int? then resp[key].i else 0
  }

  /** `parseTrackerResp` as a value. */
  function TrackerRespOf(resp: map<Bytes, Value>): TrackerResp
  {
    TrackerResp(
      IntField(resp, KeyComplete), IntField(resp, KeyDownloaded), IntField(resp, KeyIncomplete),
      IntField(resp, KeyInterval), IntField(resp, KeyMinInterval),
      if KeyPeers in resp && resp[KeyPeers].Str? then resp[KeyPeers].s else [])
  }

  /** `parseTrackerResp`: the fields are filled one by one; it never fails. */
  method ParseTrackerResp(resp: map<Bytes, Value>) returns (ret: TrackerResp)
    ensures ret == TrackerRespOf(resp)
    ensures ret.peers == (if KeyPeers in resp && resp[KeyPeers].Str? then resp[KeyPeers].s else [])
  {
    ret := TrackerResp(0, 0, 0, 0, 0, []);
    if KeyComplete in resp {
      var v := resp[KeyComplete];
      if v.Int? {
        ret := ret.(complete := v.i);
      }
    } else {
      ret := ret.(complete := 0);
    }
    if KeyDownloaded in resp {
      var v := resp[KeyDownloaded];
      if v.Int? {
        ret := ret.(downloaded := v.i);
      }
    } else {
      ret := ret.(downloaded := 0);
    }
    if KeyIncomplete in resp {
      var v := resp[KeyIncomplete];
      if v.Int? {
        ret := ret.(incomplete := v.i);
      }
    } else {
      ret := ret.(incomplete := 0);
    }
    if KeyInterval in resp {
      var v := resp[KeyInterval];
      if v.Int? {
        ret := ret.(interval := v.i);
      }
    } else {
      ret := ret.(interval := 0);
    }
    if KeyMinInterval in resp {
      var v := resp[KeyMinInterval];
      if v.Int? {
        ret := ret.(minInterval := v.i);
      }
    } else {
      ret := ret.(minInterval := 0);
    }
    if KeyPeers in resp {
      var v := resp[KeyPeers];
      if v.Str? {
        ret := ret.(peers := v.s);
      }
    } else {
      ret := ret.(peers := []);
    }
  }

  /** Keys other than the six it reads have no effect on the result. */
  lemma OtherKeysIgnored(resp: map<Bytes, Value>, k: Bytes, v: Value)
    requires k !in {KeyComplete, KeyDownloaded, KeyIncomplete, KeyInterval, KeyMinInterval, KeyPeers}
    ensures TrackerRespOf(resp[k := v]) == TrackerRespOf(resp)
  {
    var m := resp[k := v];
    assert forall key :: key != k ==> (key in m <==> key in resp) && (key in m ==> m[key] == resp[key]);
  }

  // ---------------------------------------------------------------------------
  // RequestTrackers: choosing the HTTP trackers

  /** The announce URLs whose scheme is `http`, in order; `https`, `udp`, any
      other scheme and URLs that do not parse are dropped. */
  function HttpTrackers(urls: seq<Bytes>, scheme: Bytes -> Option<Bytes>): (r: seq<Bytes>)
    ensures |r| <= |urls|
  {
    if urls == [] then []
    else
      var t := urls[|urls| - 1];
      HttpTrackers(urls[..|urls| - 1], scheme) + (if scheme(t) == Some(SchemeHttp) then [t] else [])
  }

  /** A URL is chosen exactly when it is announced and its scheme is `http`. */
  lemma {:induction false} HttpTrackersMembers(urls: seq<Bytes>, scheme: Bytes -> Option<Bytes>, t: Bytes)
    ensures t in HttpTrackers(urls, scheme) <==> t in urls && scheme(t) == Some(SchemeHttp)
    decreases |urls|
  {
    if urls != [] {
      HttpTrackersMembers(urls[..|urls| - 1], scheme, t);
      assert urls == urls[..|urls| - 1] + [urls[|urls| - 1]];
    }
  }

  /** The trackers keep the order of the announce list: the choice commutes
      with concatenation. */
  lemma {:induction false} HttpTrackersAppend(a: seq<Bytes>, b: seq<Bytes>, scheme: Bytes -> Option<Bytes>)
    ensures HttpTrackers(a + b, scheme) == HttpTrackers(a, scheme) + HttpTrackers(b, scheme)
    decreases |b|
  {
    if b == [] {
      assert a + b == a;
    } else {
      HttpTrackersAppend(a, b[..|b| - 1], scheme);
      assert (a + b)[..|a + b| - 1] == a + b[..|b| - 1];
    }
  }

  /** The loop of `RequestTrackers` over `AnnounceList` followed by `Announce`. */
  method SelectHttpTrackers(announceList: seq<Bytes>, announce: Bytes, scheme: Bytes -> Option<Bytes>) returns (httpTrackers: seq<Bytes>)
    ensures httpTrackers == HttpTrackers(announceList + [announce], scheme)
  {
    var list := announceList + [announce];
    httpTrackers := [];
    for i := 0 to |list|
      invariant httpTrackers == HttpTrackers(list[..i], scheme)
    {
      assert list[..i + 1][..i] == list[..i];
      var t := list[i];
      var parsed := scheme(t);
      if parsed.None? {
        continue;
      }
      if parsed.value == SchemeHttp {
        httpTrackers := httpTrackers + [t];
      }
    }
    assert list[..|list|] == list;
  }

  // ---------------------------------------------------------------------------
  // buildHttpTrackerUrl

  /** An announce request: the tracker URL and its query parameters. The URL
      requested is `base` with its query replaced by `query`, as the assignment
      to `base.RawQuery` does, so a query `base` carried is not sent. */
  datatype Announce = Announce(base: Bytes, query: map<Bytes, Bytes>)

  lemma ParamsDistinct()
    ensures ParamInfoHash !in {ParamPeerId, ParamPort, ParamUploaded, ParamDownloaded, ParamCompact, ParamLeft}
    ensures ParamPeerId !in {ParamPort, ParamUploaded, ParamDownloaded, ParamCompact, ParamLeft}
    ensures ParamPort !in {ParamUploaded, ParamDownloaded, ParamCompact, ParamLeft}
    ensures ParamUploaded !in {ParamDownloaded, ParamCompact, ParamLeft}
    ensures ParamDownloaded !in {ParamCompact, ParamLeft}
    ensures ParamCompact != ParamLeft
  {
    assert ParamPeerId[0] != ParamCompact[0];
    assert ParamPort[0] != ParamLeft[0];
  }

  /** `buildHttpTrackerUrl`: `None` when the URL does not parse. */
  function BuildHttpTrackerUrl(tracker: Bytes, infoHash: Bytes, length: int64, peerId: Bytes,
                               scheme: Bytes -> Option<Bytes>): (r: Option<Announce>)
    ensures r.None? <==> scheme(tracker).None?
    ensures r.Some? ==>
      && r.value.base == tracker
      && r.value.query.Keys == {ParamInfoHash, ParamPeerId, ParamPort, ParamUploaded, ParamDownloaded, ParamCompact, ParamLeft}
      && r.value.query[ParamInfoHash] == infoHash
      && r.value.query[ParamPeerId] == peerId
      && r.value.query[ParamPort] == Port
      && r.value.query[ParamUploaded] == [Digit0]
      && r.value.query[ParamDownloaded] == [Digit0]
      && r.value.query[ParamCompact] == [Digit0 + 1]
      && r.value.query[ParamLeft] == FormatInt(length)
  {
    if scheme(tracker).None? then None
    else
      ParamsDistinct();
      Some(Announce(tracker, map[
        ParamInfoHash := infoHash,
        ParamPeerId := peerId,
        ParamPort := Port,
        ParamUploaded := [Digit0],
        ParamDownloaded := [Digit0],
        ParamCompact := [Digit0 + 1],
        ParamLeft := FormatInt(length)]))
  }

  // ---------------------------------------------------------------------------
  // requestHttpTrackers (sequentially) and FindPeers

  /** The responses collected from the trackers, one per tracker whose request
      was built, answered, and decoded to a dictionary. */
  function Responses(trackers: seq<Bytes>, infoHash: Bytes, length: int64, peerIdFor: Bytes -> Bytes,
                     scheme: Bytes -> Option<Bytes>, respond: Announce -> Option<Value>): (r: seq<TrackerResp>)
    ensures |r| <= |trackers|
  {
    if trackers == [] then []
    else
      var t := trackers[|trackers| - 1];
      var before := Responses(trackers[..|trackers| - 1], infoHash, length, peerIdFor, scheme, respond);
      match BuildHttpTrackerUrl(t, infoHash, length, peerIdFor(t), scheme)
      case None => before
      case Some(a) =>
        match respond(a)
        case Some(Dict(m)) => before + [TrackerRespOf(m)]
        case _ => before
  }

  lemma ResponsesStep(trackers: seq<Bytes>, i: nat, infoHash: Bytes, length: int64, peerIdFor: Bytes -> Bytes,
                      scheme: Bytes -> Option<Bytes>, respond: Announce -> Option<Value>)
    requires i < |trackers|
    ensures var before := Responses(trackers[..i], infoHash, length, peerIdFor, scheme, respond);
      Responses(trackers[..i + 1], infoHash, length, peerIdFor, scheme, respond)
        == match BuildHttpTrackerUrl(trackers[i], infoHash, length, peerIdFor(trackers[i]), scheme)
           case None => before
           case Some(a) =>
             match respond(a)
             case Some(Dict(m)) => before + [TrackerRespOf(m)]
             case _ => before
  {
    assert trackers[..i + 1][..i] == trackers[..i];
  }

  /** `RequestTrackers`: the HTTP trackers are selected, and each is asked in
      turn. With no HTTP tracker there are no responses, and no error. */
  method RequestTrackers(tf: Torrent.TorrentFile, peerIdFor: Bytes -> Bytes, scheme: Bytes -> Option<Bytes>,
                         respond: Announce -> Option<Value>) returns (respList: seq<TrackerResp>)
    ensures respList == Responses(HttpTrackers(tf.announceList + [tf.announce], scheme),
                                  tf.info.hash, tf.info.length, peerIdFor, scheme, respond)
  {
    var httpTrackers := SelectHttpTrackers(tf.announceList, tf.announce, scheme);
    respList := [];
    for i := 0 to |httpTrackers|
      invariant respList == Responses(httpTrackers[..i], tf.info.hash, tf.info.length, peerIdFor, scheme, respond)
    {
      ResponsesStep(httpTrackers, i, tf.info.hash, tf.info.length, peerIdFor, scheme, respond);
      var tracker := httpTrackers[i];
      var url := BuildHttpTrackerUrl(tracker, tf.info.hash, tf.info.length, peerIdFor(tracker), scheme);
      if url.None? {
        continue;
      }
      var res := respond(url.value);
      if res.Some? && res.value.Dict? {
        var resp := ParseTrackerResp(res.value.entries);
        respList := respList + [resp];
      }
    }
    assert httpTrackers[..|httpTrackers|] == httpTrackers;
  }

  /** The `peers` strings of the responses. */
  function PeerStrings(rs: seq<TrackerResp>): (r: seq<Bytes>)
    ensures |r| == |rs| && forall i :: 0 <= i < |rs| ==> r[i] == rs[i].peers
  {
    seq(|rs|, i requires 0 <= i < |rs| => rs[i].peers)
  }

  /** `FindPeers`: ask the trackers, then decode every compact peer list. */
  method FindPeers(tf: Torrent.TorrentFile, peerIdFor: Bytes -> Bytes, scheme: Bytes -> Option<Bytes>,
                   respond: Announce -> Option<Value>) returns (peers: seq<Peer.PeerAddr>)
    ensures peers == Peer.PeersOf(PeerStrings(Responses(HttpTrackers(tf.announceList + [tf.announce], scheme),
                                  tf.info.hash, tf.info.length, peerIdFor, scheme, respond)))
  {
    var trackerRespList := RequestTrackers(tf, peerIdFor, scheme, respond);
    peers := Peer.DecodePeers(PeerStrings(trackerRespList));
  }

  /** Without an HTTP tracker nothing is asked and no peer is found. */
  lemma NoHttpTrackerNoPeers(urls: seq<Bytes>, infoHash: Bytes, length: int64, peerIdFor: Bytes -> Bytes,
                             scheme: Bytes -> Option<Bytes>, respond: Announce -> Option<Value>)
    requires forall i :: 0 <= i < |urls| ==> scheme(urls[i]) != Some(SchemeHttp)
    ensures Responses(HttpTrackers(urls, scheme), infoHash, length, peerIdFor, scheme, respond) == []
  {
    if HttpTrackers(urls, scheme) != [] {
      var t := HttpTrackers(urls, scheme)[0];
      HttpTrackersMembers(urls, scheme, t);
    }
  }
}
