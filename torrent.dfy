/** The metainfo parser (`torrent_file.go`): the decoded `.torrent` dictionary is
    checked field by field into a `TorrentFile` and its `TorrentInfo`, the
    `pieces` string is cut into 20-byte hashes, `announce-list` is flattened,
    the `files` list becomes a directory tree, and the info hash is the SHA-1 of
    the re-encoded `info` dictionary.

    SHA-1 and `uuid.New()` are not modelled: the hash function is a parameter,
    and the placeholder name is a non-empty parameter. */
module Torrent {
  import opened Common
  import opened BencodeCodec
  import opened BencodeReading
  import opened Bencode

  /** `PIECE_LEN`: the size of one SHA-1 piece hash. */
  const PieceLen: nat := 20

  const KeyAnnounce: Bytes := Ascii("announce")
  const KeyAnnounceList: Bytes := Ascii("announce-list")
  const KeyComment: Bytes := Ascii("comment")
  const KeyCreatedBy: Bytes := Ascii("created by")
  const KeyCreationDate: Bytes := Ascii("creation date")
  const KeyInfo: Bytes := Ascii("info")
  const KeyName: Bytes := Ascii("name")
  const KeyPieceLength: Bytes := Ascii("piece length")
  const KeyPieces: Bytes := Ascii("pieces")
  const KeyFiles: Bytes := Ascii("files")
  const KeyLength: Bytes := Ascii("length")
  const KeyPath: Bytes := Ascii("path")

  /** The ways `NewTorrentFile` can fail: `ErrInvalidTorrentFile`, an error from
      `bencode.Unmarshal`, and the two runtime panics `buildTorrentMutiFile` can
      reach (indexing an empty path, assigning into a nil map). */
  datatype TorrentError =
    | InvalidTorrentFile
    | Decode(error: Error)
    | IndexOutOfRange
    | NilMapWrite

  datatype Outcome<+T> = Done(value: T) | Failed(err: TorrentError)

  // ---------------------------------------------------------------------------
  // parseAnnounceList

  /** The byte strings among `xs`, in order; everything else is dropped. */
  function Strings(xs: seq<Value>): (r: seq<Bytes>)
    ensures |r| <= |xs|
  {
    if xs == [] then []
    else Strings(xs[..|xs| - 1]) + (if xs[|xs| - 1].Str? then [xs[|xs| - 1].s] else [])
  }

  /** What one element of `announce-list` contributes: itself if it is a string,
      its string elements if it is a list, nothing otherwise. */
  function Tier(x: Value): seq<Bytes>
  {
    if x.Str? then [x.s] else if x.List? then Strings(x.items) else []
  }

  /** `parseAnnounceList` as a value: the contributions of the elements, in order. */
  function Flatten(xs: seq<Value>): seq<Bytes>
  {
    if xs == [] then [] else Flatten(xs[..|xs| - 1]) + Tier(xs[|xs| - 1])
  }

  /** `parseAnnounceList`: strings are appended, lists contribute their string
      elements one level deep. */
  method ParseAnnounceList(announceList: seq<Value>) returns (list: seq<Bytes>)
    ensures list == Flatten(announceList)
  {
    list := [];
    for i := 0 to |announceList|
      invariant list == Flatten(announceList[..i])
    {
      assert announceList[..i + 1][..i] == announceList[..i];
      var value := announceList[i];
      if value.Str? {
        list := list + [value.s];
        continue;
      }
      if value.List? {
        ghost var before := list;
        for j := 0 to |value.items|
          invariant list == before + Strings(value.items[..j])
        {
          assert value.items[..j + 1][..j] == value.items[..j];
          if value.items[j].Str? {
            list := list + [value.items[j].s];
          }
        }
        assert value.items[..|value.items|] == value.items;
      }
    }
    assert announceList[..|announceList|] == announceList;
  }

  lemma {:induction false} StringsAppend(a: seq<Value>, b: seq<Value>)
    ensures Strings(a + b) == Strings(a) + Strings(b)
    decreases |b|
  {
    if b == [] {
      assert a + b == a;
    } else {
      var n := |b|;
      StringsAppend(a, b[..n - 1]);
      assert (a + b)[..|a + b| - 1] == a + b[..n - 1];
    }
  }

  /** The flattening respects concatenation: tiers keep their order. */
  lemma {:induction false} FlattenAppend(a: seq<Value>, b: seq<Value>)
    ensures Flatten(a + b) == Flatten(a) + Flatten(b)
    decreases |b|
  {
    if b == [] {
      assert a + b == a;
    } else {
      FlattenAppend(a, b[..|b| - 1]);
      FlattenAppendStep(a, b);
    }
  }

  lemma FlattenAppendStep(a: seq<Value>, b: seq<Value>)
    requires |b| > 0 && Flatten(a + b[..|b| - 1]) == Flatten(a) + Flatten(b[..|b| - 1])
    ensures Flatten(a + b) == Flatten(a) + Flatten(b)
  {
    var n := |b|;
    var x := b[n - 1];
    var front := b[..n - 1];
    SplitLast(a, b);
    FlattenSnoc(a + front, x);
    FlattenSnoc(front, x);
    Associative(Flatten(a), Flatten(front), Tier(x));
  }

  lemma SplitLast(a: seq<Value>, b: seq<Value>)
    requires |b| > 0
    ensures a + b == (a + b[..|b| - 1]) + [b[|b| - 1]] && b == b[..|b| - 1] + [b[|b| - 1]]
  {
  }

  lemma FlattenSnoc(xs: seq<Value>, x: Value)
    ensures Flatten(xs + [x]) == Flatten(xs) + Tier(x)
  {
    assert (xs + [x])[..|xs|] == xs;
  }

  /** A string is kept exactly when it is an element of the list. */
  lemma {:induction false} StringsMembers(xs: seq<Value>, s: Bytes)
    ensures s in Strings(xs) <==> Str(s) in xs
    decreases |xs|
  {
    if xs != [] {
      var n := |xs|;
      StringsMembers(xs[..n - 1], s);
      assert xs == xs[..n - 1] + [xs[n - 1]];
    }
  }

  /** A URL is in the flattened list exactly when it is a top-level string or a
      string inside a top-level list; strings nested deeper and all other values
      are dropped. */
  lemma {:induction false} FlattenMembers(xs: seq<Value>, s: Bytes)
    ensures s in Flatten(xs) <==> Str(s) in xs || exists i :: 0 <= i < |xs| && xs[i].List? && Str(s) in xs[i].items
    decreases |xs|
  {
    if xs != [] {
      var n := |xs|;
      var pre := xs[..n - 1];
      FlattenMembers(pre, s);
      var x := xs[n - 1];
      if x.List? { StringsMembers(x.items, s); }
      assert xs == pre + [x];
      if exists i :: 0 <= i < |xs| && xs[i].List? && Str(s) in xs[i].items {
        var i :| 0 <= i < |xs| && xs[i].List? && Str(s) in xs[i].items;
        if i < n - 1 { assert pre[i] == xs[i]; }
      }
      if exists i :: 0 <= i < |pre| && pre[i].List? && Str(s) in pre[i].items {
        var i :| 0 <= i < |pre| && pre[i].List? && Str(s) in pre[i].items;
        assert xs[i] == pre[i];
      }
    }
  }

  // ---------------------------------------------------------------------------
  // Metainfo fields

  /** The effect of a `comment`/`created by` step: a string is taken, a value of
      any other kind resets the field to `""`, an absent key leaves it alone. */
  function StringSetting(m: map<Bytes, Value>, key: Bytes, current: Bytes): Bytes
  {
    if key !in m then current else if m[key].Str? then m[key].s else []
  }

  /** The effect of the `creation date` step. */
  function IntSetting(m: map<Bytes, Value>, key: Bytes, current: int64): int64
  {
    if key !in m then current else if m[key].Int? then m[key].i else 0
  }

  /** The effect of the `announce-list` step. */
  function AnnounceListSetting(m: map<Bytes, Value>, current: seq<Bytes>): seq<Bytes>
  {
    if KeyAnnounceList !in m then current
    else if m[KeyAnnounceList].List? then Flatten(m[KeyAnnounceList].items)
    else []
  }

  /** `announce` is present and a string: the only field `parseBase` requires. */
  predicate HasAnnounce(m: map<Bytes, Value>)
  {
    KeyAnnounce in m && m[KeyAnnounce].Str?
  }

  /** `TorrentFile`. */
  class TorrentFile {
    var announce: Bytes
    var announceList: seq<Bytes>
    var comment: Bytes
    var createdBy: Bytes
    var createdAt: int64
    const info: TorrentInfo

    /** `&TorrentFile{}`: every field at its zero value. */
    constructor ()
      ensures announce == [] && announceList == [] && comment == [] && createdBy == [] && createdAt == 0
      ensures fresh(info) && info.IsZero()
    {
      announce, announceList, comment, createdBy, createdAt := [], [], [], [], 0;
      info := new TorrentInfo();
    }

    /** `parseBase`: `announce` must be a string; `announce-list`, `comment`,
        `created by` and `creation date` are taken when present, and reset to an
        empty value when present with the wrong kind. */
    method ParseBase(m: map<Bytes, Value>) returns (err: Option<TorrentError>)
      modifies this
      ensures err.Some? <==> !HasAnnounce(m)
      ensures err.Some? ==> err == Some(InvalidTorrentFile) && unchanged(this)
      ensures err.None? ==>
        && announce == m[KeyAnnounce].s
        && announceList == AnnounceListSetting(m, old(announceList))
        && comment == StringSetting(m, KeyComment, old(comment))
        && createdBy == StringSetting(m, KeyCreatedBy, old(createdBy))
        && createdAt == IntSetting(m, KeyCreationDate, old(createdAt))
    {
      if KeyAnnounce in m {
        var v := m[KeyAnnounce];
        if !v.Str? {
          return Some(InvalidTorrentFile);
        }
        announce := v.s;
      } else {
        return Some(InvalidTorrentFile);
      }

      if KeyAnnounceList in m {
        var v := m[KeyAnnounceList];
        if v.List? {
          announceList := ParseAnnounceList(v.items);
        } else {
          announceList := [];
        }
      }

      if KeyComment in m {
        var v := m[KeyComment];
        comment := if v.Str? then v.s else [];
      }

      if KeyCreatedBy in m {
        var v := m[KeyCreatedBy];
        createdBy := if v.Str? then v.s else [];
      }

      if KeyCreationDate in m {
        var v := m[KeyCreationDate];
        createdAt := if v.Int? then v.i else 0;
      }
      return None;
    }
  }

  /** `TorrentInfo`. */
  class TorrentInfo {
    var name: Bytes
    var isMultiFile: bool
    var length: int64
    var multiFiles: Node
    var pieceLength: int64
    var pieceHashes: seq<Bytes>
    var hash: Bytes

    /** Every field at its zero value. */
    predicate IsZero()
      reads this
    {
      name == [] && !isMultiFile && length == 0 && multiFiles == ZeroNode
      && pieceLength == 0 && pieceHashes == [] && hash == Zeros(20)
    }

    constructor ()
      ensures IsZero()
    {
      name, isMultiFile, length, multiFiles := [], false, 0, ZeroNode;
      pieceLength, pieceHashes, hash := 0, [], Zeros(20);
    }

    /** `parseMutiFile`: on success the tree replaces `MutiFiles`; on failure
        nothing changes. */
    method ParseMultiFile(fileList: seq<Value>) returns (err: Option<TorrentError>)
      modifies this
      ensures var t := MultiFileTree(old(name), old(length), fileList);
        && (t.Done? ==> err.None? && multiFiles == t.value)
        && (t.Failed? ==> err == Some(t.err) && multiFiles == old(multiFiles))
      ensures name == old(name) && isMultiFile == old(isMultiFile) && length == old(length)
      ensures pieceLength == old(pieceLength) && pieceHashes == old(pieceHashes) && hash == old(hash)
    {
      var imfs := BuildIMultiFile(fileList);
      if imfs.None? {
        return Some(InvalidTorrentFile);
      }
      var root := DirNode(name, length);
      var tmf := root;
      for i := 0 to |imfs.value|
        invariant BuildAll(root, imfs.value[..i]) == Done(tmf)
      {
        assert imfs.value[..i + 1][..i] == imfs.value[..i];
        var next := BuildTree(tmf, imfs.value[i].path, imfs.value[i].length);
        if next.Failed? {
          BuildAllFailureSticks(root, imfs.value, i + 1);
          return Some(next.err);
        }
        tmf := next.value;
      }
      assert imfs.value[..|imfs.value|] == imfs.value;
      multiFiles := tmf;
      return None;
    }

    /** `parseInfo`: the fields are read in the order of the source, and an error
        leaves behind whatever was set before it. */
    method ParseInfo(m: map<Bytes, Value>, placeholder: Bytes) returns (err: Option<TorrentError>)
      requires |placeholder| > 0
      modifies this
      ensures name == NameAfter(m, old(name), placeholder)
      ensures err == InfoError(m, name, old(length))
      ensures pieceLength == (if KeyPieceLength in m && PieceLengthOk(m) then m[KeyPieceLength].i else old(pieceLength))
      ensures pieceHashes == (if KeyPieces in m && PieceLengthOk(m) && PiecesOk(m) then Pieces(m[KeyPieces].s) else old(pieceHashes))
      ensures multiFiles == (if err.None? && KeyFiles in m then MultiFileTree(name, old(length), m[KeyFiles].items).value else old(multiFiles))
      ensures isMultiFile == (if err.None? then KeyFiles in m else old(isMultiFile))
      ensures length == (if err.None? && KeyFiles !in m && KeyLength in m then m[KeyLength].i else old(length))
      ensures hash == old(hash)
    {
      if KeyName in m {
        var v := m[KeyName];
        if v.Str? {
          name := v.s;
        }
      }
      if |name| == 0 {
        name := placeholder;
      }

      if KeyPieceLength in m {
        var v := m[KeyPieceLength];
        if v.Int? {
          pieceLength := v.i;
        } else {
          return Some(InvalidTorrentFile);
        }
      }

      if KeyPieces in m {
        var v := m[KeyPieces];
        if v.Str? {
          pieceHashes := SplitPieces(v.s);
        } else {
          return Some(InvalidTorrentFile);
        }
      }

      err := ParseLayout(m);
    }

    /** The last step of `parseInfo`: with `files` the torrent is multi-file and
        the list must be well formed; without it `length`, when present, must be
        an integer. */
    method ParseLayout(m: map<Bytes, Value>) returns (err: Option<TorrentError>)
      modifies this
      ensures err == LayoutError(m, old(name), old(length))
      ensures multiFiles == (if err.None? && KeyFiles in m then MultiFileTree(old(name), old(length), m[KeyFiles].items).value else old(multiFiles))
      ensures isMultiFile == (if err.None? then KeyFiles in m else old(isMultiFile))
      ensures length == (if err.None? && KeyFiles !in m && KeyLength in m then m[KeyLength].i else old(length))
      ensures name == old(name) && pieceLength == old(pieceLength) && pieceHashes == old(pieceHashes) && hash == old(hash)
    {
      if KeyFiles in m {
        var v := m[KeyFiles];
        if v.List? {
          err := ParseMultiFile(v.items);
          if err.Some? {
            return err;
          }
        } else {
          return Some(InvalidTorrentFile);
        }
        isMultiFile := true;
      } else {
        if KeyLength in m {
          var v := m[KeyLength];
          if v.Int? {
            length := v.i;
          } else {
            return Some(InvalidTorrentFile);
          }
        }
        isMultiFile := false;
      }
      return None;
    }
  }

  /** The `Name` after `parseInfo`: a string `name` is taken, and an empty result
      is replaced by the placeholder (`uuid.New().String()`). */
  function NameAfter(m: map<Bytes, Value>, current: Bytes, placeholder: Bytes): (r: Bytes)
    requires |placeholder| > 0
    ensures |r| > 0
    ensures KeyName in m && m[KeyName].Str? && |m[KeyName].s| > 0 ==> r == m[KeyName].s
  {
    var n := if KeyName in m && m[KeyName].Str? then m[KeyName].s else current;
    if |n| == 0 then placeholder else n
  }

  /** `piece length`, when present, is an integer. */
  predicate PieceLengthOk(m: map<Bytes, Value>)
  {
    KeyPieceLength !in m || m[KeyPieceLength].Int?
  }

  /** `pieces`, when present, is a string. */
  predicate PiecesOk(m: map<Bytes, Value>)
  {
    KeyPieces !in m || m[KeyPieces].Str?
  }

  /** How `parseInfo` ends, given the name it has settled on and the `Length` the
      info had on entry: a mistyped `piece length` or `pieces`, a mistyped
      `files`, a failing multi-file tree, or (single-file) a mistyped `length`. */
  function InfoError(m: map<Bytes, Value>, name: Bytes, length: int64): Option<TorrentError>
  {
    if !PieceLengthOk(m) || !PiecesOk(m) then Some(InvalidTorrentFile)
    else LayoutError(m, name, length)
  }

  /** How the `files`/`length` step of `parseInfo` ends. */
  function LayoutError(m: map<Bytes, Value>, name: Bytes, length: int64): Option<TorrentError>
  {
    if KeyFiles in m then
      if !m[KeyFiles].List? then Some(InvalidTorrentFile)
      else
        match MultiFileTree(name, length, m[KeyFiles].items)
        case Failed(e) => Some(e)
        case Done(_) => None
    else if KeyLength in m && !m[KeyLength].Int? then Some(InvalidTorrentFile)
    else None
  }

  /** Every value inside a decoded dictionary can be encoded again. */
  lemma EntryMarshals(d: Value, key: Bytes)
    requires Parsed(d) && d.Dict? && key in d.entries
    ensures Marshal(d.entries[key]).Success?
  {
    ParsedIsSupported(d.entries[key]);
    MarshalSucceedsIffSupported(d.entries[key]);
  }

  /** `NewTorrentFile`: decode the input, require a dictionary with a string
      `announce` and an `info` key, parse an `info` that is a dictionary (one of
      another kind is skipped) and set the info hash to the digest of its
      re-encoding. The digest is the `sha1` parameter and the placeholder name
      the `placeholder` parameter. Re-encoding a decoded dictionary cannot fail,
      so the error return of `bencode.Marshal` is never taken. */
  method NewTorrentFile(s: Bytes, sha1: Bytes -> Bytes, placeholder: Bytes) returns (tf: TorrentFile?, err: Option<TorrentError>)
    requires |placeholder| > 0
    ensures err.None? <==> tf != null
    ensures Unmarshal(s).Failure? ==> err == Some(Decode(Unmarshal(s).error))
    ensures Unmarshal(s).Success? && !Unmarshal(s).value.Dict? ==> err == Some(InvalidTorrentFile)
    ensures Unmarshal(s).Success? && Unmarshal(s).value.Dict? ==>
      var m := Unmarshal(s).value.entries;
      && (!HasAnnounce(m) || KeyInfo !in m ==> err == Some(InvalidTorrentFile))
      && (HasAnnounce(m) && KeyInfo in m && m[KeyInfo].Dict? ==>
            err == InfoError(m[KeyInfo].entries, NameAfter(m[KeyInfo].entries, [], placeholder), 0))
      && (HasAnnounce(m) && KeyInfo in m && !m[KeyInfo].Dict? ==> err.None?)
      && (tf != null ==>
            && fresh(tf) && fresh(tf.info)
            && tf.announce == m[KeyAnnounce].s
            && tf.announceList == AnnounceListSetting(m, [])
            && tf.comment == StringSetting(m, KeyComment, [])
            && tf.createdBy == StringSetting(m, KeyCreatedBy, [])
            && tf.createdAt == IntSetting(m, KeyCreationDate, 0)
            && (m[KeyInfo].Dict? ==>
                  var i := m[KeyInfo].entries;
                  && tf.info.name == NameAfter(i, [], placeholder)
                  && tf.info.pieceLength == (if KeyPieceLength in i then i[KeyPieceLength].i else 0)
                  && tf.info.pieceHashes == (if KeyPieces in i then Pieces(i[KeyPieces].s) else [])
                  && tf.info.isMultiFile == (KeyFiles in i)
                  && tf.info.length == (if KeyFiles !in i && KeyLength in i then i[KeyLength].i else 0)
                  && tf.info.multiFiles == (if KeyFiles in i then MultiFileTree(tf.info.name, 0, i[KeyFiles].items).value
                                            else ZeroNode)
                  && Marshal(m[KeyInfo]).Success?
                  && tf.info.hash == sha1(Marshal(m[KeyInfo]).value))
            && (!m[KeyInfo].Dict? ==> tf.info.IsZero()))
  {
    var res := Unmarshal(s);
    if res.Failure? {
      return null, Some(Decode(res.error));
    }
    if !res.value.Dict? {
      return null, Some(InvalidTorrentFile);
    }
    var tfMap := res.value.entries;
    var t := new TorrentFile();
    err := t.ParseBase(tfMap);
    if err.Some? {
      return null, err;
    }
    if KeyInfo in tfMap {
      var v := tfMap[KeyInfo];
      if v.Dict? {
        err := t.info.ParseInfo(v.entries, placeholder);
        if err.Some? {
          return null, err;
        }
        EntryMarshals(res.value, KeyInfo);
        var infoBencode := Marshal(v);
        t.info.hash := sha1(infoBencode.value);
      }
    } else {
      return null, Some(InvalidTorrentFile);
    }
    return t, None;
  }

  // ---------------------------------------------------------------------------
  // The multi-file tree (buildIMutiFile, buildTorrentMutiFile, parseMutiFile)

  /** `TMF_TYPE`. */
  datatype NodeKind = Directory | File

  /** `TorrentMutiFile`. `subs` is `None` for a nil map, which Go lets a reader
      look into but panics on when assigned into. */
  datatype Node = Node(kind: NodeKind, name: Bytes, length: int64, subs: Option<map<Bytes, Node>>, order: seq<Bytes>)

  /** The zero `TorrentMutiFile`. */
  const ZeroNode: Node := Node(Directory, [], 0, None, [])

  /** A directory node as `buildTorrentMutiFile` and `parseMutiFile` create it. */
  function DirNode(name: Bytes, length: int64): Node
  {
    Node(Directory, name, length, Some(map[]), [])
  }

  /** A leaf. */
  function FileNode(name: Bytes, length: int64): Node
  {
    Node(File, name, length, None, [])
  }

  /** `buildTorrentMutiFile`: insert a file of `length` bytes at `path` below
      `upper`. A last segment becomes a FILE node and its name is appended to
      `SubsOrder` every time; an intermediate directory is reused when present
      and appended to `SubsOrder` only when it is created. An empty path indexes
      `path[0]` and panics; inserting below a FILE node assigns into its nil
      `Subs` map and panics. */
  function BuildTree(upper: Node, path: seq<Bytes>, length: int64): (r: Outcome<Node>)
    decreases |path|
  {
    if |path| == 0 then Failed(IndexOutOfRange)
    else if |path| == 1 then
      if upper.subs.None? then Failed(NilMapWrite)
      else Done(upper.(subs := Some(upper.subs.value[path[0] := FileNode(path[0], length)]),
                       order := upper.order + [path[0]]))
    else
      var found := upper.subs.Some? && path[0] in upper.subs.value;
      var tmf := if found then upper.subs.value[path[0]] else DirNode(path[0], 0);
      var order := if found then upper.order else upper.order + [path[0]];
      match BuildTree(tmf, path[1..], length)
      case Failed(e) => Failed(e)
      case Done(t) =>
        if upper.subs.None? then Failed(NilMapWrite)
        else Done(upper.(subs := Some(upper.subs.value[path[0] := t]), order := order))
  }

  /** The node reached from `n` by following `path` through the `Subs` maps. */
  function Find(n: Node, path: seq<Bytes>): Option<Node>
    decreases |path|
  {
    if path == [] then Some(n)
    else if n.subs.Some? && path[0] in n.subs.value then Find(n.subs.value[path[0]], path[1..])
    else None
  }

  /** The walk `buildTorrentMutiFile` does without panicking: a non-empty path
      whose every step goes through a directory (an existing one, or a new one). */
  predicate Insertable(n: Node, path: seq<Bytes>)
    decreases |path|
  {
    |path| > 0 && n.subs.Some?
    && (|path| > 1 && path[0] in n.subs.value ==> Insertable(n.subs.value[path[0]], path[1..]))
  }

  /** Below a fresh directory every non-empty path can be inserted. */
  lemma {:induction false} FreshInsertable(name: Bytes, path: seq<Bytes>)
    requires |path| > 0
    ensures Insertable(DirNode(name, 0), path)
  {
  }

  /** `buildTorrentMutiFile` panics exactly when the path is empty or runs into
      a FILE node. */
  lemma {:induction false} BuildTreeSucceeds(upper: Node, path: seq<Bytes>, length: int64)
    ensures BuildTree(upper, path, length).Done? <==> Insertable(upper, path)
    decreases |path|
  {
    if |path| > 1 {
      var found := upper.subs.Some? && path[0] in upper.subs.value;
      if found {
        BuildTreeSucceeds(upper.subs.value[path[0]], path[1..], length);
      } else {
        BuildTreeSucceeds(DirNode(path[0], 0), path[1..], length);
        FreshInsertable(path[0], path[1..]);
      }
    }
  }

  /** After an insertion the path leads to a FILE node of the given length. */
  lemma {:induction false} BuildTreeFinds(upper: Node, path: seq<Bytes>, length: int64)
    requires BuildTree(upper, path, length).Done?
    ensures Find(BuildTree(upper, path, length).value, path) == Some(FileNode(path[|path| - 1], length))
    decreases |path|
  {
    var r := BuildTree(upper, path, length).value;
    if |path| > 1 {
      var found := upper.subs.Some? && path[0] in upper.subs.value;
      var tmf := if found then upper.subs.value[path[0]] else DirNode(path[0], 0);
      BuildTreeFinds(tmf, path[1..], length);
      assert path[1..][|path[1..]| - 1] == path[|path| - 1];
    }
  }

  /** An insertion changes only the entry under the first segment, and keeps the
      node's own type, name and length. `SubsOrder` gains the first segment when
      it is a file name or a directory that had to be created. */
  lemma BuildTreeFrame(upper: Node, path: seq<Bytes>, length: int64)
    requires BuildTree(upper, path, length).Done?
    ensures var r := BuildTree(upper, path, length).value;
      && r.kind == upper.kind && r.name == upper.name && r.length == upper.length
      && upper.subs.Some? && r.subs.Some?
      && r.subs.value.Keys == upper.subs.value.Keys + {path[0]}
      && (forall k :: k in upper.subs.value && k != path[0] ==> r.subs.value[k] == upper.subs.value[k])
      && r.order == upper.order + (if |path| == 1 || path[0] !in upper.subs.value then [path[0]] else [])
  {
  }

  /** `SubsOrder` lists exactly the names in `Subs` (possibly repeated), and an
      insertion keeps it so. */
  lemma BuildTreeKeepsOrder(upper: Node, path: seq<Bytes>, length: int64)
    requires BuildTree(upper, path, length).Done?
    requires upper.subs.Some? && (set k | k in upper.order) == upper.subs.value.Keys
    ensures var r := BuildTree(upper, path, length).value;
      r.subs.Some? && (set k | k in r.order) == r.subs.value.Keys
  {
    BuildTreeFrame(upper, path, length);
  }

  /** `iMutiFile`. */
  datatype IMultiFile = IMultiFile(path: seq<Bytes>, length: int64)

  /** One dictionary of `files`: `length` must be an `int64` and `path` a list,
      whose non-string segments are dropped. */
  function FileEntry(file: map<Bytes, Value>): Option<IMultiFile>
  {
    if KeyLength in file && file[KeyLength].Int? && KeyPath in file && file[KeyPath].List? then
      Some(IMultiFile(Strings(file[KeyPath].items), file[KeyLength].i))
    else None
  }

  /** `buildIMutiFile` as a value: `None` is `ErrInvalidTorrentFile`; entries that
      are not dictionaries are skipped. */
  function IMultiFiles(fileList: seq<Value>): Option<seq<IMultiFile>>
  {
    if fileList == [] then Some([])
    else
      match IMultiFiles(fileList[..|fileList| - 1])
      case None => None
      case Some(prefix) =>
        var f := fileList[|fileList| - 1];
        if !f.Dict? then Some(prefix)
        else
          match FileEntry(f.entries)
          case None => None
          case Some(imf) => Some(prefix + [imf])
  }

  /** The number of dictionaries among `fs`. */
  function DictCount(fs: seq<Value>): nat
  {
    if fs == [] then 0 else DictCount(fs[..|fs| - 1]) + (if fs[|fs| - 1].Dict? then 1 else 0)
  }

  /** `buildIMutiFile` fails exactly when some dictionary of the list is missing a
      well-typed `length` or `path`; otherwise it yields one entry per dictionary. */
  lemma {:induction false} IMultiFilesSpec(fs: seq<Value>)
    ensures IMultiFiles(fs).None?
      <==> exists i :: 0 <= i < |fs| && fs[i].Dict? && FileEntry(fs[i].entries).None?
    ensures IMultiFiles(fs).Some? ==> |IMultiFiles(fs).value| == DictCount(fs)
    decreases |fs|
  {
    if fs != [] {
      var n := |fs|;
      var pre := fs[..n - 1];
      IMultiFilesSpec(pre);
      if exists i :: 0 <= i < |pre| && pre[i].Dict? && FileEntry(pre[i].entries).None? {
        var i :| 0 <= i < |pre| && pre[i].Dict? && FileEntry(pre[i].entries).None?;
        assert fs[i] == pre[i];
      }
      if exists i :: 0 <= i < n && fs[i].Dict? && FileEntry(fs[i].entries).None? {
        var i :| 0 <= i < n && fs[i].Dict? && FileEntry(fs[i].entries).None?;
        if i < n - 1 { assert pre[i] == fs[i]; }
      }
    }
  }

  /** Once a prefix of the list is rejected, the whole list is. */
  lemma {:induction false} IMultiFilesFailureSticks(fs: seq<Value>, i: nat)
    requires i <= |fs| && IMultiFiles(fs[..i]).None?
    ensures IMultiFiles(fs).None?
    decreases |fs| - i
  {
    if i < |fs| {
      assert fs[..i + 1][..i] == fs[..i];
      IMultiFilesFailureSticks(fs, i + 1);
    } else {
      assert fs[..i] == fs;
    }
  }

  /** `buildIMutiFile`. */
  method BuildIMultiFile(fileList: seq<Value>) returns (r: Option<seq<IMultiFile>>)
    ensures r == IMultiFiles(fileList)
  {
    var ret: seq<IMultiFile> := [];
    for i := 0 to |fileList|
      invariant IMultiFiles(fileList[..i]) == Some(ret)
    {
      assert fileList[..i + 1][..i] == fileList[..i];
      if !fileList[i].Dict? {
        continue;
      }
      var file := fileList[i].entries;
      var imfLength: int64;
      if KeyLength in file {
        var v := file[KeyLength];
        if v.Int? {
          imfLength := v.i;
        } else {
          IMultiFilesFailureSticks(fileList, i + 1);
          return None;
        }
      } else {
        IMultiFilesFailureSticks(fileList, i + 1);
        return None;
      }
      var imfPath: seq<Bytes>;
      if KeyPath in file {
        var v := file[KeyPath];
        if v.List? {
          imfPath := [];
          for j := 0 to |v.items|
            invariant imfPath == Strings(v.items[..j])
          {
            assert v.items[..j + 1][..j] == v.items[..j];
            if v.items[j].Str? {
              imfPath := imfPath + [v.items[j].s];
            }
          }
          assert v.items[..|v.items|] == v.items;
        } else {
          IMultiFilesFailureSticks(fileList, i + 1);
          return None;
        }
      } else {
        IMultiFilesFailureSticks(fileList, i + 1);
        return None;
      }
      ret := ret + [IMultiFile(imfPath, imfLength)];
    }
    assert fileList[..|fileList|] == fileList;
    return Some(ret);
  }

  /** Once an insertion panics, the remaining entries are never inserted. */
  lemma {:induction false} BuildAllFailureSticks(root: Node, imfs: seq<IMultiFile>, i: nat)
    requires i <= |imfs| && BuildAll(root, imfs[..i]).Failed?
    ensures BuildAll(root, imfs) == Failed(BuildAll(root, imfs[..i]).err)
    decreases |imfs| - i
  {
    if i < |imfs| {
      assert imfs[..i + 1][..i] == imfs[..i];
      BuildAllFailureSticks(root, imfs, i + 1);
    } else {
      assert imfs[..i] == imfs;
    }
  }

  /** The tree after inserting every entry, in order, into `root`. */
  function BuildAll(root: Node, imfs: seq<IMultiFile>): Outcome<Node>
  {
    if imfs == [] then Done(root)
    else
      match BuildAll(root, imfs[..|imfs| - 1])
      case Failed(e) => Failed(e)
      case Done(t) => BuildTree(t, imfs[|imfs| - 1].path, imfs[|imfs| - 1].length)
  }

  /** `parseMutiFile` as a value: the root is a directory named after the torrent
      and carrying the info's `Length` at the time of the call. */
  function MultiFileTree(name: Bytes, length: int64, fileList: seq<Value>): Outcome<Node>
  {
    match IMultiFiles(fileList)
    case None => Failed(InvalidTorrentFile)
    case Some(imfs) => BuildAll(DirNode(name, length), imfs)
  }

  /** Every entry inserted into the tree is found at its path with its length,
      unless a later entry replaced it. */
  lemma BuildAllFindsLast(root: Node, imfs: seq<IMultiFile>)
    requires |imfs| > 0 && BuildAll(root, imfs).Done?
    ensures var last := imfs[|imfs| - 1];
      Find(BuildAll(root, imfs).value, last.path) == Some(FileNode(last.path[|last.path| - 1], last.length))
  {
    var last := imfs[|imfs| - 1];
    var t := BuildAll(root, imfs[..|imfs| - 1]).value;
    BuildTreeFinds(t, last.path, last.length);
  }

  // ---------------------------------------------------------------------------
  // pieces

  /** The hashes of `pieces`: consecutive 20-byte slices; a shorter tail is dropped. */
  function Pieces(raw: Bytes): (r: seq<Bytes>)
    ensures |r| == |raw| / PieceLen
  {
    seq(|raw| / PieceLen, i requires 0 <= i < |raw| / PieceLen => raw[i * PieceLen..(i + 1) * PieceLen])
  }

  /** The loop of `parseInfo` that copies `raw[i*20:(i+1)*20]` into `pieces[i]`. */
  method SplitPieces(raw: Bytes) returns (pieces: seq<Bytes>)
    ensures pieces == Pieces(raw)
  {
    var count := |raw| / PieceLen;
    pieces := [];
    for i := 0 to count
      invariant |pieces| == i
      invariant forall j :: 0 <= j < i ==> pieces[j] == raw[j * PieceLen..(j + 1) * PieceLen]
    {
      pieces := pieces + [raw[i * PieceLen..(i + 1) * PieceLen]];
    }
  }

  /** The hashes, written back to back, are `pieces` without its tail of fewer
      than 20 bytes; each has exactly 20 bytes. */
  lemma {:induction false} PiecesCover(raw: Bytes)
    ensures var ps := Pieces(raw);
      && (forall i :: 0 <= i < |ps| ==> |ps[i]| == PieceLen)
      && Concat(ps) == raw[..|ps| * PieceLen]
      && |raw| - |ps| * PieceLen < PieceLen
  {
    var ps := Pieces(raw);
    PiecesPrefix(raw, |ps|);
    assert ps[..|ps|] == ps;
  }

  lemma {:induction false} PiecesPrefix(raw: Bytes, n: nat)
    requires n <= |raw| / PieceLen
    ensures Concat(Pieces(raw)[..n]) == raw[..n * PieceLen]
  {
    var ps := Pieces(raw);
    if n > 0 {
      PiecesPrefix(raw, n - 1);
      assert ps[..n][..n - 1] == ps[..n - 1];
      assert raw[..n * PieceLen] == raw[..(n - 1) * PieceLen] + raw[(n - 1) * PieceLen..n * PieceLen];
    } else {
      assert ps[..0] == [];
    }
  }
}
