/** The bencode front end (`bencode/bencode.go`): `Unmarshal`, and `Marshal` with
    its list and dictionary loops, plus the properties that relate the encoder to
    the parser of `BencodeCodec`. */
module Bencode {
  import opened Common
  import opened BencodeCodec
  import opened BencodeReading

  /** A value `marshal` has a case for at every depth. */
  predicate Supported(v: Value)
  {
    match v
    case Int(_) => true
    case Str(_) => true
    case List(items) => forall i :: 0 <= i < |items| ==> Supported(items[i])
    case Dict(m) => forall k :: k in m ==> Supported(m[k])
    case Other => false
  }

  /** `Unmarshal`: parse exactly one value from the front of the input; anything
      after it is left unread. */
  function Unmarshal(s: Bytes): (r: Result<Value>)
    ensures r.Success? ==> Parsed(r.value)
  {
    ValueAtResult(s);
    match ValueAt(s)
    case Ok(v, _) => Success(v)
    case Fail(e) => Failure(e)
  }

  // ---------------------------------------------------------------------------
  // marshal, marshalSlice, marshalMap (value semantics)

  /** `Marshal` / `marshal`: integers and strings by their codec encodings, lists
      as `l`, the element encodings in order, `e`, dictionaries as `d`, key and
      value encodings in ascending key order, `e`; any other kind at any depth is
      `ErrInvalidType`. */
  function Marshal(v: Value): (r: Result<Bytes>)
    ensures r.Failure? ==> r.error == InvalidType
    ensures r.Success? ==> |r.value| > 0 && r.value[0] != CharE
    decreases v, 1
  {
    match v
    case Int(i) => Success(EncodeInt64(i))
    case Str(s) => Success(EncodeStr(s))
    case List(items) =>
      (match MarshalItems(v, |items|)
       case Success(body) => Success([CharL] + body + [CharE])
       case Failure(e) => Failure(e))
    case Dict(m) =>
      (match MarshalEntries(v, SortedKeys(m.Keys), |m.Keys|)
       case Success(body) => Success([CharD] + body + [CharE])
       case Failure(e) => Failure(e))
    case Other => Failure(InvalidType)
  }

  /** The encodings of the first `n` elements of a list, concatenated; the first
      failing element decides the error. */
  function MarshalItems(v: Value, n: nat): (r: Result<Bytes>)
    requires v.List? && n <= |v.items|
    ensures r.Failure? ==> r.error == InvalidType
    decreases v, 0, n
  {
    if n == 0 then Success([])
    else
      match MarshalItems(v, n - 1)
      case Failure(e) => Failure(e)
      case Success(prefix) =>
        match Marshal(v.items[n - 1])
        case Failure(e) => Failure(e)
        case Success(x) => Success(prefix + x)
  }

  /** The key and value encodings of the first `n` of `keys`, concatenated. */
  function MarshalEntries(v: Value, keys: seq<Bytes>, n: nat): (r: Result<Bytes>)
    requires v.Dict? && n <= |keys|
    requires forall k :: k in keys ==> k in v.entries
    ensures r.Failure? ==> r.error == InvalidType
    decreases v, 0, n
  {
    if n == 0 then Success([])
    else
      match MarshalEntries(v, keys, n - 1)
      case Failure(e) => Failure(e)
      case Success(prefix) =>
        match Marshal(v.entries[keys[n - 1]])
        case Failure(e) => Failure(e)
        case Success(x) => Success(prefix + EncodeStr(keys[n - 1]) + x)
  }

  // ---------------------------------------------------------------------------
  // The loops of marshal, marshalSlice and marshalMap

  /** `marshal`: the dispatch on the value's kind. */
  method MarshalValue(v: Value) returns (r: Result<Bytes>)
    ensures r == Marshal(v)
    decreases v, 1
  {
    match v
    case Int(i) => r := Success(EncodeInt64(i));
    case Str(s) => r := Success(EncodeStr(s));
    case List(_) => r := MarshalSlice(v);
    case Dict(_) => r := MarshalMap(v);
    case Other => r := Failure(InvalidType);
  }

  /** `marshalSlice`: `ret += marshal(element)` for each element in order. */
  method MarshalSlice(v: Value) returns (r: Result<Bytes>)
    requires v.List?
    ensures r == Marshal(v)
    decreases v, 0
  {
    var body: Bytes := [];
    for i := 0 to |v.items|
      invariant MarshalItems(v, i) == Success(body)
    {
      var res := MarshalValue(v.items[i]);
      if res.Failure? {
        ItemsFailureSticks(v, i + 1, |v.items|);
        return Failure(res.error);
      }
      body := body + res.value;
    }
    r := Success([CharL] + body + [CharE]);
  }

  /** `marshalMap`: sort the keys, then `ret += key + value` for each key. */
  method MarshalMap(v: Value) returns (r: Result<Bytes>)
    requires v.Dict?
    ensures r == Marshal(v)
    decreases v, 0
  {
    var keys := SortedKeys(v.entries.Keys);
    var body: Bytes := [];
    for i := 0 to |keys|
      invariant MarshalEntries(v, keys, i) == Success(body)
    {
      var marshaledValue := MarshalValue(v.entries[keys[i]]);
      if marshaledValue.Failure? {
        EntriesFailureSticks(v, keys, i + 1, |keys|);
        return Failure(marshaledValue.error);
      }
      var marshaledKey := EncodeStr(keys[i]);
      body := body + marshaledKey + marshaledValue.value;
    }
    r := Success([CharD] + body + [CharE]);
  }

  lemma {:induction false} ItemsFailureSticks(v: Value, i: nat, n: nat)
    requires v.List? && i <= n <= |v.items|
    requires MarshalItems(v, i).Failure?
    ensures MarshalItems(v, n).Failure?
    decreases n
  {
    if i < n { ItemsFailureSticks(v, i, n - 1); }
  }

  lemma {:induction false} EntriesFailureSticks(v: Value, keys: seq<Bytes>, i: nat, n: nat)
    requires v.Dict? && i <= n <= |keys|
    requires forall k :: k in keys ==> k in v.entries
    requires MarshalEntries(v, keys, i).Failure?
    ensures MarshalEntries(v, keys, n).Failure?
    decreases n
  {
    if i < n { EntriesFailureSticks(v, keys, i, n - 1); }
  }

  // ---------------------------------------------------------------------------
  // Failure

  /** `Marshal` succeeds exactly on the values that hold no unsupported kind at any
      depth: an `ErrInvalidType` deep inside propagates through every enclosing
      list and map. */
  lemma {:induction false} MarshalSucceedsIffSupported(v: Value)
    ensures Marshal(v).Success? <==> Supported(v)
    decreases v, 1
  {
    match v
    case Int(_) =>
    case Str(_) =>
    case List(items) =>
      ItemsSucceedIffSupported(v, |items|);
    case Dict(m) =>
      var keys := SortedKeys(m.Keys);
      EntriesSucceedIffSupported(v, keys, |keys|);
      SupportedListedEntries(m, keys);
    case Other =>
  }

  lemma SupportedListedEntries(m: map<Bytes, Value>, keys: seq<Bytes>)
    requires forall k :: k in keys <==> k in m
    ensures (forall i :: 0 <= i < |keys| ==> Supported(m[keys[i]]))
      <==> (forall k :: k in m ==> Supported(m[k]))
  {
    if forall i :: 0 <= i < |keys| ==> Supported(m[keys[i]]) {
      forall k | k in m ensures Supported(m[k]) {
        var i :| 0 <= i < |keys| && keys[i] == k;
      }
    }
  }

  lemma {:induction false} ItemsSucceedIffSupported(v: Value, n: nat)
    requires v.List? && n <= |v.items|
    ensures MarshalItems(v, n).Success? <==> forall i :: 0 <= i < n ==> Supported(v.items[i])
    decreases v, 0, n
  {
    if n > 0 {
      ItemsSucceedIffSupported(v, n - 1);
      MarshalSucceedsIffSupported(v.items[n - 1]);
      MarshalItemsStep(v, n);
      SupportedItemsStep(v.items, n);
    }
  }

  lemma MarshalItemsStep(v: Value, n: nat)
    requires v.List? && 0 < n <= |v.items|
    ensures MarshalItems(v, n).Success?
      <==> MarshalItems(v, n - 1).Success? && Marshal(v.items[n - 1]).Success?
  {
  }

  lemma MarshalEntriesStep(v: Value, keys: seq<Bytes>, n: nat)
    requires v.Dict? && 0 < n <= |keys|
    requires forall k :: k in keys ==> k in v.entries
    ensures MarshalEntries(v, keys, n).Success?
      <==> MarshalEntries(v, keys, n - 1).Success? && Marshal(v.entries[keys[n - 1]]).Success?
  {
  }

  lemma SupportedItemsStep(items: seq<Value>, n: nat)
    requires 0 < n <= |items|
    ensures (forall i :: 0 <= i < n ==> Supported(items[i]))
      <==> (forall i :: 0 <= i < n - 1 ==> Supported(items[i])) && Supported(items[n - 1])
  {
    if !forall i :: 0 <= i < n ==> Supported(items[i]) {
      var j :| 0 <= j < n && !Supported(items[j]);
      assert j < n - 1 ==> !forall i :: 0 <= i < n - 1 ==> Supported(items[i]);
    }
  }

  lemma {:induction false} EntriesSucceedIffSupported(v: Value, keys: seq<Bytes>, n: nat)
    requires v.Dict? && n <= |keys|
    requires forall k :: k in keys ==> k in v.entries
    ensures MarshalEntries(v, keys, n).Success?
        <==> forall i :: 0 <= i < n ==> Supported(v.entries[keys[i]])
    decreases v, 0, n
  {
    if n > 0 {
      EntriesSucceedIffSupported(v, keys, n - 1);
      MarshalSucceedsIffSupported(v.entries[keys[n - 1]]);
      MarshalEntriesStep(v, keys, n);
      SupportedEntriesStep(v.entries, keys, n);
    }
  }

  lemma SupportedEntriesStep(m: map<Bytes, Value>, keys: seq<Bytes>, n: nat)
    requires 0 < n <= |keys|
    requires forall k :: k in keys ==> k in m
    ensures (forall i :: 0 <= i < n ==> Supported(m[keys[i]]))
      <==> (forall i :: 0 <= i < n - 1 ==> Supported(m[keys[i]])) && Supported(m[keys[n - 1]])
  {
    if !forall i :: 0 <= i < n ==> Supported(m[keys[i]]) {
      var j :| 0 <= j < n && !Supported(m[keys[j]]);
      assert j < n - 1 ==> !forall i :: 0 <= i < n - 1 ==> Supported(m[keys[i]]);
    }
  }

  // ---------------------------------------------------------------------------
  // Round trip

  /** The entries of `m` selected by the keys in `ks`. */
  function Pick(m: map<Bytes, Value>, ks: seq<Bytes>): (r: map<Bytes, Value>)
    requires forall k :: k in ks ==> k in m
    ensures r.Keys == set k | k in ks
    ensures forall k :: k in r ==> r[k] == m[k]
  {
    map k | k in ks :: m[k]
  }

  /** The encodings `Marshal` gives the values of `vs`, one per value. */
  function Encodings(vs: seq<Value>): (r: seq<Bytes>)
    ensures |r| == |vs|
  {
    seq(|vs|, i requires 0 <= i < |vs| => if Marshal(vs[i]).Success? then Marshal(vs[i]).value else [])
  }

  /** Every value of `vs` can be marshalled. */
  ghost predicate AllMarshal(vs: seq<Value>)
  {
    forall i :: 0 <= i < |vs| ==> Marshal(vs[i]).Success?
  }

  /** The values of `m` under `keys`, in the order of `keys`. */
  function Lookup(m: map<Bytes, Value>, keys: seq<Bytes>): (r: seq<Value>)
    requires forall k :: k in keys ==> k in m
    ensures |r| == |keys|
  {
    seq(|keys|, i requires 0 <= i < |keys| => m[keys[i]])
  }

  /** Decoding a marshalled value gives the value back, whatever follows it. */
  lemma {:induction false} ValueRoundTrip(v: Value, t: Bytes)
    requires Parsed(v)
    ensures Marshal(v).Success? && ValueAt(Marshal(v).value + t) == Ok(v, t)
    decreases v, 2
  {
    match v
    case Int(i) =>
      var s := EncodeInt64(i) + t;
      IntRoundTrip(i, t);
      assert s[0] == CharI;
      ValueAtInt(s);
    case Str(str) =>
      var s := EncodeStr(str) + t;
      StrRoundTrip(str, t);
      assert s[0] == EncodeStr(str)[0];
      ValueAtStr(s);
    case List(_) =>
      ListRoundTrip(v, t);
    case Dict(_) =>
      DictRoundTrip(v, t);
  }

  lemma {:induction false} ListRoundTrip(v: Value, t: Bytes)
    requires Parsed(v) && v.List?
    ensures Marshal(v).Success? && ValueAt(Marshal(v).value + t) == Ok(v, t)
    decreases v, 1
  {
    var items := v.items;
    var encs := Encodings(items);
    ElementsReadBack(v);
    ItemsConcat(v, |items|);
    assert encs[..|items|] == encs;
    ListReadsConcat(encs, items, [CharE] + t, []);
    AppendEmpty(items, []);
    ListFrame(Concat(encs), t, items);
  }

  /** The frame `l … e` around a run of encodings that read back as `items`. */
  lemma ListFrame(body: Bytes, t: Bytes, items: seq<Value>)
    requires ListAt(body + ([CharE] + t), []) == ListAt([CharE] + t, items)
    ensures ValueAt([CharL] + body + [CharE] + t) == Ok(List(items), t)
  {
    var x := body + ([CharE] + t);
    assert [CharL] + body + [CharE] + t == [CharL] + x;
    ValueAtList(x);
    ListAtEnd(t, items);
  }

  /** Every element of a parsed list reads back from its encoding. */
  lemma {:induction false} ElementsReadBack(v: Value)
    requires Parsed(v) && v.List?
    ensures ReadsAs(Encodings(v.items), v.items)
    ensures AllMarshal(v.items)
    decreases v, 0
  {
    var encs := Encodings(v.items);
    forall i | 0 <= i < |v.items|
      ensures Marshal(v.items[i]).Success? && ReadsBack(encs[i], v.items[i])
    {
      ValueRoundTrip(v.items[i], []);
      forall u ensures ValueAt(encs[i] + u) == Ok(v.items[i], u) {
        ValueRoundTrip(v.items[i], u);
      }
    }
  }

  /** `marshalSlice`'s body is the element encodings written one after another. */
  lemma {:induction false} ItemsConcat(v: Value, n: nat)
    requires v.List? && n <= |v.items|
    requires AllMarshal(v.items)
    ensures MarshalItems(v, n) == Success(Concat(Encodings(v.items)[..n]))
    decreases n
  {
    if n > 0 {
      ItemsConcat(v, n - 1);
      var encs := Encodings(v.items);
      assert encs[..n][..n - 1] == encs[..n - 1];
    }
  }

  lemma {:induction false} DictRoundTrip(v: Value, t: Bytes)
    requires Parsed(v) && v.Dict?
    ensures Marshal(v).Success? && ValueAt(Marshal(v).value + t) == Ok(v, t)
    decreases v, 1
  {
    var keys := SortedKeys(v.entries.Keys);
    var vals := Lookup(v.entries, keys);
    EntriesReadBack(v);
    DictBody(v);
    DictReadsBack(v.entries, keys, vals, t);
  }

  /** `marshalMap`'s output for a map whose values all marshal. */
  lemma DictBody(v: Value)
    requires v.Dict?
    requires var keys := SortedKeys(v.entries.Keys);
      AllMarshal(Lookup(v.entries, keys))
    ensures var keys := SortedKeys(v.entries.Keys);
      Marshal(v) == Success([CharD] + Concat(Pairs(keys, Encodings(Lookup(v.entries, keys)))) + [CharE])
  {
    var keys := SortedKeys(v.entries.Keys);
    var encs := Encodings(Lookup(v.entries, keys));
    EntriesConcat(v, keys, |keys|);
    assert keys[..|keys|] == keys && encs[..|keys|] == encs;
  }

  /** The parser reads a dictionary body written in sorted key order back as the map. */
  lemma DictReadsBack(m: map<Bytes, Value>, keys: seq<Bytes>, vals: seq<Value>, t: Bytes)
    requires keys == SortedKeys(m.Keys) && vals == Lookup(m, keys)
    requires EntryRun(keys, Encodings(vals), vals)
    ensures ValueAt([CharD] + Concat(Pairs(keys, Encodings(vals))) + [CharE] + t) == Ok(Dict(m), t)
  {
    var encs := Encodings(vals);
    DictReadsConcat(keys, encs, vals, [CharE] + t, map[]);
    StoreAllLookup(m, keys);
    PickAll(m, keys);
    DictFrame(Concat(Pairs(keys, encs)), t, m);
  }

  /** The frame `d … e` around a run of entries that read back as `m`. */
  lemma DictFrame(body: Bytes, t: Bytes, m: map<Bytes, Value>)
    requires DictAt(body + ([CharE] + t), map[]) == DictAt([CharE] + t, m)
    ensures ValueAt([CharD] + body + [CharE] + t) == Ok(Dict(m), t)
  {
    var x := body + ([CharE] + t);
    assert [CharD] + body + [CharE] + t == [CharD] + x;
    ValueAtDict(x);
    DictAtEnd(t, m);
  }

  /** Every value of a parsed dictionary reads back from its encoding, and
      every key is short enough to be read back. */
  lemma {:induction false} EntriesReadBack(v: Value)
    requires Parsed(v) && v.Dict?
    ensures var keys := SortedKeys(v.entries.Keys); var vals := Lookup(v.entries, keys);
      EntryRun(keys, Encodings(vals), vals)
      && AllMarshal(vals)
    decreases v, 0
  {
    var m := v.entries;
    var keys := SortedKeys(m.Keys);
    var vals := Lookup(m, keys);
    var encs := Encodings(vals);
    forall i | 0 <= i < |keys|
      ensures |keys[i]| <= MaxInt64
      ensures Marshal(vals[i]).Success? && ReadsBack(encs[i], vals[i])
    {
      assert keys[i] in m;
      ValueRoundTrip(m[keys[i]], []);
      forall u ensures ValueAt(encs[i] + u) == Ok(vals[i], u) {
        ValueRoundTrip(m[keys[i]], u);
      }
    }
  }

  /** `marshalMap`'s body is the key and value encodings written one after another. */
  lemma {:induction false} EntriesConcat(v: Value, keys: seq<Bytes>, n: nat)
    requires v.Dict? && n <= |keys|
    requires forall k :: k in keys ==> k in v.entries
    requires AllMarshal(Lookup(v.entries, keys))
    ensures var encs := Encodings(Lookup(v.entries, keys));
      MarshalEntries(v, keys, n) == Success(Concat(Pairs(keys[..n], encs[..n])))
    decreases n
  {
    if n > 0 {
      EntriesConcat(v, keys, n - 1);
      var encs := Encodings(Lookup(v.entries, keys));
      PairsLastConcat(keys[..n], encs[..n]);
      assert keys[..n][..n - 1] == keys[..n - 1] && encs[..n][..n - 1] == encs[..n - 1];
      Associative(Concat(Pairs(keys[..n - 1], encs[..n - 1])), EncodeStr(keys[n - 1]), encs[n - 1]);
    }
  }

  lemma PairsLastConcat(keys: seq<Bytes>, encs: seq<Bytes>)
    requires |keys| == |encs| > 0
    ensures var n := |keys|;
      Concat(Pairs(keys, encs))
        == Concat(Pairs(keys[..n - 1], encs[..n - 1])) + (EncodeStr(keys[n - 1]) + encs[n - 1])
  {
    var n := |keys|;
    assert Pairs(keys, encs)[..n - 1] == Pairs(keys[..n - 1], encs[..n - 1]);
  }

  /** Storing the values of `m` under its own keys, starting from nothing, picks those entries. */
  lemma {:induction false} StoreAllLookup(m: map<Bytes, Value>, keys: seq<Bytes>)
    requires forall k :: k in keys ==> k in m
    ensures StoreAll(map[], keys, Lookup(m, keys)) == Pick(m, keys)
    decreases |keys|
  {
    var n := |keys|;
    if n > 0 {
      var pre := keys[..n - 1];
      assert forall k :: k in pre ==> k in keys;
      StoreAllLookup(m, pre);
      assert Lookup(m, keys)[..n - 1] == Lookup(m, pre);
      assert Pick(m, pre)[keys[n - 1] := m[keys[n - 1]]] == Pick(m, keys) by {
        assert forall k :: k in keys <==> k in pre || k == keys[n - 1] by {
          TakeLast(keys);
        }
      }
    }
  }

  /** Picking every key of `m` gives `m`. */
  lemma PickAll(m: map<Bytes, Value>, keys: seq<Bytes>)
    requires forall k :: k in m <==> k in keys
    ensures Pick(m, keys) == m
  {
  }

  /** `Unmarshal(Marshal(v)) == v` holds exactly for the values `Unmarshal` can
      return: no unsupported kind anywhere and no byte string too long for a Go
      `int` to count. */
  lemma RoundTrip(v: Value)
    ensures Marshal(v).Success? && Unmarshal(Marshal(v).value) == Success(v) <==> Parsed(v)
  {
    if Parsed(v) {
      ValueRoundTrip(v, []);
      assert Marshal(v).value + [] == Marshal(v).value;
    }
  }

  /** `Unmarshal` reads one value off the front and ignores trailing bytes. */
  lemma UnmarshalIgnoresTrailing(v: Value, t: Bytes)
    requires Parsed(v)
    ensures Marshal(v).Success? && Unmarshal(Marshal(v).value + t) == Success(v)
  {
    ValueRoundTrip(v, t);
  }

  /** Cutting the closing `e` off a marshalled list leaves the list loop at the
      end of the input: `io.EOF`. */
  lemma UnterminatedListFails(v: Value)
    requires Parsed(v) && v.List?
    ensures Marshal(v).Success?
    ensures var e := Marshal(v).value; ValueAt(e[..|e| - 1]) == Fail(EndOfInput)
  {
    var items := v.items;
    var encs := Encodings(items);
    ElementsReadBack(v);
    ItemsConcat(v, |items|);
    assert encs[..|items|] == encs;
    var body := Concat(encs);
    ListReadsConcat(encs, items, [], []);
    assert body + [] == body;
    var e := Marshal(v).value;
    assert e[..|e| - 1] == [CharL] + body;
    ValueAtList(body);
  }

  /** Cutting the closing `e` off a marshalled dictionary leaves the dictionary
      loop at the end of the input: `io.EOF`. */
  lemma UnterminatedDictFails(v: Value)
    requires Parsed(v) && v.Dict?
    ensures Marshal(v).Success?
    ensures var e := Marshal(v).value; ValueAt(e[..|e| - 1]) == Fail(EndOfInput)
  {
    var keys := SortedKeys(v.entries.Keys);
    var vals := Lookup(v.entries, keys);
    var encs := Encodings(vals);
    EntriesReadBack(v);
    DictBody(v);
    var body := Concat(Pairs(keys, encs));
    DictReadsConcat(keys, encs, vals, [], map[]);
    assert body + [] == body;
    var e := Marshal(v).value;
    assert e[..|e| - 1] == [CharD] + body;
    ValueAtDict(body);
  }

  /** The dictionary loop stores each entry as it reads it, so a repeated key
      keeps the value read last. */
  lemma DictLastValueWins(k: Bytes, e1: Bytes, v1: Value, e2: Bytes, v2: Value, t: Bytes)
    requires |k| <= MaxInt64 && ReadsBack(e1, v1) && ReadsBack(e2, v2)
    ensures ValueAt([CharD] + (EncodeStr(k) + e1 + (EncodeStr(k) + e2)) + [CharE] + t)
      == Ok(Dict(map[k := v2]), t)
  {
    var keys, encs, vals := [k, k], [e1, e2], [v1, v2];
    assert ReadsBack(encs[0], vals[0]) && ReadsBack(encs[1], vals[1]);
    assert EntryRun(keys, encs, vals);
    DictReadsConcat(keys, encs, vals, [CharE] + t, map[]);
    assert Pairs(keys, encs) == [EncodeStr(k) + e1, EncodeStr(k) + e2];
    ConcatPair(EncodeStr(k) + e1, EncodeStr(k) + e2);
    StoreAllPair(map[], k, v1, k, v2);
    assert map[][k := v1][k := v2] == map[k := v2];
    DictFrame(EncodeStr(k) + e1 + (EncodeStr(k) + e2), t, map[k := v2]);
  }

  /** Everything `Unmarshal` returns can be marshalled again. */
  lemma {:induction false} ParsedIsSupported(v: Value)
    requires Parsed(v)
    ensures Supported(v)
    decreases v
  {
    match v
    case Int(_) =>
    case Str(_) =>
    case List(items) =>
      forall i | 0 <= i < |items| ensures Supported(items[i]) { ParsedIsSupported(items[i]); }
    case Dict(m) =>
      forall k | k in m ensures Supported(m[k]) { ParsedIsSupported(m[k]); }
  }

  lemma UnmarshalledMarshals(s: Bytes)
    requires Unmarshal(s).Success?
    ensures Marshal(Unmarshal(s).value).Success?
  {
    ParsedIsSupported(Unmarshal(s).value);
    MarshalSucceedsIffSupported(Unmarshal(s).value);
  }
}
