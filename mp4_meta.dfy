/**
 * QuickTime metadata inside a `meta` box: the `keys` box names the keys,
 * the `ilst` box holds one value per entry pointing at a key by its 1-based
 * index, and the `hdlr` box says which of these layouts is in use.
 */
module Mp4Meta {
  import opened Bytes
  import Mp4

  const Keys: seq<byte> := [0x6B, 0x65, 0x79, 0x73]     // keys
  const Ilst: seq<byte> := [0x69, 0x6C, 0x73, 0x74]     // ilst
  const Mdta: seq<byte> := [0x6D, 0x64, 0x74, 0x61]     // mdta
  const Hdlr: seq<byte> := [0x68, 0x64, 0x6C, 0x72]     // hdlr
  const DataAtom: seq<byte> := [0x64, 0x61, 0x74, 0x61] // data

  const EmptyMeta: string := "empty meta box"
  const KeysNotFound: string := "keys box not found"
  const IlstNotFound: string := "ilst box not found"
  const InvalidIdentifier: string := "invalid data identifier"

  /** A box whose payload can be read: its size covers its own header. */
  predicate Sized(b: Mp4.Box)
  {
    Mp4.HeaderLength(b) <= b.size
  }

  // ---- keys ----

  /**
   * `count` more key entries from `so`: each starts with a big-endian size
   * of at least 8 (size and namespace) and ends within the payload.
   */
  predicate KeysFrom(data: seq<byte>, so: nat, count: nat)
    decreases count
  {
    count == 0
    || (so + 4 <= |data| && 8 <= BE(data[so..so + 4]) && so + BE(data[so..so + 4]) <= |data|
        && KeysFrom(data, so + BE(data[so..so + 4]), count - 1))
  }

  /** The key names of `count` entries from `so`: each entry's bytes after its size and namespace. */
  function KeysAt(data: seq<byte>, so: nat, count: nat): (r: seq<seq<byte>>)
    requires KeysFrom(data, so, count)
    ensures |r| == count
    decreases count
  {
    if count == 0 then []
    else
      var size := BE(data[so..so + 4]);
      [data[so + 8..so + size]] + KeysAt(data, so + size, count - 1)
  }

  /** A keys payload: version and flags, the entry count, then that many entries. */
  predicate KeysReadable(data: seq<byte>)
  {
    |data| >= 8 && KeysFrom(data, 8, BE(data[4..8]))
  }

  function KeysOf(data: seq<byte>): seq<seq<byte>>
    requires KeysReadable(data)
  {
    KeysAt(data, 8, BE(data[4..8]))
  }

  /** The nested walks GetKeys makes end normally, and the keys box, if found, has a readable payload. */
  predicate KeysSafe(f: seq<byte>, meta: Mp4.Box)
  {
    Mp4.NestedWalks(f, meta)
    && var kb := Mp4.FirstOfType(Mp4.Children(f, meta), Keys);
       kb.Some? ==> Sized(kb.value) && (Mp4.GetData(f, kb.value).Ok? ==> KeysReadable(Mp4.GetData(f, kb.value).value))
  }

  /** What GetKeys returns. */
  function KeysSpec(f: seq<byte>, meta: Mp4.Box): Result<seq<seq<byte>>>
    requires KeysSafe(f, meta)
  {
    match Mp4.FirstOfType(Mp4.Children(f, meta), Keys)
    case None => Failure(KeysNotFound)
    case Some(kb) =>
      match Mp4.GetData(f, kb)
      case Failure(m) => Failure(m)
      case Ok(data) => Ok(KeysOf(data))
  }

  /** GetKeys: the key names of the first keys box nested in `meta`, in order. */
  method GetKeys(f: seq<byte>, meta: Mp4.Box) returns (r: Result<seq<seq<byte>>>)
    requires KeysSafe(f, meta)
    ensures r == KeysSpec(f, meta)
  {
    var box := Mp4.FindNestedBoxByType(f, meta, Keys);
    if box.None? {
      return Failure(KeysNotFound);
    }
    var read := Mp4.GetData(f, box.value);
    if read.Failure? {
      return Failure(read.msg);
    }
    var keys := ReadKeys(read.value);
    return Ok(keys);
  }

  /** The entry loop of GetKeys. */
  method ReadKeys(data: seq<byte>) returns (result: seq<seq<byte>>)
    requires KeysReadable(data)
    ensures result == KeysOf(data)
  {
    var entryCount := BE(data[4..8]);
    var startOffset: nat := 8;
    result := [];
    var i := 1;
    while i <= entryCount
      invariant 1 <= i <= entryCount + 1
      invariant KeysFrom(data, startOffset, entryCount - (i - 1))
      invariant KeysOf(data) == result + KeysAt(data, startOffset, entryCount - (i - 1))
    {
      var size := BE(data[startOffset..startOffset + 4]);
      var start := startOffset + 8;
      var end := start + size - 8;
      KeysAtStep(data, startOffset, entryCount - (i - 1));
      result := result + [data[start..end]];
      startOffset := startOffset + size;
      i := i + 1;
    }
  }

  lemma KeysAtStep(data: seq<byte>, so: nat, count: nat)
    requires count > 0 && KeysFrom(data, so, count)
    ensures var size := BE(data[so..so + 4]);
      so + 8 <= so + size <= |data| && KeysFrom(data, so + size, count - 1)
      && forall prior :: prior + KeysAt(data, so, count) == (prior + [data[so + 8..so + size]]) + KeysAt(data, so + size, count - 1)
  {
  }

  /** A key entry as a muxer lays it out: its size, a namespace, then the name. */
  function KeyEntry(namespace: seq<byte>, name: seq<byte>): seq<byte>
    requires |namespace| == 4
  {
    BEBytes(|name| + 8, 4) + namespace + name
  }

  function KeyEntries(namespace: seq<byte>, names: seq<seq<byte>>): seq<byte>
    requires |namespace| == 4
  {
    if names == [] then [] else KeyEntry(namespace, names[0]) + KeyEntries(namespace, names[1..])
  }

  /** Reading back laid-out key entries gives the names that were laid out, in order. */
  lemma {:induction false} KeysRoundTrip(prefix: seq<byte>, namespace: seq<byte>, names: seq<seq<byte>>)
    requires |namespace| == 4
    requires forall k :: 0 <= k < |names| ==> |names[k]| + 8 < 0x1_0000_0000
    ensures KeysFrom(prefix + KeyEntries(namespace, names), |prefix|, |names|)
    ensures KeysAt(prefix + KeyEntries(namespace, names), |prefix|, |names|) == names
    decreases |names|
  {
    if names != [] {
      var entry := KeyEntry(namespace, names[0]);
      var rest := KeyEntries(namespace, names[1..]);
      var data := prefix + KeyEntries(namespace, names);
      assert data == (prefix + entry) + rest;
      KeysRoundTrip(prefix + entry, namespace, names[1..]);
      EntryThenKeys(prefix, namespace, names[0], rest, |names[1..]|);
      assert names == [names[0]] + names[1..];
    }
  }

  lemma EntryThenKeys(prefix: seq<byte>, namespace: seq<byte>, name: seq<byte>, rest: seq<byte>, count: nat)
    requires |namespace| == 4 && |name| + 8 < 0x1_0000_0000
    requires KeysFrom(prefix + KeyEntry(namespace, name) + rest, |prefix + KeyEntry(namespace, name)|, count)
    ensures var data := prefix + KeyEntry(namespace, name) + rest;
      KeysFrom(data, |prefix|, count + 1)
      && KeysAt(data, |prefix|, count + 1) == [name] + KeysAt(data, |prefix + KeyEntry(namespace, name)|, count)
  {
    var data := prefix + KeyEntry(namespace, name) + rest;
    assert |prefix + KeyEntry(namespace, name)| == |prefix| + |name| + 8;
    KeyEntryReads(prefix, namespace, name, rest);
    KeysCons(data, |prefix|, |name| + 8, count);
  }

  lemma KeysCons(data: seq<byte>, at: nat, size: nat, count: nat)
    requires at + 4 <= |data| && BE(data[at..at + 4]) == size && 8 <= size && at + size <= |data|
    requires KeysFrom(data, at + size, count)
    ensures KeysFrom(data, at, count + 1)
    ensures KeysAt(data, at, count + 1) == [data[at + 8..at + size]] + KeysAt(data, at + size, count)
  {
  }

  lemma KeyEntryReads(prefix: seq<byte>, namespace: seq<byte>, name: seq<byte>, rest: seq<byte>)
    requires |namespace| == 4 && |name| + 8 < 0x1_0000_0000
    ensures var data := prefix + KeyEntry(namespace, name) + rest; var at := |prefix|;
      at + 4 <= |data| && BE(data[at..at + 4]) == |name| + 8 && data[at + 8..at + 8 + |name|] == name
  {
    var data := prefix + KeyEntry(namespace, name) + rest;
    var at := |prefix|;
    assert data[at..at + 4] == BEBytes(|name| + 8, 4);
    assert data[at + 8..at + 8 + |name|] == name;
    Pow256Widths();
    BEBytesRoundTrip(|name| + 8, 4);
  }

  // ---- ilst ----

  datatype KeyValue = KeyValue(index: nat, valueType: nat, locale: nat, value: seq<byte>)

  /**
   * The ilst entries from `i` can be read: each has room for its fields up
   * to the identifier; when that is "data", also for type and locale, a
   * data size of at least 16 that ends within the payload, and a size that
   * moves on.
   */
  predicate ValuesFrom(data: seq<byte>, i: nat)
    decreases if i < |data| then |data| - i else 0
  {
    i >= |data|
    || (i + 16 <= |data|
        && (data[i + 12..i + 16] == DataAtom ==>
              i + 24 <= |data| && 16 <= BE(data[i + 8..i + 12]) && i + 8 + BE(data[i + 8..i + 12]) <= |data|
              && 0 < BE(data[i..i + 4]) && ValuesFrom(data, i + BE(data[i..i + 4]))))
  }

  /** The value of the entry at `i`: index, type and locale, then `dataSize` − 16 value bytes. */
  function EntryAt(data: seq<byte>, i: nat): KeyValue
    requires i + 24 <= |data| && 16 <= BE(data[i + 8..i + 12]) && i + 8 + BE(data[i + 8..i + 12]) <= |data|
  {
    KeyValue(BE(data[i + 4..i + 8]), BE(data[i + 16..i + 20]), BE(data[i + 20..i + 24]), data[i + 24..i + 8 + BE(data[i + 8..i + 12])])
  }

  /** The entries from `i`, or the error for the first whose identifier is not "data". */
  function ValuesAt(data: seq<byte>, i: nat): Result<seq<KeyValue>>
    requires ValuesFrom(data, i)
    decreases if i < |data| then |data| - i else 0
  {
    if i >= |data| then Ok([])
    else if data[i + 12..i + 16] != DataAtom then Failure(InvalidIdentifier)
    else PrependAll([EntryAt(data, i)], ValuesAt(data, i + BE(data[i..i + 4])))
  }

  /** `r` with `prefix` in front of its entries; an error stays as it is. */
  function PrependAll(prefix: seq<KeyValue>, r: Result<seq<KeyValue>>): Result<seq<KeyValue>>
  {
    match r
    case Ok(vs) => Ok(prefix + vs)
    case Failure(m) => Failure(m)
  }

  lemma PrependAllStep(prefix: seq<KeyValue>, v: KeyValue, r: Result<seq<KeyValue>>)
    ensures PrependAll(prefix, PrependAll([v], r)) == PrependAll(prefix + [v], r)
  {
    if r.Ok? {
      assert prefix + ([v] + r.value) == (prefix + [v]) + r.value;
    }
  }

  /** The nested walks GetValues makes end normally, and the ilst payload, if read, can be walked. */
  predicate ValuesSafe(f: seq<byte>, meta: Mp4.Box)
  {
    Mp4.NestedWalks(f, meta)
    && var ib := Mp4.FirstOfType(Mp4.Children(f, meta), Ilst);
       ib.Some? ==> Sized(ib.value) && (Mp4.GetData(f, ib.value).Ok? ==> ValuesFrom(Mp4.GetData(f, ib.value).value, 0))
  }

  /** What GetValues returns. */
  function ValuesSpec(f: seq<byte>, meta: Mp4.Box): Result<seq<KeyValue>>
    requires ValuesSafe(f, meta)
  {
    match Mp4.FirstOfType(Mp4.Children(f, meta), Ilst)
    case None => Failure(IlstNotFound)
    case Some(ib) =>
      match Mp4.GetData(f, ib)
      case Failure(m) => Failure(m)
      case Ok(data) => ValuesAt(data, 0)
  }


  /** GetValues: the entries of the first ilst box nested in `meta`, in order. */
  method GetValues(f: seq<byte>, meta: Mp4.Box) returns (r: Result<seq<KeyValue>>)
    requires ValuesSafe(f, meta)
    ensures r == ValuesSpec(f, meta)
  {
    var box := Mp4.FindNestedBoxByType(f, meta, Ilst);
    if box.None? {
      return Failure(IlstNotFound);
    }
    var read := Mp4.GetData(f, box.value);
    if read.Failure? {
      return Failure(read.msg);
    }
    r := ReadValues(read.value);
  }

  /** The entry loop of GetValues. */
  method ReadValues(data: seq<byte>) returns (r: Result<seq<KeyValue>>)
    requires ValuesFrom(data, 0)
    ensures r == ValuesAt(data, 0)
  {
    var result: seq<KeyValue> := [];
    var i := 0;
    match ValuesAt(data, 0) {
      case Ok(rest) => assert result + rest == rest;
      case Failure(_) =>
    }
    while i < |data|
      invariant ValuesFrom(data, i)
      invariant ValuesAt(data, 0) == PrependAll(result, ValuesAt(data, i))
      decreases |data| - i
    {
      var ok, keyValue, next := ReadEntry(data, i);
      if !ok {
        return Failure(InvalidIdentifier);
      }
      PrependAllStep(result, keyValue, ValuesAt(data, next));
      result := result + [keyValue];
      i := next;
    }
    assert result + [] == result;
    return Ok(result);
  }

  /**
   * One pass of the entry loop: the entry at `i` when its identifier is
   * "data", and the offset `size` bytes on; not ok when the identifier is
   * anything else.
   */
  method ReadEntry(data: seq<byte>, i: nat) returns (ok: bool, keyValue: KeyValue, next: nat)
    requires ValuesFrom(data, i) && i < |data|
    ensures !ok ==> ValuesAt(data, i) == Failure(InvalidIdentifier)
    ensures ok ==> next > i && ValuesFrom(data, next) && ValuesAt(data, i) == PrependAll([keyValue], ValuesAt(data, next))
  {
    if data[i + 12..i + 16] != DataAtom {
      return false, KeyValue(0, 0, 0, []), 0;
    }
    var size := BE(data[i..i + 4]);
    var dataSize := BE(data[i + 8..i + 12]);
    keyValue := KeyValue(BE(data[i + 4..i + 8]), BE(data[i + 16..i + 20]), BE(data[i + 20..i + 24]), data[i + 24..i + 8 + dataSize]);
    assert keyValue == EntryAt(data, i);
    ok, next := true, i + size;
  }

  // ---- mdta ----

  /** Every value names a key by a 1-based index within the keys; index 0 or past the end makes the lookup panic. */
  predicate IndexesInRange(keys: seq<seq<byte>>, vs: seq<KeyValue>)
  {
    forall j :: 0 <= j < |vs| ==> 1 <= vs[j].index <= |keys|
  }

  function KeyOf(keys: seq<seq<byte>>, v: KeyValue): seq<byte>
    requires 1 <= v.index <= |keys|
  {
    keys[v.index - 1]
  }

  /** The map GetMdta fills: each value stored under its key, in order, so a later value replaces an earlier one. */
  function Assign(keys: seq<seq<byte>>, vs: seq<KeyValue>): map<seq<byte>, KeyValue>
    requires IndexesInRange(keys, vs)
  {
    if vs == [] then map[]
    else
      var last := vs[|vs| - 1];
      Assign(keys, vs[..|vs| - 1])[KeyOf(keys, last) := last]
  }

  /** A key is present exactly when some value names it, and it holds the last value that does. */
  lemma {:induction false} AssignLastWins(keys: seq<seq<byte>>, vs: seq<KeyValue>, key: seq<byte>)
    requires IndexesInRange(keys, vs)
    ensures key in Assign(keys, vs) <==> exists j :: 0 <= j < |vs| && KeyOf(keys, vs[j]) == key
    ensures key in Assign(keys, vs) ==> exists j :: (0 <= j < |vs| && KeyOf(keys, vs[j]) == key
      && Assign(keys, vs)[key] == vs[j] && forall later :: j < later < |vs| ==> KeyOf(keys, vs[later]) != key)
    decreases |vs|
  {
    if vs != [] {
      var init := vs[..|vs| - 1];
      var last := vs[|vs| - 1];
      AssignLastWins(keys, init, key);
      if KeyOf(keys, last) != key && key in Assign(keys, init) {
        var j :| 0 <= j < |init| && KeyOf(keys, init[j]) == key && Assign(keys, init)[key] == init[j]
          && forall later :: j < later < |init| ==> KeyOf(keys, init[later]) != key;
        assert vs[j] == init[j];
        assert forall later :: j < later < |vs| ==> KeyOf(keys, vs[later]) != key;
      }
      if KeyOf(keys, last) != key && key !in Assign(keys, init) {
        forall j | 0 <= j < |vs|
          ensures KeyOf(keys, vs[j]) != key
        {
          if j < |init| {
            assert vs[j] == init[j];
          }
        }
      }
    }
  }

  /** The nested walks GetMdta makes end normally, the keys and ilst payloads can be read, and every index names a key. */
  predicate MdtaSafe(f: seq<byte>, meta: Mp4.Box)
  {
    KeysSafe(f, meta) && ValuesSafe(f, meta)
    && (KeysSpec(f, meta).Ok? && ValuesSpec(f, meta).Ok? ==> IndexesInRange(KeysSpec(f, meta).value, ValuesSpec(f, meta).value))
  }

  /** What GetMdta returns: an error for a meta box without children, then the keys' and values' errors. */
  function MdtaSpec(f: seq<byte>, meta: Mp4.Box): Result<map<seq<byte>, KeyValue>>
    requires MdtaSafe(f, meta)
  {
    if Mp4.Children(f, meta) == [] then Failure(EmptyMeta)
    else
      match KeysSpec(f, meta)
      case Failure(m) => Failure(m)
      case Ok(keys) =>
        match ValuesSpec(f, meta)
        case Failure(m) => Failure(m)
        case Ok(vs) => Ok(Assign(keys, vs))
  }

  /** GetMdta: every value stored under the key its index names. */
  method GetMdta(f: seq<byte>, meta: Mp4.Box) returns (r: Result<map<seq<byte>, KeyValue>>)
    requires MdtaSafe(f, meta)
    ensures r == MdtaSpec(f, meta)
  {
    var boxes := Mp4.GetBoxes(f, meta.startData, I64(meta.size));
    if boxes.Failure? || boxes.value == [] {
      return Failure(EmptyMeta);
    }
    var keys := GetKeys(f, meta);
    if keys.Failure? {
      return Failure(keys.msg);
    }
    var values := GetValues(f, meta);
    if values.Failure? {
      return Failure(values.msg);
    }
    var result := Fill(keys.value, values.value);
    return Ok(result);
  }

  /** The loop of GetMdta: each value in turn stored under its key. */
  method Fill(keys: seq<seq<byte>>, vs: seq<KeyValue>) returns (result: map<seq<byte>, KeyValue>)
    requires IndexesInRange(keys, vs)
    ensures result == Assign(keys, vs)
  {
    result := map[];
    var i := 0;
    while i < |vs|
      invariant 0 <= i <= |vs|
      invariant result == Assign(keys, vs[..i])
    {
      assert vs[..i + 1][..i] == vs[..i];
      result := result[keys[vs[i].index - 1] := vs[i]];
      i := i + 1;
    }
    assert vs[..i] == vs;
  }

  // ---- values as text ----

  /**
   * KeyValue.String: types up to 5 are text and shown as they are; any
   * other type shows the first four value bytes as a big-endian decimal.
   */
  function ValueString(kv: KeyValue): (s: seq<byte>)
    requires kv.valueType <= 5 || |kv.value| >= 4
    ensures kv.valueType <= 5 ==> s == kv.value
    ensures kv.valueType > 5 ==> Atoi(s) == Some(BE(kv.value[..4]))
    ensures kv.valueType > 5 ==> |s| >= 1 && (forall i :: 0 <= i < |s| ==> IsDigit(s[i])) && (|s| > 1 ==> s[0] != 48)
  {
    if kv.valueType <= 5 then kv.value
    else
      var n := BE(kv.value[..4]);
      BEBound(kv.value[..4]);
      Pow256Widths();
      DecimalAtoi(n);
      DecimalCanonical(n);
      Decimal(n)
  }

  // ---- hdlr ----

  datatype Handler = Handler(handlerType: seq<byte>, name: seq<byte>)

  /** GetHandler: the handler type at bytes 8 to 12 and the name from byte 24 to the end of the payload. */
  function GetHandler(f: seq<byte>, b: Mp4.Box): (r: Result<Handler>)
    requires Sized(b)
    requires Mp4.GetData(f, b).Ok? ==> |Mp4.GetData(f, b).value| >= 24
    ensures r.Failure? <==> Mp4.GetData(f, b).Failure?
    ensures r.Ok? ==> |r.value.handlerType| == 4
  {
    match Mp4.GetData(f, b)
    case Failure(m) => Failure(m)
    case Ok(data) => Ok(Handler(data[8..12], data[24..]))
  }

  /** A handler payload: version and flags, a predefined word, the type, three reserved words, the name. */
  function HandlerPayload(handlerType: seq<byte>, name: seq<byte>): seq<byte>
    requires |handlerType| == 4
  {
    Zeros(8) + handlerType + Zeros(12) + name
  }

  /** Reading a handler box whose payload was laid out from a type and a name gives them back. */
  lemma HandlerRoundTrip(f: seq<byte>, b: Mp4.Box, handlerType: seq<byte>, name: seq<byte>)
    requires |handlerType| == 4 && Sized(b)
    requires Mp4.GetData(f, b) == Ok(HandlerPayload(handlerType, name))
    ensures GetHandler(f, b) == Ok(Handler(handlerType, name))
  {
    var data := HandlerPayload(handlerType, name);
    assert data[8..12] == handlerType;
    assert data[24..] == name;
  }

  /** Whether MetaBox.Print decodes the key-value list: only for the mdta handler. */
  predicate DecodesMdta(h: Handler)
  {
    h.handlerType == Mdta
  }

  /** The children MetaBox.Print reports as skipped: all but mdta, hdlr, keys and ilst, in order. */
  function SkippedChildren(bs: seq<Mp4.Box>): (r: seq<Mp4.Box>)
    ensures forall b :: b in r <==> b in bs && b.boxType !in {Mdta, Hdlr, Keys, Ilst}
    ensures |r| <= |bs|
  {
    if bs == [] then []
    else
      var rest := SkippedChildren(bs[1..]);
      assert forall b :: b in bs <==> b == bs[0] || b in bs[1..];
      if bs[0].boxType in {Mdta, Hdlr, Keys, Ilst} then rest else [bs[0]] + rest
  }
}
