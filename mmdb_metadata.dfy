/**
 * The metadata locator of src/mmdb.rs (`Mmdb::new` and `MmdbMetadata::new`):
 * the rightmost metadata marker in the file's tail window, the map decoded
 * after it without metadata context, and the three fields taken from it.
 */
module MmdbMetadata {
  import opened Base
  import opened MmdbValue
  import opened MmdbDecode
  import opened MmdbReader

  /** `METADATA_MARKER`: the bytes AB CD EF followed by the ASCII text "MaxMind.com". */
  const Marker: seq<byte> := [0xAB, 0xCD, 0xEF, 0x4D, 0x61, 0x78, 0x4D, 0x69, 0x6E, 0x64, 0x2E, 0x63, 0x6F, 0x6D]

  /** The size of the tail window searched for the marker. */
  const TailWindow: nat := 128_000

  lemma MarkerLength()
    ensures |Marker| == 14
  {
  }

  /** The marker occurs in `s` starting at `k`. */
  predicate MarkerAt(s: seq<byte>, k: nat)
  {
    k + |Marker| <= |s| && s[k..k + |Marker|] == Marker
  }

  /** The last start below `n` at which the marker occurs (`rposition` over the windows). */
  function LastMarkerBelow(s: seq<byte>, n: nat): (k: Option<nat>)
    ensures k.Some? ==> k.value < n && MarkerAt(s, k.value)
    ensures k.Some? ==> forall j: nat :: k.value < j < n ==> !MarkerAt(s, j)
    ensures k.None? ==> forall j: nat :: j < n ==> !MarkerAt(s, j)
  {
    if n == 0 then None
    else if MarkerAt(s, n - 1) then Some(n - 1)
    else LastMarkerBelow(s, n - 1)
  }

  /** The start of the rightmost occurrence of the marker in `s`, if any. */
  function LastMarker(s: seq<byte>): (k: Option<nat>)
    ensures k.Some? ==> MarkerAt(s, k.value) && forall j: nat :: k.value < j ==> !MarkerAt(s, j)
    ensures k.None? ==> forall j: nat :: !MarkerAt(s, j)
  {
    MarkerLength();
    LastMarkerBelow(s, |s|)
  }

  /** Whenever the marker occurs more than once, the rightmost occurrence is the one chosen. */
  lemma RightmostMarkerChosen(s: seq<byte>, k: nat)
    requires MarkerAt(s, k) && forall j: nat :: k < j ==> !MarkerAt(s, j)
    ensures LastMarker(s) == Some(k)
  {
  }

  /** The windows of the tail scanned from the right, as `rposition` does. */
  method FindMarker(a: array<byte>) returns (k: Option<nat>)
    ensures k == LastMarker(a[..])
  {
    MarkerLength();
    var i: nat := a.Length;
    while i > 0
      invariant i <= a.Length
      invariant LastMarkerBelow(a[..], i) == LastMarker(a[..])
    {
      i := i - 1;
      if i + 14 <= a.Length && a[i..i + 14] == Marker {
        assert MarkerAt(a[..], i);
        return Some(i);
      }
      assert !MarkerAt(a[..], i);
    }
    return None;
  }

  /** Where the tail window starts in a file of `fileSize` bytes. */
  function TailStart(fileSize: nat): (start: nat)
    ensures start <= fileSize
    ensures fileSize - start == if fileSize < TailWindow then fileSize else TailWindow
  {
    if fileSize < TailWindow then 0 else fileSize - TailWindow
  }

  /** The last min(L, 128000) bytes of a file of L bytes. */
  function Tail(file: seq<byte>): (t: seq<byte>)
    ensures |t| <= TailWindow && (|file| <= TailWindow ==> t == file)
    ensures t == file[|file| - |t|..]
  {
    file[TailStart(|file|)..]
  }

  /** The ASCII keys "node_count", "record_size" and "ip_version". */
  const NodeCountKey: seq<byte> := [0x6E, 0x6F, 0x64, 0x65, 0x5F, 0x63, 0x6F, 0x75, 0x6E, 0x74]
  const RecordSizeKey: seq<byte> := [0x72, 0x65, 0x63, 0x6F, 0x72, 0x64, 0x5F, 0x73, 0x69, 0x7A, 0x65]
  const IpVersionKey: seq<byte> := [0x69, 0x70, 0x5F, 0x76, 0x65, 0x72, 0x73, 0x69, 0x6F, 0x6E]

  predicate HasU32(m: map<seq<byte>, Type>, key: seq<byte>)
  {
    key in m && m[key].U32?
  }

  predicate HasU16(m: map<seq<byte>, Type>, key: seq<byte>)
  {
    key in m && m[key].U16?
  }

  /**
   * `MmdbMetadata::new`: the value must be a map holding `node_count` as a
   * U32, then `record_size` as a U16, then `ip_version` as a U16; the first
   * check that fails names the error.
   */
  function MetadataFromValue(t: Type): (r: Result<Metadata, MmdbError>)
    ensures r.Ok? <==> t.Map? && HasU32(t.entries, NodeCountKey) && HasU16(t.entries, RecordSizeKey)
                       && HasU16(t.entries, IpVersionKey)
    ensures r.Ok? ==> r.value == Metadata(t.entries[NodeCountKey].v32, t.entries[RecordSizeKey].v16,
                                          t.entries[IpVersionKey].v16)
    ensures !t.Map? ==> r == Err(InvalidMetadata("metadata was not encoded as map"))
    ensures t.Map? && !HasU32(t.entries, NodeCountKey) ==> r == Err(InvalidMetadata("does not contain node count"))
    ensures (t.Map? && HasU32(t.entries, NodeCountKey) && !HasU16(t.entries, RecordSizeKey))
            ==> r == Err(InvalidMetadata("does not contain record size"))
    ensures (t.Map? && HasU32(t.entries, NodeCountKey) && HasU16(t.entries, RecordSizeKey)
             && !HasU16(t.entries, IpVersionKey))
            ==> r == Err(InvalidMetadata("does not contain ip version"))
  {
    if !t.Map? then Err(InvalidMetadata("metadata was not encoded as map"))
    else
      var m := t.entries;
      if !(NodeCountKey in m && m[NodeCountKey].U32?) then Err(InvalidMetadata("does not contain node count"))
      else if !(RecordSizeKey in m && m[RecordSizeKey].U16?) then Err(InvalidMetadata("does not contain record size"))
      else if !(IpVersionKey in m && m[IpVersionKey].U16?) then Err(InvalidMetadata("does not contain ip version"))
      else Ok(Metadata(m[NodeCountKey].v32, m[RecordSizeKey].v16, m[IpVersionKey].v16))
  }

  /** The metadata value at `pos` of the tail, decoded with no metadata context and checked. */
  function MetadataAt(tail: seq<byte>, pos: nat): (r: Result<Metadata, MmdbError>)
    ensures Decode(tail, pos, None, 0).result.Err? ==> r == Err(Decode(tail, pos, None, 0).result.error)
    ensures r.Ok? ==> var t := Decode(tail, pos, None, 0).result;
                      t.Ok? && t.value.Map?
                      && NodeCountKey in t.value.entries && t.value.entries[NodeCountKey] == U32(r.value.nodeCount)
                      && RecordSizeKey in t.value.entries && t.value.entries[RecordSizeKey] == U16(r.value.recordSize)
                      && IpVersionKey in t.value.entries && t.value.entries[IpVersionKey] == U16(r.value.ipVersion)
  {
    var d := Decode(tail, pos, None, 0);
    if d.result.Err? then Err(d.result.error) else MetadataFromValue(d.result.value)
  }

  /**
   * The metadata found in a tail window: the value after the rightmost
   * marker. With no metadata a pointer fails before any pointer-depth budget
   * is used, so the budget given is 0.
   */
  function MetadataInTail(tail: seq<byte>): (r: Result<Metadata, MmdbError>)
    ensures (forall j: nat :: !MarkerAt(tail, j)) ==> r == Err(MetadataNotFound)
  {
    match LastMarker(tail)
    case None => Err(MetadataNotFound)
    case Some(k) => MetadataAt(tail, k + |Marker|)
  }

  /** What `Mmdb::new` computes from the file's bytes. */
  function LocateMetadata(file: seq<byte>): (r: Result<Metadata, MmdbError>)
    ensures |file| < |Marker| ==> r == Err(MetadataNotFound)
  {
    MetadataInTail(Tail(file))
  }

  /**
   * The scan and decode of `Mmdb::new` over the tail window, once it has been
   * copied into its own buffer: a fresh cursor is placed after the rightmost
   * marker and the metadata map is decoded there.
   */
  method ReadMetadata(tail: array<byte>) returns (r: Result<Metadata, MmdbError>)
    ensures r == MetadataInTail(tail[..])
  {
    ghost var window := tail[..];
    var cursor := new Reader(tail[..]);
    var marker := FindMarker(tail);
    if marker.None? {
      return Err(MetadataNotFound);
    }
    MarkerLength();
    var start := marker.value + |Marker|;
    cursor.Seek(start);
    var typ := ReadType(cursor, None, 0);
    assert MetadataInTail(window) == MetadataAt(window, start);
    assert typ == Decode(window, start, None, 0).result;
    if typ.Err? {
      return Err(typ.error);
    }
    r := MetadataFromValue(typ.value);
  }

  /**
   * The metadata is decoded right after the rightmost marker of the tail
   * window: a marker with none after it in the window fixes the result.
   */
  lemma MetadataAfterRightmostMarker(file: seq<byte>, k: nat)
    requires MarkerAt(Tail(file), k) && forall j: nat :: k < j ==> !MarkerAt(Tail(file), j)
    ensures LocateMetadata(file) == MetadataAt(Tail(file), k + 14)
  {
    MarkerLength();
    RightmostMarkerChosen(Tail(file), k);
    assert LocateMetadata(file) == MetadataInTail(Tail(file));
  }

  /** Only the last 128000 bytes of a file can influence the metadata found. */
  lemma OnlyTailMatters(f1: seq<byte>, f2: seq<byte>)
    requires |f1| >= TailWindow && |f2| >= TailWindow
    requires f1[|f1| - TailWindow..] == f2[|f2| - TailWindow..]
    ensures LocateMetadata(f1) == LocateMetadata(f2)
  {
    assert Tail(f1) == Tail(f2);
  }
}
