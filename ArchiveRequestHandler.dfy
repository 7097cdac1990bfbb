/** The cache server's archive request handler: a request names an index and
    an archive; index 255 is the control channel (bulk crc/revision metadata,
    or one index's encoded index data); any other index serves one archive,
    either its cached frame verbatim or its contents freshly compressed.

    The store is an immutable snapshot; lookups that the server asserts never
    fail are explicit errors here. */
module ArchiveRequestHandler {
  import opened Primitives

  /** CompressionType.NONE. */
  const NONE: int := 0

  /** The index id that selects the control channel, and the archive id that
      selects the bulk metadata on it. */
  const CONTROL: int := 255

  /** One archive of an index. `data` is the cached frame, when the archive has
      one; `contents` is what saveContents() materialises, None when that fails. */
  datatype Archive = Archive(archiveId: int, data: Option<Bytes>, compression: int, contents: Option<Bytes>)

  datatype Index = Index(id: int, crc: int32, revision: int32, archives: seq<Archive>)

  /** The indexes in the store's own list order, which is the order of the bulk metadata. */
  datatype Store = Store(indexes: seq<Index>)

  datatype ArchiveRequest = ArchiveRequest(index: int, archive: int)

  datatype ArchiveResponse = ArchiveResponse(index: int, archive: int, data: Bytes)

  datatype Error =
    | IndexNotFound        // the store has no index with the requested id
    | ArchiveNotFound      // the index has no archive with the requested id
    | ContentUnavailable   // the archive's contents could not be materialised
    | CompressionFailed    // the codec raised an IOException
    | TruncatedFrame       // a cached frame too short to hold its type and length
    | FrameLengthMismatch  // a cached frame whose length disagrees with its header

  /** The collaborators the handler calls but this model does not open:
      DataFile.compress(data, compression, -1, null), which may fail, and
      Index.toIndexData().writeIndexData(). */
  datatype Codec = Codec(compress: (int, Bytes) -> Option<Bytes>, writeIndexData: Index -> Bytes)

  // ---------------------------------------------------------------- lookups

  /** The first element whose key is `id`, if any: the search both lookups
      below perform over their lists. */
  function FirstWithKey<T>(xs: seq<T>, key: T -> int, id: int): (r: Option<T>)
    ensures r.Some? ==> r.value in xs && key(r.value) == id
    ensures r.Some? ==> exists k :: 0 <= k < |xs| && xs[k] == r.value && forall j :: 0 <= j < k ==> key(xs[j]) != id
    ensures r.None? <==> forall k :: 0 <= k < |xs| ==> key(xs[k]) != id
  {
    if xs == [] then None
    else if key(xs[0]) == id then Some(xs[0])
    else FirstWithKey(xs[1..], key, id)
  }

  /** Store.findIndex: an index of the store with that id, if any. */
  function FindIndex(indexes: seq<Index>, id: int): (r: Option<Index>)
    ensures r.Some? ==> r.value in indexes && r.value.id == id
    ensures r.None? <==> forall k :: 0 <= k < |indexes| ==> indexes[k].id != id
  {
    FirstWithKey(indexes, (i: Index) => i.id, id)
  }

  /** Index.getArchive: an archive of the index with that id, if any. */
  function GetArchive(archives: seq<Archive>, archiveId: int): (r: Option<Archive>)
    ensures r.Some? ==> r.value in archives && r.value.archiveId == archiveId
    ensures r.None? <==> forall k :: 0 <= k < |archives| ==> archives[k].archiveId != archiveId
  {
    FirstWithKey(archives, (a: Archive) => a.archiveId, archiveId)
  }

  // ---------------------------------------------------------------- bulk metadata

  /** The bulk metadata: for each index in list order, its crc then its
      revision, each written as a big-endian int. */
  function IndexMetadata(indexes: seq<Index>): (blob: Bytes)
    ensures |blob| == 8 * |indexes|
  {
    if indexes == [] then []
    else
      var last := indexes[|indexes| - 1];
      IndexMetadata(indexes[..|indexes| - 1]) + IntBytes(last.crc) + IntBytes(last.revision)
  }

  /** Reading the blob back: the k-th 8-byte record holds the crc and the
      revision of the k-th index. */
  lemma {:induction false} IndexMetadataDecodes(indexes: seq<Index>, k: nat)
    requires k < |indexes|
    ensures 8 * k + 8 <= |IndexMetadata(indexes)|
    ensures ReadInt(IndexMetadata(indexes), 8 * k) == indexes[k].crc
    ensures ReadInt(IndexMetadata(indexes), 8 * k + 4) == indexes[k].revision
  {
    var n := |indexes|;
    var front := indexes[..n - 1];
    var last := indexes[n - 1];
    var blob := IndexMetadata(indexes);
    assert blob == IndexMetadata(front) + IntBytes(last.crc) + IntBytes(last.revision);
    if k == n - 1 {
      IntRoundTrip(last.crc);
      IntRoundTrip(last.revision);
      assert blob[8 * k..8 * k + 4] == IntBytes(last.crc);
      assert blob[8 * k + 4..8 * k + 8] == IntBytes(last.revision);
    } else {
      IndexMetadataDecodes(front, k);
      assert blob[..8 * (n - 1)] == IndexMetadata(front);
    }
  }

  /** ByteBuf.writeInt at a writer position of a fixed-size buffer. */
  method PutInt(buffer: array<byte>, at: nat, x: int32)
    requires at + 4 <= buffer.Length
    modifies buffer
    ensures buffer[..] == old(buffer[..at]) + IntBytes(x) + old(buffer[at + 4..])
  {
    var b := IntBytes(x);
    buffer[at] := b[0];
    buffer[at + 1] := b[1];
    buffer[at + 2] := b[2];
    buffer[at + 3] := b[3];
    assert buffer[..] == old(buffer[..at]) + b + old(buffer[at + 4..]);
  }

  /** The loop of handleRequest255 for archive 255: a buffer of 8 bytes per
      index, filled with each index's crc and revision in list order. */
  method BuildIndexMetadata(store: Store) returns (blob: Bytes)
    ensures blob == IndexMetadata(store.indexes)
  {
    var indexes := store.indexes;
    var buffer := new byte[8 * |indexes|];
    for k := 0 to |indexes|
      invariant buffer[..8 * k] == IndexMetadata(indexes[..k])
    {
      var i := indexes[k];
      PutInt(buffer, 8 * k, i.crc);
      PutInt(buffer, 8 * k + 4, i.revision);
      assert indexes[..k + 1][..k] == indexes[..k];
      assert buffer[..8 * (k + 1)] == IndexMetadata(indexes[..k]) + IntBytes(i.crc) + IntBytes(i.revision);
    }
    assert indexes[..|indexes|] == indexes;
    blob := buffer[..];
  }

  // ---------------------------------------------------------------- frames

  /** The compressed size C a frame declares in bytes 1..4. */
  function DeclaredSize(packed: Bytes): int32
    requires |packed| >= 5
  {
    ReadInt(packed, 1)
  }

  /** The handler's check on a cached frame AS WRITTEN: the length is type
      byte, size, C payload bytes and a 4-byte trailer unless the type is
      NONE, with C read as a signed Java int. */
  function FrameLengthMatchesAsWritten(packed: Bytes): (ok: bool)
    requires |packed| >= 5
    ensures ok ==> (DeclaredSize(packed) < 0 <==> |packed| < 5 + TrailerLength(packed[0]))
  {
    |packed| == 1 + 4 + DeclaredSize(packed) as int + TrailerLength(packed[0])
  }

  /** A frame declaring a negative size passes the check as written. */
  lemma NegativeSizeFramePasses()
    ensures var packed: Bytes := [1, 0xff, 0xff, 0xff, 0xff, 0, 0, 0];
            && FrameLengthMatchesAsWritten(packed)
            && DeclaredSize(packed) == -1
            && !WellFormedFrame(packed)
  {
    var packed: Bytes := [1, 0xff, 0xff, 0xff, 0xff, 0, 0, 0];
    assert DeclaredSize(packed) == -1;
  }

  /** The check as intended: the declared size is a length, so it is never
      negative, and the frame is exactly as long as its header says. */
  predicate WellFormedFrame(packed: Bytes) {
    && |packed| >= 5
    && DeclaredSize(packed) >= 0
    && FrameLengthMatchesAsWritten(packed)
  }

  /** The length of the trailer a frame of this type carries. */
  function TrailerLength(compression: byte): nat {
    if compression as int != NONE then 4 else 0
  }

  /** The frame layout: type byte, big-endian payload length, payload, and a
      4-byte trailer when the type is not NONE. */
  function Frame(compression: byte, payload: Bytes, trailer: Bytes): (packed: Bytes)
    requires |payload| < 0x8000_0000 && |trailer| == TrailerLength(compression)
    ensures |packed| == 5 + |payload| + |trailer|
  {
    [compression] + IntBytes(|payload| as int32) + payload + trailer
  }

  datatype FrameParts = FrameParts(compression: byte, payload: Bytes, trailer: Bytes)

  /** A consumer's reading of a frame: its parts, or None when it is malformed. */
  function ParseFrame(packed: Bytes): (r: Option<FrameParts>)
    ensures r.Some? <==> WellFormedFrame(packed)
  {
    if WellFormedFrame(packed) then
      var c := DeclaredSize(packed) as int;
      Some(FrameParts(packed[0], packed[5..5 + c], packed[5 + c..]))
    else None
  }

  /** Every frame built by the layout passes the check and parses back into
      the parts it was built from. */
  lemma FrameRoundTrip(compression: byte, payload: Bytes, trailer: Bytes)
    requires |payload| < 0x8000_0000 && |trailer| == TrailerLength(compression)
    ensures WellFormedFrame(Frame(compression, payload, trailer))
    ensures ParseFrame(Frame(compression, payload, trailer)) == Some(FrameParts(compression, payload, trailer))
  {
    var packed := Frame(compression, payload, trailer);
    var size := |payload| as int32;
    IntRoundTrip(size);
    assert packed[1..5] == IntBytes(size);
    assert DeclaredSize(packed) == size;
    assert packed[5..5 + |payload|] == payload;
    assert packed[5 + |payload|..] == trailer;
  }

  /** Conversely, every frame that passes the check is laid out as Frame
      says, from the parts ParseFrame reads. */
  lemma WellFormedFrameIsFramed(packed: Bytes)
    requires WellFormedFrame(packed)
    ensures var p := ParseFrame(packed).value;
            && |p.payload| < 0x8000_0000 && |p.trailer| == TrailerLength(p.compression)
            && Frame(p.compression, p.payload, p.trailer) == packed
  {
    var p := ParseFrame(packed).value;
    var c := DeclaredSize(packed);
    assert |p.payload| == c as int;
    IntBytesOfRead(packed[1..5]);
    assert packed == [packed[0]] + packed[1..5] + packed[5..5 + c as int] + packed[5 + c as int..];
  }


  // ---------------------------------------------------------------- handlers

  /** compress: the codec's output, or CompressionFailed when it raises. */
  function Compress(codec: Codec, compression: int, data: Bytes): (r: Result<Bytes, Error>)
    ensures r.Success? <==> codec.compress(compression, data).Some?
    ensures r.Success? ==> r.value == codec.compress(compression, data).value
    ensures r.Failure? ==> r.error == CompressionFailed
  {
    match codec.compress(compression, data)
    case Some(compressed) => Success(compressed)
    case None => Failure(CompressionFailed)
  }

  /** handleRequest255: archive 255 gets the bulk metadata, any other archive
      id the encoded index data of that index, both compressed with NONE. */
  function HandleRequest255(store: Store, codec: Codec, index: int, archiveId: int): (r: Result<ArchiveResponse, Error>)
    ensures r.Success? ==> r.value.index == index && r.value.archive == archiveId
    ensures r.Failure? ==> r.error in {IndexNotFound, CompressionFailed}
    ensures r == Failure(IndexNotFound) <==> archiveId != CONTROL && FindIndex(store.indexes, archiveId).None?
  {
    var compressed :=
      if archiveId == CONTROL then Compress(codec, NONE, IndexMetadata(store.indexes))
      else match FindIndex(store.indexes, archiveId)
        case None => Failure(IndexNotFound)
        case Some(i) => Compress(codec, NONE, codec.writeIndexData(i));
    match compressed
    case Failure(e) => Failure(e)
    case Success(data) => Success(ArchiveResponse(index, archiveId, data))
  }

  /** The bytes handleRequest serves for an archive: its cached frame, whose
      header is read unconditionally and whose length is asserted (as written)
      only when Java assertions are enabled, or else its contents compressed
      under its declared compression. */
  function PackedBytes(archive: Archive, codec: Codec, assertionsEnabled: bool): (r: Result<Bytes, Error>)
    ensures archive.data.Some? && r.Success? ==> r.value == archive.data.value
    ensures archive.data.Some? ==> (r == Failure(TruncatedFrame) <==> |archive.data.value| < 5)
    ensures archive.data.Some? && !assertionsEnabled ==> (r.Success? <==> |archive.data.value| >= 5)
    ensures archive.data.Some? && assertionsEnabled ==>
      (r.Success? <==> |archive.data.value| >= 5 && FrameLengthMatchesAsWritten(archive.data.value))
    ensures archive.data.None? && archive.contents.None? ==> r == Failure(ContentUnavailable)
    ensures archive.data.None? ==> r.Failure? ==> r.error in {ContentUnavailable, CompressionFailed}
  {
    match archive.data
    case Some(packed) =>
      if |packed| < 5 then Failure(TruncatedFrame)
      else if assertionsEnabled && !FrameLengthMatchesAsWritten(packed) then Failure(FrameLengthMismatch)
      else Success(packed)
    case None =>
      match archive.contents
      case None => Failure(ContentUnavailable)
      case Some(data) => Compress(codec, archive.compression, data)
  }

  /** handleRequest: find the index, then the archive, then its packed bytes. */
  function HandleRequest(store: Store, codec: Codec, assertionsEnabled: bool, index: int, archiveId: int)
    : (r: Result<ArchiveResponse, Error>)
    ensures r.Success? ==> r.value.index == index && r.value.archive == archiveId
    ensures r == Failure(IndexNotFound) <==> FindIndex(store.indexes, index).None?
  {
    match FindIndex(store.indexes, index)
    case None => Failure(IndexNotFound)
    case Some(i) =>
      match GetArchive(i.archives, archiveId)
      case None => Failure(ArchiveNotFound)
      case Some(archive) =>
        match PackedBytes(archive, codec, assertionsEnabled)
        case Failure(e) => Failure(e)
        case Success(packed) => Success(ArchiveResponse(index, archiveId, packed))
  }

  /** channelRead0: index 255 goes to the control handler, every other index
      to the archive handler. Every request yields one response or one error. */
  function ChannelRead(store: Store, codec: Codec, assertionsEnabled: bool, request: ArchiveRequest)
    : (r: Result<ArchiveResponse, Error>)
    ensures r.Success? ==> r.value.index == request.index && r.value.archive == request.archive
    ensures request.index == CONTROL ==> r.Success? || r.error in {IndexNotFound, CompressionFailed}
    ensures r == Failure(ArchiveNotFound) ==> request.index != CONTROL
    ensures r == Failure(IndexNotFound) <==>
      FindIndex(store.indexes, if request.index == CONTROL then request.archive else request.index).None?
      && (request.index == CONTROL ==> request.archive != CONTROL)
  {
    if request.index == CONTROL then HandleRequest255(store, codec, request.index, request.archive)
    else HandleRequest(store, codec, assertionsEnabled, request.index, request.archive)
  }

  // ---------------------------------------------------------------- properties

  /** Request (255, 255): the NONE-compression of a blob of 8 bytes per index
      that decodes, record by record, to each index's crc and revision. */
  lemma BulkMetadataResponse(store: Store, codec: Codec, assertionsEnabled: bool)
    ensures var blob := IndexMetadata(store.indexes);
            var r := ChannelRead(store, codec, assertionsEnabled, ArchiveRequest(CONTROL, CONTROL));
            && |blob| == 8 * |store.indexes|
            && (forall k :: 0 <= k < |store.indexes| ==>
                  ReadInt(blob, 8 * k) == store.indexes[k].crc && ReadInt(blob, 8 * k + 4) == store.indexes[k].revision)
            && (codec.compress(NONE, blob).Some? ==> r == Success(ArchiveResponse(CONTROL, CONTROL, codec.compress(NONE, blob).value)))
            && (codec.compress(NONE, blob).None? ==> r == Failure(CompressionFailed))
  {
    forall k | 0 <= k < |store.indexes|
      ensures ReadInt(IndexMetadata(store.indexes), 8 * k) == store.indexes[k].crc
      ensures ReadInt(IndexMetadata(store.indexes), 8 * k + 4) == store.indexes[k].revision
    {
      IndexMetadataDecodes(store.indexes, k);
    }
  }

  /** Request (255, n), n != 255: index n's encoded index data compressed with
      NONE, or IndexNotFound when the store has no index n. */
  lemma IndexDataResponse(store: Store, codec: Codec, assertionsEnabled: bool, n: int)
    requires n != CONTROL
    ensures var r := ChannelRead(store, codec, assertionsEnabled, ArchiveRequest(CONTROL, n));
            match FindIndex(store.indexes, n)
            case None => r == Failure(IndexNotFound)
            case Some(i) =>
              var compressed := codec.compress(NONE, codec.writeIndexData(i));
              && (compressed.Some? ==> r == Success(ArchiveResponse(CONTROL, n, compressed.value)))
              && (compressed.None? ==> r == Failure(CompressionFailed))
  {
  }

  /** Store ids are unique, as the store's catalogue keeps them. */
  predicate UniqueIndexIds(indexes: seq<Index>) {
    forall j, k :: 0 <= j < k < |indexes| ==> indexes[j].id != indexes[k].id
  }

  /** A normal request for an index the store lacks is an error, never a response. */
  lemma MissingIndexIsError(store: Store, codec: Codec, assertionsEnabled: bool, request: ArchiveRequest)
    requires request.index != CONTROL
    requires forall k :: 0 <= k < |store.indexes| ==> store.indexes[k].id != request.index
    ensures ChannelRead(store, codec, assertionsEnabled, request) == Failure(IndexNotFound)
  {
  }

  /** A normal request for an archive that index k of the store lacks, where k
      holds the requested id, is an error, never a response. */
  lemma MissingArchiveIsError(store: Store, codec: Codec, assertionsEnabled: bool, request: ArchiveRequest, k: nat)
    requires UniqueIndexIds(store.indexes)
    requires request.index != CONTROL
    requires k < |store.indexes| && store.indexes[k].id == request.index
    requires forall a :: 0 <= a < |store.indexes[k].archives| ==> store.indexes[k].archives[a].archiveId != request.archive
    ensures ChannelRead(store, codec, assertionsEnabled, request) == Failure(ArchiveNotFound)
  {
    var found := FindIndex(store.indexes, request.index).value;
    var j :| 0 <= j < |store.indexes| && store.indexes[j] == found;
    assert j == k;
  }

  /** A normal request for an archive with a cached frame is answered with
      exactly those bytes when the frame holds a header and, with assertions
      enabled, passes the length check as written; one without a cached frame
      is answered with its contents compressed under its declared compression. */
  lemma ArchiveResponsePayload(store: Store, codec: Codec, assertionsEnabled: bool, request: ArchiveRequest)
    requires request.index != CONTROL
    requires FindIndex(store.indexes, request.index).Some?
    requires GetArchive(FindIndex(store.indexes, request.index).value.archives, request.archive).Some?
    ensures var archive := GetArchive(FindIndex(store.indexes, request.index).value.archives, request.archive).value;
            var r := ChannelRead(store, codec, assertionsEnabled, request);
            && (archive.data.Some? && |archive.data.value| < 5 ==> r == Failure(TruncatedFrame))
            && (archive.data.Some? && |archive.data.value| >= 5
                && (!assertionsEnabled || FrameLengthMatchesAsWritten(archive.data.value)) ==>
                  r == Success(ArchiveResponse(request.index, request.archive, archive.data.value)))
            && (archive.data.Some? && |archive.data.value| >= 5
                && assertionsEnabled && !FrameLengthMatchesAsWritten(archive.data.value) ==>
                  r == Failure(FrameLengthMismatch))
            && (archive.data.None? && archive.contents.Some? ==>
                  var compressed := codec.compress(archive.compression, archive.contents.value);
                  (compressed.Some? ==> r == Success(ArchiveResponse(request.index, request.archive, compressed.value)))
                  && (compressed.None? ==> r == Failure(CompressionFailed)))
            && (archive.data.None? && archive.contents.None? ==> r == Failure(ContentUnavailable))
  {
  }

  /** With assertions enabled, a cached frame the handler serves is laid out
      as the frame format says, so a consumer can parse it, unless it is a
      frame of 5 to 8 bytes whose size field is negative, which the length
      check as written lets through. */
  lemma ServedCachedFrameLayout(store: Store, codec: Codec, request: ArchiveRequest)
    requires request.index != CONTROL
    requires FindIndex(store.indexes, request.index).Some?
    requires GetArchive(FindIndex(store.indexes, request.index).value.archives, request.archive).Some?
    requires GetArchive(FindIndex(store.indexes, request.index).value.archives, request.archive).value.data.Some?
    requires ChannelRead(store, codec, true, request).Success?
    ensures var packed := ChannelRead(store, codec, true, request).value.data;
            || (&& ParseFrame(packed).Some?
                && var p := ParseFrame(packed).value;
                && |p.payload| < 0x8000_0000 && |p.trailer| == TrailerLength(p.compression)
                && Frame(p.compression, p.payload, p.trailer) == packed)
            || (5 <= |packed| <= 8 && DeclaredSize(packed) < 0)
  {
    var packed := ChannelRead(store, codec, true, request).value.data;
    if DeclaredSize(packed) >= 0 {
      WellFormedFrameIsFramed(packed);
    }
  }

  /** With assertions enabled, the handler serves the 8-byte frame whose size
      field reads -1, which no consumer can parse. */
  lemma NegativeSizeFrameServed()
    ensures var packed: Bytes := [1, 0xff, 0xff, 0xff, 0xff, 0, 0, 0];
            var store := Store([Index(0, 0, 0, [Archive(0, Some(packed), NONE, None)])]);
            var codec := Codec((compression: int, data: Bytes) => None, (i: Index) => []);
            && ChannelRead(store, codec, true, ArchiveRequest(0, 0)) == Success(ArchiveResponse(0, 0, packed))
            && ParseFrame(packed).None?
  {
    NegativeSizeFramePasses();
  }
}
