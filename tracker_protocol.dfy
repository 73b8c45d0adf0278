/**
 * The tracker protocol: a peer opens a connection to the tracker, writes a
 * one-byte query type followed by the query's fields, and reads the answer.
 *
 *   LIST    (1): no body               -> int32 count, count x {int32 id, UTF name, int64 size}
 *   UPLOAD  (2): UTF name, int64 size  -> int32 id
 *   SOURCES (3): int32 fileId          -> int32 count, count x {4 ip bytes, int16 port}
 *   UPDATE  (4): int16 port, int32 count, count x int32 fileId -> boolean
 *
 * Encode* functions give the bytes a writer puts on the stream, Decode*
 * functions what the matching reader makes of a stream; the methods are the
 * loops of the Java reader and writer methods, proved equal to them.
 */
module TrackerProtocol {
  import opened Wire

  const LIST_QUERY: int := 1
  const UPLOAD_QUERY: int := 2
  const SOURCES_QUERY: int := 3
  const UPDATE_QUERY: int := 4
  const SERVER_PORT: int := 8081
  /** Milliseconds between two announcements of a peer. */
  const TIME_BETWEEN_UPDATE_QUERIES: int := 60 * 1000
  const IP_LENGTH_IN_BYTES: nat := 4

  // ---------------------------------------------------------------------------
  // Entities

  /** A catalog entry. Java compares entries by id alone (see SameFile). */
  datatype TrackerFileEntry = TrackerFileEntry(id: int32, fileName: Utf, size: int64)

  /** TrackerFileEntry.equals */
  predicate SameFile(a: TrackerFileEntry, b: TrackerFileEntry)
  {
    a.id == b.id
  }

  /** TrackerFileEntry.hashCode */
  function FileHashCode(e: TrackerFileEntry): int32
  {
    e.id
  }

  /** Equality ignores name and size, and the hash code agrees with it. */
  lemma FileIdentityIsId(a: TrackerFileEntry, b: TrackerFileEntry)
    ensures SameFile(a, b) <==> a.id == b.id
    ensures SameFile(a, b) ==> FileHashCode(a) == FileHashCode(b)
    ensures SameFile(a, b) && a.fileName != b.fileName ==> a != b
  {
  }

  type IPv4 = s: seq<byte> | |s| == 4 witness [0, 0, 0, 0]

  /** A peer's identity: its address and its listening port. */
  datatype ClientEntry = ClientEntry(ip: IPv4, port: int32)

  predicate ValidPort(port: int)
  {
    0 <= port <= 0xFFFF
  }

  /** A port read as a signed 16-bit field is reinterpreted as unsigned. */
  function NormalisePort(port: int32): (r: int32)
    ensures -0x8000 <= port < 0x8000 ==> ValidPort(r)
  {
    if port < 0 then 0x1_0000 + port else port
  }

  /** new ClientEntry(ip, port): rejects an address that is not 4 bytes long. */
  function NewClientEntry(ip: seq<byte>, port: int32): (r: Option<ClientEntry>)
    ensures r.Some? <==> |ip| == IP_LENGTH_IN_BYTES
    ensures r.Some? ==> r.value.ip == ip
    ensures r.Some? && -0x8000 <= port < 0x8000 ==> ValidPort(r.value.port)
  {
    if |ip| != IP_LENGTH_IN_BYTES then None else Some(ClientEntry(ip, NormalisePort(port)))
  }

  /** Java's int arithmetic: x reduced into [-2^31, 2^31). */
  function Wrap32(x: int): int32
  {
    (x + 0x8000_0000) % 0x1_0000_0000 - 0x8000_0000
  }

  function SignedByte(b: byte): int
  {
    if b < 0x80 then b else b - 0x100
  }

  /** Arrays.hashCode(byte[]): h = 1, then h = 31 * h + b for each signed byte. */
  function ArraysHashCode(bytes: seq<byte>): int32
  {
    if bytes == [] then 1
    else Wrap32(31 * ArraysHashCode(bytes[..|bytes| - 1]) + SignedByte(bytes[|bytes| - 1]))
  }

  /** ClientEntry.equals */
  predicate ClientEquals(a: ClientEntry, b: ClientEntry)
  {
    a.ip == b.ip && a.port == b.port
  }

  /** ClientEntry.hashCode */
  function ClientHashCode(c: ClientEntry): int32
  {
    Wrap32(ArraysHashCode(c.ip) * 31 + c.port)
  }

  /** Equality is by address bytes and port, and the hash code agrees with it. */
  lemma ClientIdentity(a: ClientEntry, b: ClientEntry)
    ensures ClientEquals(a, b) <==> a == b
    ensures ClientEquals(a, b) ==> ClientHashCode(a) == ClientHashCode(b)
  {
  }

  // ---------------------------------------------------------------------------
  // Requests, as written by the make*Query methods

  function EncodeListQuery(): seq<byte>
  {
    WriteByte(LIST_QUERY)
  }

  function EncodeUploadQuery(fileName: Utf, size: int64): seq<byte>
  {
    WriteByte(UPLOAD_QUERY) + WriteUTF(fileName) + WriteLong(size)
  }

  function EncodeSourcesQuery(fileId: int32): seq<byte>
  {
    WriteByte(SOURCES_QUERY) + WriteInt(fileId)
  }

  function EncodeUpdateQuery(port: int32, fileIds: seq<int32>): seq<byte>
    requires |fileIds| <= INT32_MAX
  {
    WriteByte(UPDATE_QUERY) + WriteShort(port) + WriteInt(|fileIds|) + WriteAll(fileIds, WriteInt)
  }

  // Requests, as read by the tracker after the query type

  /** getUploadQueryData: the tracker assigns the id later; until then it is -1. */
  function DecodeUploadQuery(s: seq<byte>): Read<TrackerFileEntry>
  {
    match ReadUTF(s)
    case None => None
    case Some((name, s1)) =>
      match ReadLong(s1)
      case None => None
      case Some((size, s2)) => Some((TrackerFileEntry(-1, name, size), s2))
  }

  function DecodeSourcesQuery(s: seq<byte>): Read<int32>
  {
    ReadInt(s)
  }

  /** UpdateQueryData: the announced port, normalised, and the file ids. */
  datatype UpdateQueryData = UpdateQueryData(port: int32, fileIds: seq<int32>)

  function NewUpdateQueryData(port: int32, fileIds: seq<int32>): UpdateQueryData
  {
    UpdateQueryData(NormalisePort(port), fileIds)
  }

  /** getUpdateQueryData: a negative count makes `new int[count]` throw (None). */
  function DecodeUpdateQuery(s: seq<byte>): Read<UpdateQueryData>
  {
    match ReadShort(s)
    case None => None
    case Some((port, s1)) =>
      match ReadInt(s1)
      case None => None
      case Some((count, s2)) =>
        if count < 0 then None
        else
          match ReadN(s2, count, ReadInt)
          case None => None
          case Some((ids, s3)) => Some((NewUpdateQueryData(port, ids), s3))
  }

  /** What the tracker's dispatch loop makes of the next bytes of a connection. */
  datatype Query =
    | ListQuery
    | UploadQuery(entry: TrackerFileEntry)
    | SourcesQuery(fileId: int32)
    | UpdateQuery(data: UpdateQueryData)

  datatype Incoming =
    | Received(query: Query, rest: seq<byte>)
      /** the stream ended before a query type: orderly disconnect */
    | EndOfStream
      /** the stream ended inside a query, or its array count was negative */
    | Broken
    | UnknownType(queryType: int)

  function DecodeQuery(s: seq<byte>): Incoming
  {
    match ReadByte(s)
    case None => EndOfStream
    case Some((t, body)) =>
      if t == LIST_QUERY then Received(ListQuery, body)
      else if t == UPLOAD_QUERY then
        match DecodeUploadQuery(body)
        case None => Broken
        case Some((e, rest)) => Received(UploadQuery(e), rest)
      else if t == SOURCES_QUERY then
        match DecodeSourcesQuery(body)
        case None => Broken
        case Some((id, rest)) => Received(SourcesQuery(id), rest)
      else if t == UPDATE_QUERY then
        match DecodeUpdateQuery(body)
        case None => Broken
        case Some((d, rest)) => Received(UpdateQuery(d), rest)
      else UnknownType(t)
  }

  // ---------------------------------------------------------------------------
  // Responses

  function EncodeUploadResponse(id: int32): seq<byte>
  {
    WriteInt(id)
  }

  function DecodeUploadResponse(s: seq<byte>): Read<int32>
  {
    ReadInt(s)
  }

  function EncodeUpdateResponse(b: bool): seq<byte>
  {
    WriteBoolean(b)
  }

  function DecodeUpdateResponse(s: seq<byte>): Read<bool>
  {
    ReadBoolean(s)
  }

  /** One source: the four address bytes, then writeShort(port). */
  function WriteClient(c: ClientEntry): seq<byte>
  {
    c.ip + WriteShort(c.port)
  }

  /** Four address bytes, then readShort, through the ClientEntry constructor. */
  function ReadClient(s: seq<byte>): Read<ClientEntry>
  {
    if |s| < IP_LENGTH_IN_BYTES then None
    else
      match ReadShort(s[IP_LENGTH_IN_BYTES..])
      case None => None
      case Some((port, rest)) => Some((ClientEntry(s[..IP_LENGTH_IN_BYTES], NormalisePort(port)), rest))
  }

  function EncodeSourcesResponse(clients: seq<ClientEntry>): seq<byte>
  {
    WriteInt(SizeOf(|clients|)) + WriteAll(clients, WriteClient)
  }

  /** makeSourcesQuery's reader: a negative count reads no entry. */
  function DecodeSourcesResponse(s: seq<byte>): Read<seq<ClientEntry>>
  {
    match ReadInt(s)
    case None => None
    case Some((count, rest)) => ReadN(rest, if count < 0 then 0 else count, ReadClient)
  }

  function WriteFileEntry(e: TrackerFileEntry): seq<byte>
  {
    WriteInt(e.id) + WriteUTF(e.fileName) + WriteLong(e.size)
  }

  function ReadFileEntry(s: seq<byte>): Read<TrackerFileEntry>
  {
    match ReadInt(s)
    case None => None
    case Some((id, s1)) =>
      match ReadUTF(s1)
      case None => None
      case Some((name, s2)) =>
        match ReadLong(s2)
        case None => None
        case Some((size, s3)) => Some((TrackerFileEntry(id, name, size), s3))
  }

  function EncodeListResponse(files: seq<TrackerFileEntry>): seq<byte>
  {
    WriteInt(SizeOf(|files|)) + WriteAll(files, WriteFileEntry)
  }

  /** makeListQuery's reader: `new ArrayList<>(count)` throws on a negative count. */
  function DecodeListResponse(s: seq<byte>): Read<seq<TrackerFileEntry>>
  {
    match ReadInt(s)
    case None => None
    case Some((count, rest)) => if count < 0 then None else ReadN(rest, count, ReadFileEntry)
  }

  // ---------------------------------------------------------------------------
  // Properties of the framing

  /** Every request starts with its query type, and the four types differ. */
  lemma QueryTypes(fileName: Utf, size: int64, fileId: int32, port: int32, fileIds: seq<int32>)
    requires |fileIds| <= INT32_MAX
    ensures EncodeListQuery() == [LIST_QUERY]
    ensures EncodeUploadQuery(fileName, size)[0] == UPLOAD_QUERY
    ensures EncodeSourcesQuery(fileId)[0] == SOURCES_QUERY
    ensures EncodeUpdateQuery(port, fileIds)[0] == UPDATE_QUERY
    ensures |{LIST_QUERY, UPLOAD_QUERY, SOURCES_QUERY, UPDATE_QUERY}| == 4
  {
    Pow256Widths();
    assert WriteByte(LIST_QUERY) == [LIST_QUERY];
    assert WriteByte(UPLOAD_QUERY) == [UPLOAD_QUERY];
    assert WriteByte(SOURCES_QUERY) == [SOURCES_QUERY];
    assert WriteByte(UPDATE_QUERY) == [UPDATE_QUERY];
  }

  /**
   * A port written with writeShort, read back with readShort and normalised
   * comes back as its low 16 bits; so every port in [0, 65535] survives.
   */
  lemma PortRoundTrip(port: int32, rest: seq<byte>)
    ensures ReadShort(WriteShort(port) + rest).Some?
    ensures NormalisePort(ReadShort(WriteShort(port) + rest).value.0) == port % 0x1_0000
    ensures ReadShort(WriteShort(port) + rest).value.1 == rest
    ensures ValidPort(port) ==> NormalisePort(ReadShort(WriteShort(port) + rest).value.0) == port
  {
    ShortRoundTrip(port, rest);
  }

  lemma ClientRoundTrip(c: ClientEntry, rest: seq<byte>)
    requires ValidPort(c.port)
    ensures ReadClient(WriteClient(c) + rest) == Some((c, rest))
  {
    var s := WriteClient(c) + rest;
    assert s[..IP_LENGTH_IN_BYTES] == c.ip;
    assert s[IP_LENGTH_IN_BYTES..] == WriteShort(c.port) + rest;
    PortRoundTrip(c.port, rest);
  }

  lemma FileEntryRoundTrip(e: TrackerFileEntry, rest: seq<byte>)
    ensures ReadFileEntry(WriteFileEntry(e) + rest) == Some((e, rest))
  {
    var s2 := WriteLong(e.size) + rest;
    var s1 := WriteUTF(e.fileName) + s2;
    assert WriteFileEntry(e) + rest == WriteInt(e.id) + s1;
    IntRoundTrip(e.id, s1);
    UTFRoundTrip(e.fileName, s2);
    LongRoundTrip(e.size, rest);
  }

  /** A SOURCES answer is 4 + 6 * count bytes and reads back as the same list. */
  lemma SourcesResponseRoundTrip(clients: seq<ClientEntry>, rest: seq<byte>)
    requires |clients| <= INT32_MAX
    requires forall i :: 0 <= i < |clients| ==> ValidPort(clients[i].port)
    ensures |EncodeSourcesResponse(clients)| == 4 + 6 * |clients|
    ensures DecodeSourcesResponse(EncodeSourcesResponse(clients) + rest) == Some((clients, rest))
  {
    var body := WriteAll(clients, WriteClient);
    WriteAllLength(clients, WriteClient, 6);
    IntRoundTrip(|clients|, body + rest);
    assert EncodeSourcesResponse(clients) + rest == WriteInt(|clients|) + (body + rest);
    ClientsRoundTrip(clients, rest);
  }

  lemma {:induction false} ClientsRoundTrip(clients: seq<ClientEntry>, rest: seq<byte>)
    requires forall i :: 0 <= i < |clients| ==> ValidPort(clients[i].port)
    ensures ReadN(WriteAll(clients, WriteClient) + rest, |clients|, ReadClient) == Some((clients, rest))
  {
    if clients != [] {
      var tail := WriteAll(clients[1..], WriteClient) + rest;
      assert WriteAll(clients, WriteClient) + rest == WriteClient(clients[0]) + tail;
      ClientRoundTrip(clients[0], tail);
      ClientsRoundTrip(clients[1..], rest);
      assert [clients[0]] + clients[1..] == clients;
    } else {
      assert WriteAll(clients, WriteClient) + rest == rest;
    }
  }

  /** A LIST answer reads back as the same entries in the same order. */
  lemma ListResponseRoundTrip(files: seq<TrackerFileEntry>, rest: seq<byte>)
    requires |files| <= INT32_MAX
    ensures DecodeListResponse(EncodeListResponse(files) + rest) == Some((files, rest))
  {
    var body := WriteAll(files, WriteFileEntry);
    IntRoundTrip(|files|, body + rest);
    assert EncodeListResponse(files) + rest == WriteInt(|files|) + (body + rest);
    forall e, r ensures ReadFileEntry(WriteFileEntry(e) + r) == Some((e, r)) {
      FileEntryRoundTrip(e, r);
    }
    ReadNWriteAll(files, rest, WriteFileEntry, ReadFileEntry);
  }

  /** UPLOAD: the tracker reads the name and size back, with the placeholder id -1. */
  lemma UploadQueryRoundTrip(fileName: Utf, size: int64, rest: seq<byte>)
    ensures DecodeQuery(EncodeUploadQuery(fileName, size) + rest)
            == Received(UploadQuery(TrackerFileEntry(-1, fileName, size)), rest)
  {
    var s1 := WriteLong(size) + rest;
    var body := WriteUTF(fileName) + s1;
    assert EncodeUploadQuery(fileName, size) + rest == WriteByte(UPLOAD_QUERY) + body;
    ByteRoundTrip(UPLOAD_QUERY, body);
    UTFRoundTrip(fileName, s1);
    LongRoundTrip(size, rest);
  }

  lemma SourcesQueryRoundTrip(fileId: int32, rest: seq<byte>)
    ensures DecodeQuery(EncodeSourcesQuery(fileId) + rest) == Received(SourcesQuery(fileId), rest)
  {
    var body := WriteInt(fileId) + rest;
    assert EncodeSourcesQuery(fileId) + rest == WriteByte(SOURCES_QUERY) + body;
    ByteRoundTrip(SOURCES_QUERY, body);
    IntRoundTrip(fileId, rest);
  }

  lemma ListQueryRoundTrip(rest: seq<byte>)
    ensures DecodeQuery(EncodeListQuery() + rest) == Received(ListQuery, rest)
  {
    ByteRoundTrip(LIST_QUERY, rest);
  }

  /** UPDATE: the ids come back in order, the port as its low 16 bits. */
  lemma UpdateQueryRoundTrip(port: int32, fileIds: seq<int32>, rest: seq<byte>)
    requires |fileIds| <= INT32_MAX
    ensures DecodeQuery(EncodeUpdateQuery(port, fileIds) + rest)
            == Received(UpdateQuery(UpdateQueryData(port % 0x1_0000, fileIds)), rest)
  {
    var body := WriteShort(port) + WriteInt(|fileIds|) + WriteAll(fileIds, WriteInt) + rest;
    assert EncodeUpdateQuery(port, fileIds) + rest == WriteByte(UPDATE_QUERY) + body;
    ByteRoundTrip(UPDATE_QUERY, body);
    UpdateBodyRoundTrip(port, fileIds, rest);
  }

  lemma UpdateBodyRoundTrip(port: int32, fileIds: seq<int32>, rest: seq<byte>)
    requires |fileIds| <= INT32_MAX
    ensures DecodeUpdateQuery(WriteShort(port) + WriteInt(|fileIds|) + WriteAll(fileIds, WriteInt) + rest)
            == Some((UpdateQueryData(port % 0x1_0000, fileIds), rest))
  {
    var s3 := WriteAll(fileIds, WriteInt) + rest;
    var s2 := WriteInt(|fileIds|) + s3;
    var s1 := WriteShort(port) + s2;
    Regroup(WriteShort(port), WriteInt(|fileIds|), WriteAll(fileIds, WriteInt), rest);
    PortRoundTrip(port, s2);
    var port16 := ReadShort(s1).value.0;
    assert ReadShort(s1) == Some((port16, s2));
    IntRoundTrip(|fileIds|, s3);
    IntsRoundTrip(fileIds, rest);
    assert NewUpdateQueryData(port16, fileIds) == UpdateQueryData(port % 0x1_0000, fileIds);
    assert DecodeUpdateQuery(s1) == Some((NewUpdateQueryData(port16, fileIds), rest));
  }

  /** Every field reader takes at least one byte off the stream. */
  lemma FieldReadersConsume(s: seq<byte>)
    ensures ReadInt(s).Some? ==> |ReadInt(s).value.1| < |s|
    ensures ReadShort(s).Some? ==> |ReadShort(s).value.1| < |s|
    ensures ReadLong(s).Some? ==> |ReadLong(s).value.1| < |s|
    ensures ReadUTF(s).Some? ==> |ReadUTF(s).value.1| < |s|
  {
  }

  /** A catalog record read back leaves less of the stream than there was. */
  lemma ReadFileEntryConsumes(s: seq<byte>)
    ensures ReadFileEntry(s).Some? ==> |ReadFileEntry(s).value.1| < |s|
  {
    FieldReadersConsume(s);
    if ReadInt(s).Some? {
      var s1 := ReadInt(s).value.1;
      FieldReadersConsume(s1);
      if ReadUTF(s1).Some? {
        FieldReadersConsume(ReadUTF(s1).value.1);
      }
    }
  }

  /** The bodies of UPLOAD and UPDATE are read without growing the stream. */
  lemma QueryBodiesConsume(body: seq<byte>)
    ensures DecodeUploadQuery(body).Some? ==> |DecodeUploadQuery(body).value.1| < |body|
    ensures DecodeUpdateQuery(body).Some? ==> |DecodeUpdateQuery(body).value.1| < |body|
  {
    FieldReadersConsume(body);
    if ReadUTF(body).Some? {
      FieldReadersConsume(ReadUTF(body).value.1);
    }
    if ReadShort(body).Some? {
      var s1 := ReadShort(body).value.1;
      FieldReadersConsume(s1);
      if ReadInt(s1).Some? && ReadInt(s1).value.0 >= 0 {
        forall x | ReadInt(x).Some? ensures |ReadInt(x).value.1| < |x| {
          FieldReadersConsume(x);
        }
        ReadNShape(ReadInt(s1).value.1, ReadInt(s1).value.0, ReadInt);
      }
    }
  }

  /** A query the tracker has read leaves less of the stream than there was. */
  lemma DecodeQueryConsumes(s: seq<byte>)
    ensures DecodeQuery(s).Received? ==> |DecodeQuery(s).rest| < |s|
  {
    if ReadByte(s).Some? {
      var body := ReadByte(s).value.1;
      assert |body| < |s|;
      FieldReadersConsume(body);
      QueryBodiesConsume(body);
    }
  }

  // ---------------------------------------------------------------------------
  // The Java loops

  /** makeSourcesQuery: writes the query, then reads count entries through the reused ip buffer. */
  method MakeSourcesQuery(fileId: int32, reply: seq<byte>)
    returns (request: seq<byte>, entries: Read<seq<ClientEntry>>)
    ensures request == EncodeSourcesQuery(fileId)
    ensures entries == DecodeSourcesResponse(reply)
  {
    request := WriteByte(SOURCES_QUERY) + WriteInt(fileId);
    var header := ReadInt(reply);
    if header.None? {
      return request, None;
    }
    var count := header.value.0;
    var start := header.value.1;
    ghost var n: nat := if count < 0 then 0 else count;
    assert DecodeSourcesResponse(reply) == ReadN(start, n, ReadClient);
    var ip := new byte[IP_LENGTH_IN_BYTES];
    var read: seq<ClientEntry> := [];
    var input := start;
    var i := 0;
    PrependNothing(ReadN(start, n, ReadClient));
    while i < count
      invariant 0 <= i <= n
      invariant ReadN(start, n, ReadClient) == Prepend(read, ReadN(input, n - i, ReadClient))
    {
      var entry := ReadClientInto(ip, input);
      if entry.None? {
        ReadNStop(input, n - i, ReadClient, read);
        return request, None;
      }
      ReadNStep(input, n - i, ReadClient, entry.value.0, entry.value.1);
      PrependCons(read, entry.value.0, ReadN(entry.value.1, n - i - 1, ReadClient));
      read := read + [entry.value.0];
      input := entry.value.1;
      i := i + 1;
    }
    ReadNDone(input, ReadClient, read);
    entries := Some((read, input));
  }

  /** One source: four readByte calls into `ip`, a copy of it, and readShort. */
  method ReadClientInto(ip: array<byte>, s: seq<byte>) returns (entry: Read<ClientEntry>)
    requires ip.Length == IP_LENGTH_IN_BYTES
    modifies ip
    ensures entry == ReadClient(s)
  {
    var input := s;
    for j := 0 to IP_LENGTH_IN_BYTES
      invariant j <= |s| && input == s[j..] && ip[..j] == s[..j]
    {
      if |input| == 0 {
        return None;
      }
      ip[j] := input[0];
      assert ip[..j + 1] == ip[..j] + [input[0]];
      assert s[..j + 1] == s[..j] + [s[j]];
      input := input[1..];
    }
    assert ip[..] == ip[..IP_LENGTH_IN_BYTES];
    var port := ReadShort(input);
    if port.None? {
      return None;
    }
    var address: IPv4 := ip[..];
    entry := Some((ClientEntry(address, NormalisePort(port.value.0)), port.value.1));
  }

  /** makeUpdateQuery: the header, one writeInt per id, then the boolean answer. */
  method MakeUpdateQuery(port: int32, fileIds: seq<int32>, reply: seq<byte>)
    returns (request: seq<byte>, ack: Read<bool>)
    requires |fileIds| <= INT32_MAX
    ensures request == EncodeUpdateQuery(port, fileIds)
    ensures ack == DecodeUpdateResponse(reply)
  {
    var header := WriteByte(UPDATE_QUERY) + WriteShort(port) + WriteInt(|fileIds|);
    request := header;
    for i := 0 to |fileIds|
      invariant request == header + WriteAll(fileIds[..i], WriteInt)
    {
      WriteAllSnoc(fileIds[..i], fileIds[i], WriteInt);
      assert fileIds[..i + 1] == fileIds[..i] + [fileIds[i]];
      request := request + WriteInt(fileIds[i]);
    }
    assert fileIds[..|fileIds|] == fileIds;
    ack := ReadBoolean(reply);
  }

  /** getUpdateQueryData: port, count, then the ids into `new int[count]`. */
  method GetUpdateQueryData(s: seq<byte>) returns (data: Read<UpdateQueryData>)
    ensures data == DecodeUpdateQuery(s)
  {
    var port := ReadShort(s);
    if port.None? {
      return None;
    }
    var header := ReadInt(port.value.1);
    if header.None? {
      return None;
    }
    var count := header.value.0;
    if count < 0 {
      return None;
    }
    var start := header.value.1;
    var ids := new int32[count];
    var input := start;
    PrependNothing(ReadN(start, count, ReadInt));
    for i := 0 to count
      invariant ReadN(start, count, ReadInt) == Prepend(ids[..i], ReadN(input, count - i, ReadInt))
    {
      var id := ReadInt(input);
      if id.None? {
        ReadNStop(input, count - i, ReadInt, ids[..i]);
        return None;
      }
      ReadNStep(input, count - i, ReadInt, id.value.0, id.value.1);
      PrependCons(ids[..i], id.value.0, ReadN(id.value.1, count - i - 1, ReadInt));
      ghost var before := ids[..i];
      ids[i] := id.value.0;
      assert ids[..i + 1] == before + [id.value.0];
      input := id.value.1;
    }
    ReadNDone(input, ReadInt, ids[..count]);
    assert ids[..count] == ids[..];
    data := Some((NewUpdateQueryData(port.value.0, ids[..]), input));
  }

  /** makeListQuery: writes the type, then reads count entries. */
  method MakeListQuery(reply: seq<byte>) returns (request: seq<byte>, entries: Read<seq<TrackerFileEntry>>)
    ensures request == EncodeListQuery()
    ensures entries == DecodeListResponse(reply)
  {
    request := WriteByte(LIST_QUERY);
    var header := ReadInt(reply);
    if header.None? {
      return request, None;
    }
    var count := header.value.0;
    if count < 0 {
      return request, None;
    }
    entries := ReadEach(header.value.1, count, ReadFileEntry);
  }

  /**
   * sourcesQueryResponse: the set's size, then every member once, in the
   * set's iteration order (`order`, which Java leaves unspecified).
   */
  method SourcesQueryResponse(clients: set<ClientEntry>) returns (response: seq<byte>, ghost order: seq<ClientEntry>)
    ensures Enumerates(order, clients)
    ensures response == EncodeSourcesResponse(order)
  {
    var body;
    body, order := WriteMembers(clients, WriteClient);
    response := WriteInt(SizeOf(|clients|)) + body;
  }

  /**
   * listQueryResponse over the catalog (a set whose members are told apart by
   * id, kept as a map from id to entry): its size, then every entry once.
   */
  method ListQueryResponse(files: map<int32, TrackerFileEntry>)
    returns (response: seq<byte>, ghost ids: seq<int32>)
    ensures Enumerates(ids, files.Keys)
    ensures response == EncodeListResponse(Listing(files, ids))
  {
    var body;
    body, ids := WriteValues(files, WriteFileEntry);
    response := WriteInt(SizeOf(|files|)) + body;
  }
}
