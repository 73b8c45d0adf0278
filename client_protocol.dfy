/**
 * The peer protocol: a downloading peer connects to a seeding peer and asks
 *
 *   STAT (1): int32 fileId               -> int32 count, count x int32 part index
 *   GET  (2): int32 fileId, int32 partId -> the part's bytes, with no length prefix
 *
 * A file is cut into parts of PART_SIZE bytes; the last part may be shorter.
 */
module ClientProtocol {
  import opened Wire

  const STAT_QUERY: int := 1
  const GET_QUERY: int := 2
  const PART_SIZE: nat := 1024 * 1024

  lemma Constants()
    ensures PART_SIZE == 1048576
    ensures STAT_QUERY != GET_QUERY
  {
  }

  /** GetQueryData: the file and the part asked for. */
  datatype GetQueryData = GetQueryData(id: int32, part: int32)

  // ---------------------------------------------------------------------------
  // Requests

  function EncodeStatQuery(fileId: int32): seq<byte>
  {
    WriteByte(STAT_QUERY) + WriteInt(fileId)
  }

  function EncodeGetQuery(fileId: int32, partId: int32): seq<byte>
  {
    WriteByte(GET_QUERY) + WriteInt(fileId) + WriteInt(partId)
  }

  /** getStatQueryId */
  function DecodeStatQuery(s: seq<byte>): Read<int32>
  {
    ReadInt(s)
  }

  /** getGetQueryData: the id first, then the part. */
  function DecodeGetQuery(s: seq<byte>): Read<GetQueryData>
  {
    match ReadInt(s)
    case None => None
    case Some((id, s1)) =>
      match ReadInt(s1)
      case None => None
      case Some((part, s2)) => Some((GetQueryData(id, part), s2))
  }

  datatype PeerQuery = StatQuery(fileId: int32) | GetQuery(data: GetQueryData)

  /** What a seeding peer's connection loop makes of the next bytes. */
  datatype PeerIncoming =
    | Received(query: PeerQuery, rest: seq<byte>)
    | EndOfStream
    | Broken
      /** IllegalStateException: the connection's loop ends */
    | UnknownType(queryType: int)

  function DecodePeerQuery(s: seq<byte>): PeerIncoming
  {
    match ReadByte(s)
    case None => EndOfStream
    case Some((t, body)) =>
      if t == STAT_QUERY then
        match DecodeStatQuery(body)
        case None => Broken
        case Some((id, rest)) => Received(StatQuery(id), rest)
      else if t == GET_QUERY then
        match DecodeGetQuery(body)
        case None => Broken
        case Some((d, rest)) => Received(GetQuery(d), rest)
      else UnknownType(t)
  }

  // ---------------------------------------------------------------------------
  // Responses

  function EncodeStatResponse(parts: seq<int32>): seq<byte>
    requires |parts| <= INT32_MAX
  {
    WriteInt(|parts|) + WriteAll(parts, WriteInt)
  }

  /** makeStatQuery's reader: `new ArrayList<>(count)` throws on a negative count. */
  function DecodeStatResponse(s: seq<byte>): Read<seq<int32>>
  {
    match ReadInt(s)
    case None => None
    case Some((count, rest)) => if count < 0 then None else ReadN(rest, count, ReadInt)
  }

  /** The bytes a GET answer carries: up to PART_SIZE bytes of the file from `pos` on. */
  function FilePart(content: seq<byte>, pos: nat): (r: seq<byte>)
    ensures |r| <= PART_SIZE
  {
    if pos >= |content| then []
    else if |content| - pos <= PART_SIZE then content[pos..]
    else content[pos..pos + PART_SIZE]
  }

  // ---------------------------------------------------------------------------
  // Properties

  lemma PeerQueryTypes(fileId: int32, partId: int32)
    ensures EncodeStatQuery(fileId)[0] == STAT_QUERY
    ensures EncodeGetQuery(fileId, partId)[0] == GET_QUERY
  {
    Pow256Widths();
    assert WriteByte(STAT_QUERY) == [STAT_QUERY];
    assert WriteByte(GET_QUERY) == [GET_QUERY];
  }

  lemma StatQueryRoundTrip(fileId: int32, rest: seq<byte>)
    ensures DecodePeerQuery(EncodeStatQuery(fileId) + rest) == Received(StatQuery(fileId), rest)
  {
    var body := WriteInt(fileId) + rest;
    assert EncodeStatQuery(fileId) + rest == WriteByte(STAT_QUERY) + body;
    ByteRoundTrip(STAT_QUERY, body);
    IntRoundTrip(fileId, rest);
  }

  lemma GetQueryRoundTrip(fileId: int32, partId: int32, rest: seq<byte>)
    ensures DecodePeerQuery(EncodeGetQuery(fileId, partId) + rest)
            == Received(GetQuery(GetQueryData(fileId, partId)), rest)
  {
    var s1 := WriteInt(partId) + rest;
    var body := WriteInt(fileId) + s1;
    assert EncodeGetQuery(fileId, partId) + rest == WriteByte(GET_QUERY) + body;
    ByteRoundTrip(GET_QUERY, body);
    IntRoundTrip(fileId, s1);
    IntRoundTrip(partId, rest);
  }

  /** A STAT answer reads back as the same indices in the same order. */
  lemma StatResponseRoundTrip(parts: seq<int32>, rest: seq<byte>)
    requires |parts| <= INT32_MAX
    ensures |EncodeStatResponse(parts)| == 4 + 4 * |parts|
    ensures DecodeStatResponse(EncodeStatResponse(parts) + rest) == Some((parts, rest))
  {
    var body := WriteAll(parts, WriteInt);
    WriteAllLength(parts, WriteInt, 4);
    IntRoundTrip(|parts|, body + rest);
    assert EncodeStatResponse(parts) + rest == WriteInt(|parts|) + (body + rest);
    IntsRoundTrip(parts, rest);
  }

  /** A GET answer is exactly min(PART_SIZE, bytes left) bytes, copied in file order. */
  lemma FilePartIsSlice(content: seq<byte>, pos: nat)
    requires pos <= |content|
    ensures |FilePart(content, pos)| == if |content| - pos < PART_SIZE then |content| - pos else PART_SIZE
    ensures forall k :: 0 <= k < |FilePart(content, pos)| ==> FilePart(content, pos)[k] == content[pos + k]
  {
  }

  // ---------------------------------------------------------------------------
  // The Java loops

  /** statQueryResponse: the count, then one writeInt per index. */
  method StatQueryResponse(availableParts: seq<int32>) returns (response: seq<byte>)
    requires |availableParts| <= INT32_MAX
    ensures response == EncodeStatResponse(availableParts)
  {
    response := WriteInt(|availableParts|);
    for i := 0 to |availableParts|
      invariant response == WriteInt(|availableParts|) + WriteAll(availableParts[..i], WriteInt)
    {
      WriteAllSnoc(availableParts[..i], availableParts[i], WriteInt);
      assert availableParts[..i + 1] == availableParts[..i] + [availableParts[i]];
      response := response + WriteInt(availableParts[i]);
    }
    assert availableParts[..|availableParts|] == availableParts;
  }

  /** makeStatQuery: writes the request, then reads count indices. */
  method MakeStatQuery(fileId: int32, reply: seq<byte>) returns (request: seq<byte>, parts: Read<seq<int32>>)
    ensures request == EncodeStatQuery(fileId)
    ensures parts == DecodeStatResponse(reply)
  {
    request := WriteByte(STAT_QUERY) + WriteInt(fileId);
    var header := ReadInt(reply);
    if header.None? {
      return request, None;
    }
    var count := header.value.0;
    if count < 0 {
      return request, None;
    }
    parts := ReadEach(header.value.1, count, ReadInt);
  }

  /**
   * getQueryResponse over a file whose bytes are `content`, positioned at
   * `pos`: each `file.read` hands over between one byte and what is asked
   * for (the choice is the file system's), -1 at the end of the file.
   */
  method GetQueryResponse(content: seq<byte>, pos: nat) returns (sent: seq<byte>, newPos: nat)
    ensures sent == FilePart(content, pos)
    ensures newPos == pos + |sent|
  {
    var remainingBytes := PART_SIZE;
    sent := [];
    newPos := pos;
    while remainingBytes > 0
      invariant 0 <= remainingBytes <= PART_SIZE
      invariant |sent| + remainingBytes == PART_SIZE
      invariant newPos == pos + |sent|
      invariant pos <= |content| ==> newPos <= |content| && sent == content[pos..newPos]
      invariant pos > |content| ==> sent == []
      decreases remainingBytes
    {
      if newPos >= |content| {
        break;
      }
      var readBytes :| 1 <= readBytes <= remainingBytes && readBytes <= |content| - newPos;
      assert content[pos..newPos + readBytes] == content[pos..newPos] + content[newPos..newPos + readBytes];
      sent := sent + content[newPos..newPos + readBytes];
      remainingBytes := remainingBytes - readBytes;
      newPos := newPos + readBytes;
    }
  }

  /**
   * makeGetQuery: writes the request, then fills a buffer of partSize bytes
   * from the answer; each `read` delivers between one byte and what is asked for.
   */
  method MakeGetQuery(fileId: int32, partId: int32, partSize: int32, reply: seq<byte>)
    returns (request: seq<byte>, part: seq<byte>, rest: seq<byte>)
    requires 0 <= partSize <= |reply|
    ensures request == EncodeGetQuery(fileId, partId)
    ensures |part| == partSize
    ensures part + rest == reply
  {
    request := WriteByte(GET_QUERY) + WriteInt(fileId) + WriteInt(partId);
    var buffer := new byte[partSize];
    var readBytes := 0;
    var input := reply;
    while readBytes < partSize
      invariant 0 <= readBytes <= partSize
      invariant input == reply[readBytes..]
      invariant buffer[..readBytes] == reply[..readBytes]
      decreases partSize - readBytes
    {
      var n :| 1 <= n <= partSize - readBytes;
      for k := 0 to n
        invariant buffer[..readBytes + k] == reply[..readBytes + k]
      {
        buffer[readBytes + k] := input[k];
        assert buffer[..readBytes + k + 1] == buffer[..readBytes + k] + [input[k]];
        assert reply[..readBytes + k + 1] == reply[..readBytes + k] + [reply[readBytes + k]];
      }
      input := input[n..];
      readBytes := readBytes + n;
    }
    assert buffer[..] == buffer[..partSize];
    part := buffer[..];
    rest := input;
    assert part + rest == reply[..partSize] + reply[partSize..];
  }
}
