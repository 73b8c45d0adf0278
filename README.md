# A verified model of a small BitTorrent-like tracker and peer

The system has two programs:

- a **tracker**, which keeps a catalog of shared files, the list of peers that announced each file, and the set of peers currently online;
- a **peer**, which seeds its own files and downloads other files part by part from the seeders the tracker names.

Both talk over two binary protocols in the `java.io.DataOutputStream` format:

- the **tracker protocol**: LIST, UPLOAD, SOURCES and UPDATE;
- the **peer protocol**: STAT, which lists the parts a seeder holds, and GET, which fetches one part of 1 MiB.

The model is split by the program's own structure:

- `Wire` (`wire.dfy`): DataInput/DataOutput framing. Tags, big-endian int16/int32/int64, booleans, `writeUTF` strings, count-prefixed arrays. Each writer is a function to bytes, each reader a function to `(value, unread rest)` or `None` at end of stream. Also the generic loops that read n values and write every member of a set or map.
- `TrackerProtocol` (`tracker_protocol.dfy`): Requests and answers of the tracker protocol as encode/decode pairs. `ClientEntry` and `TrackerFileEntry` identity. The Java reader and writer loops as methods proved equal to the pure functions.
- `ClientProtocol` (`client_protocol.dfy`): The STAT and GET exchanges, the `getQueryResponse` send loop and the `makeGetQuery` fill loop.
- `TorrentClient` (`torrent_client.dfy`): The part arithmetic, `ClientFileEntry` with its `isPartPresent` array, `FileInfo`, the STAT answer and the checkpoint file `seeding_files.cfg`. The `TorrentClient` class with its `seedingFiles`/`downloadingFiles` maps: loading, `close`, `getFile` and `addFile`.
- `Downloader` (`downloader.dfy`): One round of the per-file download worker and the worker's loop over rounds. A round builds the part-owner table from the STAT answers, then fetches the missing parts into the file.
- `TorrentServer` (`torrent_server.dfy`): The tracker's registry as a value with one step function per query, and its consistency invariant. The `TorrentServer` class whose handlers are proved to move its fields exactly as those functions say. One connection's dispatch loop and the bytes it writes.
- `TorrentClientFrame` (`torrent_client_frame.dfy`): The size column's B/KB/MB/GB rule and the check-box table model of the "select files" dialog.

## How the model reads the Java program

- **Streams and files.** A stream is the sequence of bytes still to be read. A file's contents are a `seq<byte>`. Each network exchange of a download round is a parameter: the seeder list, one STAT answer per seeder and one GET answer per part. Each of these is either a value or an `IoError`.
- **Iteration order.** Java iteration over a `HashSet` or `ConcurrentHashMap` has no fixed order. Such loops are methods that pick the next member with `:|`. They return a ghost listing that enumerates the collection, and their output is stated in terms of that listing.
- **Identities.** `TrackerFileEntry` equality is by id alone, so the tracker's catalog is a map from id to entry, and `add` is insert-if-absent. A peer identity (`ClientEntry`) is the pair (address, port).
- **Timers.** A disconnect timer task is the value `DisconnectTask(serial, client)`. The registry records the latest task of each peer and the set of tasks still pending, i.e. scheduled and neither cancelled nor run. Firing a task is a method whose caller picks a pending task.
- **Eviction.** The tracker's eviction task removes the peer from `clients` only. It does not touch the per-file source lists (`TorrentServer.java:133-143`), so SOURCES answers go on listing an evicted peer.

## Model

| member | source | states |
|---|---|---|
| Wire.ByteRoundTrip | src/main/java/ru/spbau/mit/TrackerProtocol.java:95-97 | A query tag in [-128, 127] written with writeByte is read back by readByte, and the rest of the stream is untouched. |
| Wire.ShortRoundTrip | src/main/java/ru/spbau/mit/TrackerProtocol.java:130 | readShort after writeShort(v) always succeeds and gives the low 16 bits of v as a signed value. |
| Wire.IntRoundTrip | src/main/java/ru/spbau/mit/TrackerProtocol.java:104-116 | readInt after writeInt gives back the same int32 and leaves the rest of the stream. |
| Wire.LongRoundTrip | src/main/java/ru/spbau/mit/TrackerProtocol.java:100-113 | readLong after writeLong gives back the same int64 and leaves the rest. |
| Wire.BooleanRoundTrip | src/main/java/ru/spbau/mit/TrackerProtocol.java:164-179 | readBoolean after writeBoolean gives back the same boolean. |
| Wire.UTFRoundTrip | src/main/java/ru/spbau/mit/TrackerProtocol.java:100-112 | readUTF after writeUTF gives back the same string of at most 65535 bytes and leaves the rest. |
| Wire.ReadNWriteAll | src/main/java/ru/spbau/mit/TrackerProtocol.java:197-203 | When a value reader inverts its writer, reading as many values as were written gives them all back in order, with the rest of the stream after them. |
| Wire.IntsRoundTrip | src/main/java/ru/spbau/mit/TrackerProtocol.java:156-160 | A run of writeInt values reads back with readInt as the same ids in the same order. |
| Wire.ReadEach | src/main/java/ru/spbau/mit/TrackerProtocol.java:199-203 | The `for (i < count) list.add(read(in))` loop answers exactly what reading count values in a row answers. It fails as a whole when the stream runs out first. |
| Wire.WriteMembers | src/main/java/ru/spbau/mit/TrackerProtocol.java:126-131 | The for-each over a set writes every member exactly once. The order is some enumeration of the set, and the bytes are the written members in that order. |
| Wire.WriteValues | src/main/java/ru/spbau/mit/TorrentServer.java:58-62 | The for-each over a map writes the value of every key exactly once, in the order of some enumeration of its keys. |
| TrackerProtocol.FileIdentityIsId | src/main/java/ru/spbau/mit/TrackerProtocol.java:38-46 | Two catalog entries are equal exactly when their ids are, whatever their names. Equal entries have equal hash codes. |
| TrackerProtocol.NormalisePort | src/main/java/ru/spbau/mit/TrackerProtocol.java:212-218 | A port read as a signed 16-bit value and normalised (negatives get +65536) lies in [0, 65535]. |
| TrackerProtocol.NewClientEntry | src/main/java/ru/spbau/mit/TrackerProtocol.java:60-71 | The ClientEntry constructor succeeds exactly when the address is 4 bytes long. It keeps the address, and a 16-bit port comes out in [0, 65535]. |
| TrackerProtocol.ClientIdentity | src/main/java/ru/spbau/mit/TrackerProtocol.java:73-87 | ClientEntry.equals holds exactly when address and port agree. Equal entries have equal `Arrays.hashCode(ip) * 31 + port` hash codes, computed with 32-bit wrap-around. |
| TrackerProtocol.QueryTypes | src/main/java/ru/spbau/mit/TrackerProtocol.java:16-19 | Every tracker request starts with its tag byte: LIST = 1, UPLOAD = 2, SOURCES = 3, UPDATE = 4. The four tags are distinct, and LIST is the tag alone. |
| TrackerProtocol.PortRoundTrip | src/main/java/ru/spbau/mit/TrackerProtocol.java:213-218 | writeShort, readShort and normalisation turn any port into its low 16 bits, so every port in [0, 65535] comes back unchanged. |
| TrackerProtocol.ClientRoundTrip | src/main/java/ru/spbau/mit/TrackerProtocol.java:144-148 | One source written as 4 address bytes and writeShort(port) reads back as the same ClientEntry when its port is in [0, 65535]. |
| TrackerProtocol.ClientsRoundTrip | src/main/java/ru/spbau/mit/TrackerProtocol.java:144-149 | A run of written sources reads back, count by count, as the same list in order. |
| TrackerProtocol.SourcesResponseRoundTrip | src/main/java/ru/spbau/mit/TrackerProtocol.java:123-151 | A SOURCES answer is 4 + 6·count bytes long and decodes to the same list of (address, port) in the same order. |
| TrackerProtocol.FileEntryRoundTrip | src/main/java/ru/spbau/mit/TrackerProtocol.java:185-189 | A catalog record (int32 id, UTF name, int64 size) reads back as the same entry. |
| TrackerProtocol.ListResponseRoundTrip | src/main/java/ru/spbau/mit/TrackerProtocol.java:182-204 | A LIST answer decodes to the same entries in the same order. |
| TrackerProtocol.UploadQueryRoundTrip | src/main/java/ru/spbau/mit/TrackerProtocol.java:100-116 | The tracker reads an UPLOAD request as the same name and size, with the placeholder id -1. |
| TrackerProtocol.SourcesQueryRoundTrip | src/main/java/ru/spbau/mit/TrackerProtocol.java:118-139 | The tracker reads a SOURCES request as the same file id. |
| TrackerProtocol.ListQueryRoundTrip | src/main/java/ru/spbau/mit/TrackerProtocol.java:193-196 | The tracker reads the one-byte LIST request as a LIST query and leaves the rest of the stream. |
| TrackerProtocol.UpdateQueryRoundTrip | src/main/java/ru/spbau/mit/TrackerProtocol.java:154-179 | The tracker reads an UPDATE request as the same ids in the same order, with the port reduced to its low 16 bits. |
| TrackerProtocol.UpdateBodyRoundTrip | src/main/java/ru/spbau/mit/TrackerProtocol.java:154-162 | getUpdateQueryData reads the port/count/ids body that makeUpdateQuery writes as UpdateQueryData(port mod 65536, ids). |
| TrackerProtocol.DecodeQueryConsumes | src/main/java/ru/spbau/mit/TorrentServer.java:102-125 | Each query the dispatch loop reads takes at least one byte off the stream, so one connection's loop ends. |
| TrackerProtocol.MakeSourcesQuery | src/main/java/ru/spbau/mit/TrackerProtocol.java:135-151 | makeSourcesQuery writes the SOURCES request. Its loop reads back what the SOURCES decoder reads: count entries, none for a negative count, or failure when the stream ends early. |
| TrackerProtocol.ReadClientInto | src/main/java/ru/spbau/mit/TrackerProtocol.java:142-148 | Four readByte calls into the reused ip buffer, a copy of it and readShort read one source exactly as the source reader does. |
| TrackerProtocol.MakeUpdateQuery | src/main/java/ru/spbau/mit/TrackerProtocol.java:169-179 | makeUpdateQuery's loop writes exactly the UPDATE encoding, and its answer is the boolean read back. |
| TrackerProtocol.GetUpdateQueryData | src/main/java/ru/spbau/mit/TrackerProtocol.java:154-162 | The loop filling `new int[count]` answers what the UPDATE body decoder answers. A negative count fails, as the array allocation throws. |
| TrackerProtocol.MakeListQuery | src/main/java/ru/spbau/mit/TrackerProtocol.java:193-204 | makeListQuery writes the LIST tag and reads back what the LIST decoder reads. A negative count fails, as `new ArrayList<>(count)` throws. |
| TrackerProtocol.SourcesQueryResponse | src/main/java/ru/spbau/mit/TrackerProtocol.java:123-133 | The answer is the set's size, then every peer in the set exactly once, in the set's iteration order. |
| TrackerProtocol.ListQueryResponse | src/main/java/ru/spbau/mit/TrackerProtocol.java:182-191 | The answer is the catalog's size, then every catalog entry exactly once, in the catalog's iteration order. |
| ClientProtocol.Constants | src/main/java/ru/spbau/mit/ClientProtocol.java:14-16 | PART_SIZE is 1048576 and the STAT and GET tags differ. |
| ClientProtocol.PeerQueryTypes | src/main/java/ru/spbau/mit/ClientProtocol.java:44-75 | A STAT request starts with tag 1 and a GET request with tag 2. |
| ClientProtocol.StatQueryRoundTrip | src/main/java/ru/spbau/mit/ClientProtocol.java:59-76 | A seeder reads a STAT request as a STAT query for the same file id. |
| ClientProtocol.GetQueryRoundTrip | src/main/java/ru/spbau/mit/ClientProtocol.java:26-49 | A seeder reads a GET request as GetQueryData with the same file id and part id. |
| ClientProtocol.StatResponseRoundTrip | src/main/java/ru/spbau/mit/ClientProtocol.java:63-83 | A STAT answer is 4 + 4·count bytes long and decodes to the same part indices in order. |
| ClientProtocol.FilePartIsSlice | src/main/java/ru/spbau/mit/ClientProtocol.java:30-42 | A GET answer is min(PART_SIZE, bytes left after the position) bytes long and holds the file's bytes from that position, in file order. |
| ClientProtocol.StatQueryResponse | src/main/java/ru/spbau/mit/ClientProtocol.java:63-70 | statQueryResponse's loop writes exactly the STAT answer encoding. |
| ClientProtocol.MakeStatQuery | src/main/java/ru/spbau/mit/ClientProtocol.java:72-83 | makeStatQuery writes the STAT request and reads back what the STAT answer decoder reads. |
| ClientProtocol.GetQueryResponse | src/main/java/ru/spbau/mit/ClientProtocol.java:30-42 | The send loop sends exactly the GET answer, however the file splits its reads, and stops at end of file. The file position moves by the bytes sent. The loop keeps `sent + remainingBytes == PART_SIZE`. |
| ClientProtocol.MakeGetQuery | src/main/java/ru/spbau/mit/ClientProtocol.java:44-56 | makeGetQuery writes the GET request. However the socket splits its reads, it returns exactly partSize bytes: the first partSize bytes of the answer, in stream order. |
| TorrentClient.PartCountIsCeiling | src/main/java/ru/spbau/mit/TorrentClient.java:93-95 | For the sizes an int can count, the part count is the ceiling of size / PART_SIZE. It is 0 exactly for an empty file. |
| TorrentClient.NegativePartCount | src/main/java/ru/spbau/mit/TorrentClient.java:114-115 | The part count is negative, which makes `new boolean[partCount]` throw, exactly for sizes of -PART_SIZE or less. |
| TorrentClient.PartLayout | src/main/java/ru/spbau/mit/TorrentClient.java:354-360 | Every part but the last is PART_SIZE long. The last part is size mod PART_SIZE long, or PART_SIZE when that is 0, and it ends exactly at the file's end. |
| TorrentClient.PartSizesSum | src/main/java/ru/spbau/mit/TorrentClient.java:354-365 | The part lengths add up to the file size. |
| TorrentClient.GetAnswerIsPart | src/main/java/ru/spbau/mit/TorrentClient.java:263-266 | A seeder that seeks to part·PART_SIZE in the whole file and sends the GET answer sends exactly that part's bytes, of the length the downloader asks for. |
| TorrentClient.ClientFileEntry.constructor | src/main/java/ru/spbau/mit/TorrentClient.java:74-83 | A new entry has exactly getPartCount(size) flags, all equal to isFileExists, in a fresh array. |
| TorrentClient.ClientFileEntry.FromFlags | src/main/java/ru/spbau/mit/TorrentClient.java:85-90 | The second constructor shares the given flag array rather than copying it. |
| TorrentClient.CountPresentAll | src/main/java/ru/spbau/mit/TorrentClient.java:392-397 | Counting the present parts finds all of them exactly when every part is present. |
| TorrentClient.NewFileInfo | src/main/java/ru/spbau/mit/TorrentClient.java:389-397 | FileInfo keeps the name, counts the present parts, and is finished exactly when every part is present. |
| TorrentClient.PresentIndicesMeaning | src/main/java/ru/spbau/mit/TorrentClient.java:250-256 | The STAT answer lists exactly the indices of present parts, each once, in ascending order. |
| TorrentClient.AvailableParts | src/main/java/ru/spbau/mit/TorrentClient.java:250-256 | The STAT branch's loop builds exactly that list of present indices. |
| TorrentClient.RecordRoundTrip | src/main/java/ru/spbau/mit/TorrentClient.java:111-122 | One checkpoint record (id, name, size, one boolean per part) reads back as the same record. |
| TorrentClient.CheckpointRoundTrip | src/main/java/ru/spbau/mit/TorrentClient.java:108-132 | Loading the records that were written gives back the same records in the same order, up to end of file. |
| TorrentClient.SaveThenLoad | src/main/java/ru/spbau/mit/TorrentClient.java:49-62 | After close writes seedingFiles and the client restarts, seedingFiles comes back as it was. downloadingFiles comes back as exactly its files with a missing part. |
| TorrentClient.FindEntryIsFirst | src/main/java/ru/spbau/mit/TorrentClient.java:146-156 | getFile's search finds nothing exactly when no listed entry has the id. Otherwise it finds the first listed entry with that id. |
| TorrentClient.TorrentClient.constructor | src/main/java/ru/spbau/mit/TorrentClient.java:24-25 | A client starts with both maps empty. |
| TorrentClient.TorrentClient.Open | src/main/java/ru/spbau/mit/TorrentClient.java:108-132 | The checkpoint loop puts every record into seedingFiles, a later record replacing an earlier one under the same id. It puts a record into downloadingFiles when a part is missing. It fails exactly when a record's size gives a negative part count. The downloadingFiles entry of every incomplete seeded file is the same object as its seedingFiles entry, so download progress shows in both. |
| TorrentClient.TorrentClient.PutLoaded | src/main/java/ru/spbau/mit/TorrentClient.java:123-127 | One loaded record becomes an entry sharing the read flag array. It goes into seedingFiles, and into downloadingFiles when a part is missing. |
| TorrentClient.TorrentClient.ReadRecordFrom | src/main/java/ru/spbau/mit/TorrentClient.java:111-122 | The record reader answers what the checkpoint record decoder answers: a record, end of file, or a corrupt size. `downloaded` holds exactly when every flag read is set. |
| TorrentClient.TorrentClient.ReadFlags | src/main/java/ru/spbau/mit/TorrentClient.java:114-122 | The flag loop reads partCount booleans into a new array, and `downloaded` holds exactly when all of them are set. |
| TorrentClient.TorrentClient.Close | src/main/java/ru/spbau/mit/TorrentClient.java:49-62 | close writes every seeded file's record exactly once, in the map's iteration order. Every record sits under its own id with one flag per part, so it can be loaded back. |
| TorrentClient.TorrentClient.GetFile | src/main/java/ru/spbau/mit/TorrentClient.java:144-157 | When the tracker's list has the id, both maps get the same new all-absent entry for the first listed file. Otherwise neither map changes. |
| TorrentClient.TorrentClient.AddFile | src/main/java/ru/spbau/mit/TorrentClient.java:159-170 | The file goes into seedingFiles, under the id the tracker assigned, as an all-present entry. downloadingFiles is unchanged. |
| Downloader.ClaimAt | src/main/java/ru/spbau/mit/TorrentClient.java:341-344 | After one seeder's STAT answer, a part's owner is that seeder exactly when the answer lists the part. Otherwise the owner is unchanged. |
| Downloader.OwnerStep | src/main/java/ru/spbau/mit/TorrentClient.java:333-344 | Dealing with one more seeder changes a part's owner, to that seeder, exactly when it was asked and reported the part. |
| Downloader.OwnerIsLastReporter | src/main/java/ru/spbau/mit/TorrentClient.java:331-346 | A part has no owner exactly when no asked seeder reported it. Otherwise its owner is the last seeder in list order that reported it. Seeders on our own port are not asked. |
| Downloader.Overwrite | src/main/java/ru/spbau/mit/TorrentClient.java:365-366 | seek then write puts the data at the offset, keeps every other byte, and grows the file when the data runs past its end. |
| Downloader.ExpectedBounds | src/main/java/ru/spbau/mit/TorrentClient.java:354-360 | The length a round asks for is positive and at most PART_SIZE. |
| Downloader.FillFlags | src/main/java/ru/spbau/mit/TorrentClient.java:348-368 | The part loop touches only the flags it has visited, and flags only go from false to true. |
| Downloader.FillCompleted | src/main/java/ru/spbau/mit/TorrentClient.java:347-351 | downloadCompleted after the loop holds exactly when no part was missing at the start of the scan. An IOException leaves it false. |
| Downloader.FillNoOwner | src/main/java/ru/spbau/mit/TorrentClient.java:351-353 | A missing part with no owner stays missing. |
| Downloader.FillWritten | src/main/java/ru/spbau/mit/TorrentClient.java:361-367 | A part the loop flags had an owner whose GET answer was at least partSize bytes long. The part's range lies inside the file and holds the first partSize bytes of that answer. |
| Downloader.FillFrame | src/main/java/ru/spbau/mit/TorrentClient.java:348-368 | Every byte the part loop changes lies in a part that was missing and that the loop flagged. The bytes of present parts, of parts left missing and past the last part stay as they were. |
| Downloader.FillCovers | src/main/java/ru/spbau/mit/TorrentClient.java:348-368 | When every missing part has an owner with a long enough answer, the loop ends with every part present and no IOException. |
| Downloader.FillUnchanged | src/main/java/ru/spbau/mit/TorrentClient.java:348-368 | With every part present, the loop changes neither flags nor file. |
| Downloader.FillAborted | src/main/java/ru/spbau/mit/TorrentClient.java:361-373 | Once a GET fails with an IOException, the rest of the round changes nothing. |
| Downloader.RoundCompleted | src/main/java/ru/spbau/mit/TorrentClient.java:325-351 | A round that completes found every part present and left flags and file as they were. When tracker and seeders answer and every part is present, the round completes. |
| Downloader.RoundMonotone | src/main/java/ru/spbau/mit/TorrentClient.java:348-368 | A round only sets flags, and the file keeps its length. |
| Downloader.RoundFrame | src/main/java/ru/spbau/mit/TorrentClient.java:327-368 | Every byte a round changes lies in a part that was missing and that the round flagged. |
| Downloader.RoundWritten | src/main/java/ru/spbau/mit/TorrentClient.java:354-367 | A part a round flags was answered by GET with at least partSize bytes, and its range holds the first partSize of them. |
| Downloader.SetLength | src/main/java/ru/spbau/mit/TorrentClient.java:320 | After setLength(n) the file is exactly n bytes long and keeps its first min(n, old length) bytes. |
| Downloader.WorkerMonotone | src/main/java/ru/spbau/mit/TorrentClient.java:325-368 | Over all rounds, flags only go from false to true. When the worker stops after a completed round, every part is present. |
| Downloader.WorkerFrame | src/main/java/ru/spbau/mit/TorrentClient.java:325-368 | Every byte the worker changes lies in a part that was missing when it started and is present when it stops. The bytes of parts already present are never touched. |
| Downloader.WorkerWritten | src/main/java/ru/spbau/mit/TorrentClient.java:325-368 | A part the worker fetched holds, over its whole range, the first partSize bytes of the GET answer of some round. |
| Downloader.BuildOwners | src/main/java/ru/spbau/mit/TorrentClient.java:331-346 | The owner loop over the seeders fills the table that OwnerTable describes. It skips seeders on our own port and stops at the first STAT exchange that fails. |
| Downloader.FetchParts | src/main/java/ru/spbau/mit/TorrentClient.java:347-369 | The part loop updates the entry's flag array in place, the file's bytes and downloadCompleted exactly as the pure part loop does. It writes partSize bytes per part, so the file keeps its length. |
| Downloader.Round | src/main/java/ru/spbau/mit/TorrentClient.java:327-370 | One round, given the network's answers, moves flags, file and downloadCompleted as RoundResult says. When the tracker or a seeder fails, nothing changes and the round is not complete. |
| Downloader.Run | src/main/java/ru/spbau/mit/TorrentClient.java:312-377 | A negative size makes setLength fail, and nothing changes. Otherwise the file is set to size bytes, and the rounds run until one completes. Flags and file end as the Worker fold of the rounds says. On completion every part is present and the file leaves downloadingFiles, and only the file. Flags never go back, and seedingFiles is unchanged. |
| TorrentServer.AddMeaning | src/main/java/ru/spbau/mit/TorrentServer.java:37-38 | `files.add` keeps every entry already there. A new id gets the entry; an entry whose id is present is dropped. |
| TorrentServer.LoadWritten | src/main/java/ru/spbau/mit/TorrentServer.java:34-43 | Loading the records written for a list of entries adds them one by one in order. |
| TorrentServer.SaveThenLoad | src/main/java/ru/spbau/mit/TorrentServer.java:34-63 | The checkpoint close writes makes the constructor load exactly the same catalog. |
| TorrentServer.UploadExtends | src/main/java/ru/spbau/mit/TorrentServer.java:109-116 | In a catalog with ids 0..n-1, an upload is answered n and is stored under n, and the ids become 0..n. |
| TorrentServer.UploadIntoGap | src/main/java/ru/spbau/mit/TorrentServer.java:112-113 | In a catalog holding id 1 alone, an upload is answered 1 but is not stored, because `add` drops an entry whose id is present. |
| TorrentServer.OpenSources | src/main/java/ru/spbau/mit/TorrentServer.java:120 | `putIfAbsent(id, empty set)` adds the id and changes no peer list. |
| TorrentServer.AddSourcesMeaning | src/main/java/ru/spbau/mit/TorrentServer.java:147-150 | The UPDATE loop adds the peer to the sources of exactly the announced ids and removes nobody. The sources of other ids are unchanged. |
| TorrentServer.StartedConsistent | src/main/java/ru/spbau/mit/TorrentServer.java:28-44 | The tracker starts in a consistent state. |
| TorrentServer.LoadKeyed | src/main/java/ru/spbau/mit/TorrentServer.java:34-43 | Every loaded catalog entry sits under its own id. |
| TorrentServer.UpdatedConsistent | src/main/java/ru/spbau/mit/TorrentServer.java:124-152 | After UPDATE the peer is online. Its new task is pending, its previous task no longer is, every other peer's standing is unchanged, and the registry stays consistent. |
| TorrentServer.FiredConsistent | src/main/java/ru/spbau/mit/TorrentServer.java:133-143 | A pending disconnect task takes exactly its own peer offline and keeps the registry consistent. |
| TorrentServer.StepConsistent | src/main/java/ru/spbau/mit/TorrentServer.java:102-157 | Every query keeps the registry consistent. |
| TorrentServer.StepKeeps | src/main/java/ru/spbau/mit/TorrentServer.java:104-152 | No query loses or rewrites a catalog entry or removes a source, and only UPDATE changes who is online. |
| TorrentServer.ApplyConsistent | src/main/java/ru/spbau/mit/TorrentServer.java:102-161 | A whole connection keeps the registry consistent. |
| TorrentServer.ApplyKeeps | src/main/java/ru/spbau/mit/TorrentServer.java:102-161 | Over a whole connection, catalog entries and sources are only ever added. |
| TorrentServer.TorrentServer.constructor | src/main/java/ru/spbau/mit/TorrentServer.java:28-44 | The loading loop leaves the catalog the checkpoint describes, and nothing else, in a consistent tracker. |
| TorrentServer.TorrentServer.Close | src/main/java/ru/spbau/mit/TorrentServer.java:57-63 | close writes every catalog entry exactly once, and the constructor reads it back as the same catalog. |
| TorrentServer.TorrentServer.Upload | src/main/java/ru/spbau/mit/TorrentServer.java:109-116 | UPLOAD gives the entry the id `files.size()`, adds it and answers that id. |
| TorrentServer.TorrentServer.Sources | src/main/java/ru/spbau/mit/TorrentServer.java:118-122 | SOURCES opens an empty set for an unseen id and answers every source of the id exactly once; for an unseen id that is count 0. |
| TorrentServer.TorrentServer.Update | src/main/java/ru/spbau/mit/TorrentServer.java:124-152 | UPDATE sets the peer's port, replaces its disconnect task, marks it online, adds it to the announced files' sources and answers true. |
| TorrentServer.TorrentServer.Reschedule | src/main/java/ru/spbau/mit/TorrentServer.java:128-146 | The previous task is cancelled and removed, a new task is filed and scheduled, and the peer joins `clients`. |
| TorrentServer.TorrentServer.AddSourcesOf | src/main/java/ru/spbau/mit/TorrentServer.java:147-150 | The loop over the announced ids changes the sources as AddSources says and nothing else. |
| TorrentServer.TorrentServer.Fire | src/main/java/ru/spbau/mit/TorrentServer.java:133-143 | A pending task's body removes its peer from `clients` only, and keeps the tracker consistent. |
| TorrentServer.TorrentServer.HandleQuery | src/main/java/ru/spbau/mit/TorrentServer.java:103-156 | The switch moves the state as the query's step says and writes the answer the query calls for. |
| TorrentServer.TorrentServer.Serve | src/main/java/ru/spbau/mit/TorrentServer.java:97-162 | One connection's loop leaves the state after all its queries. Its output is the answers to those queries one after another. It stops at end of stream, at a truncated or malformed query, or at an unknown type. |
| TorrentClientFrame.DigitsRoundTrip | src/main/java/ru/spbau/mit/TorrentClientFrame.java:78 | The decimal digits of n have no leading zero and read back as n. |
| TorrentClientFrame.DecimalRoundTrip | src/main/java/ru/spbau/mit/TorrentClientFrame.java:78 | Long.toString(n) ends in a digit and parses back as n. |
| TorrentClientFrame.SizeLabelBranches | src/main/java/ru/spbau/mit/TorrentClientFrame.java:76-85 | Below 2048 the label is the size then "B". Below 2 MiB it is size/1024 then "KB", below 2 GiB size/2^20 then "MB", else size/2^30 then "GB". |
| TorrentClientFrame.SizeLabelReadsBack | src/main/java/ru/spbau/mit/TorrentClientFrame.java:76-85 | The label reads back as the amount in the chosen unit and that unit. |
| TorrentClientFrame.SizeLabelAmount | src/main/java/ru/spbau/mit/TorrentClientFrame.java:76-85 | The amount is the size rounded down to whole units. From 2 KB on it is at least 2, and below gigabytes it stays under 2048. |
| TorrentClientFrame.ChosenAtPresentIndices | src/main/java/ru/spbau/mit/TorrentClientFrame.java:277-285 | The chosen files are, in order, the files at the indices of the set flags. |
| TorrentClientFrame.ChosenMembers | src/main/java/ru/spbau/mit/TorrentClientFrame.java:277-285 | A file is chosen exactly when some set flag stands beside it. |
| TorrentClientFrame.GetFilesTableModel.constructor | src/main/java/ru/spbau/mit/TorrentClientFrame.java:220-223 | The model has one flag per file, all false. |
| TorrentClientFrame.GetFilesTableModel.GetValueAt | src/main/java/ru/spbau/mit/TorrentClientFrame.java:236-250 | A cell has a value exactly for an existing row and a column in 0..2. Column 2 shows the row's flag. |
| TorrentClientFrame.GetFilesTableModel.SetValueAt | src/main/java/ru/spbau/mit/TorrentClientFrame.java:252-262 | Only column 2 is editable. An edit there changes that row's flag alone, and the cell then shows the new value. An edit elsewhere changes nothing. |
| TorrentClientFrame.GetFilesTableModel.GetSelectedFiles | src/main/java/ru/spbau/mit/TorrentClientFrame.java:277-285 | The loop answers exactly the files whose flag is set, in list order. |

## Left out

- Sockets, `ServerSocket` accept loops and connection setup are I/O plumbing. Streams are byte sequences, and each network exchange of a download round is a parameter.
- Concurrency is not modelled: executors, `synchronized`, `ConcurrentHashMap` atomicity and interleaving between connections. Every operation is sequential.
- Timer scheduling is not modelled: the 2 × 60 s delay, `Thread.sleep` and the client's periodic `update()` timer. A disconnect task is a value, and `TorrentServer.Fire` requires a pending task, i.e. one the timer could run.
- The eviction task's `client.close()` is not modelled, nor the way its IOException skips `clients.remove`. `TorrentServer.TorrentServer.Fire` always removes the peer.
- `ClientEntry` is mutable in Java. UPDATE rewrites the port of an identity that may already sit in hash sets, which moves its hash code. The model treats the peer with its new port as a value, so such stale hash-set entries are not captured. `lastUpdateQueryTime` is not kept.
- IPv6 addresses are not modelled. A connection's peer is a 4-byte address given to `Serve`.
- `Collections.shuffle` is not modelled. The seeder list arrives in an arbitrary order as a parameter.
- File system calls are not modelled: `Files`, `RandomAccessFile`, `setLength`, `seek` and `write`. File contents are `seq<byte>`. `setLength` cuts the sequence or pads it to `size` bytes (Downloader.SetLength). Java leaves the padded bytes undefined; the model pads with zeros. The part loop is given a file of exactly `size` bytes.
- Floating point is left out. `Math.ceil(1.0 * size / PART_SIZE)` is integer ceiling division, which is exact for the sizes a 53-bit mantissa holds. `downloadedPercentage` and `ProgressRenderer` are left out, and `FileInfo` keeps the count of present parts instead.
- Modified UTF-8 is not modelled. A string is its already-encoded bytes, at most 65535 of them, behind the 2-byte length. UTFDataFormatException is not modelled.
- ClientProtocol.MakeGetQuery: requires the answer to hold partSize bytes. A `read` returning -1 makes the Java loop run backwards and possibly forever.
- Downloader.Round: requires every STAT index to lie inside the file's part range (InRange). An index outside throws ArrayIndexOutOfBoundsException in Java.
- TorrentClient.AvailableParts: the STAT and GET branches for an unknown file id throw NullPointerException in Java. The model takes the entry as given, and the GET branch is the lemma TorrentClient.GetAnswerIsPart over the file's bytes.
- TorrentClientFrame.GetFilesTableModel.GetValueAt: requires a non-negative row. Java's `files.get` throws for a negative one, and Swing never asks for it.
- TorrentClientFrame.GetFilesTableModel.SetValueAt: requires an existing row when the column is 2. Java throws ArrayIndexOutOfBoundsException otherwise.
- TorrentClient.TorrentClient.AddFile: requires a non-negative size, which `Files.size` always returns. The tracker exchange that yields the id is its parameter `trackerId`, and it is TrackerProtocol.UploadQueryRoundTrip on the wire.
- `update()` building the UPDATE message from seedingFiles, and the wrappers that open a socket per call are not modelled beyond the encoders and decoders: `filesOnServer`, `fileSeeders`, `getPart`.
- The FileDownloader supervisor, which starts one worker per downloading file and waits for `notify`, is left out. Downloader.Run models one worker.
- Downloader.Run: runs at most the rounds given. When they run out before a round completes, the file stays in downloadingFiles, where Java would keep looping.
- The Swing window is left out: `getColumnName`, `getColumnClass`, menus, dialogs and the refresh timer. The `Main` classes are entry points only.
- `TorrentServer.TorrentServer.Update`: the UPDATE handler is split into `Reschedule` (the timer bookkeeping and `clients.add`) and `AddSourcesOf` (the loop over ids). The loop builds the new sources map locally and stores it at the end; the Java code updates `fileSources` entry by entry, with the same final state.
- `Collection.size()` saturates at Integer.MAX_VALUE (`Wire.SizeOf`). The round-trip lemmas for the count-prefixed answers require at most that many elements.
