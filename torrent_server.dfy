/**
 * The tracker. It keeps the catalog of shared files (saved to a checkpoint
 * when it closes and read back when it starts), the peers that announced a
 * file, and the peers currently online. A peer counts as online from its
 * UPDATE announcement until a disconnect timer fires; each new announcement
 * cancels the peer's previous timer and schedules a fresh one.
 *
 * Each connection is served one query at a time. The registry of the whole
 * tracker is a value (`Registry`) with one function per query; the class
 * `TorrentServer` holds the same state in fields, and its methods are the
 * Java handlers, each proved to move the fields exactly as the function does.
 */
module TorrentServer {
  import opened Wire
  import opened TrackerProtocol

  // ---------------------------------------------------------------------------
  // The catalog: a set of entries told apart by id, kept as a map from id to entry

  type Catalog = map<int32, TrackerFileEntry>

  /** Every entry sits under its own id. */
  predicate Keyed(files: Catalog)
  {
    forall id :: id in files ==> files[id].id == id
  }

  /** `files.add(e)`: an entry whose id is already present is not added. */
  function Add(files: Catalog, e: TrackerFileEntry): Catalog
  {
    if e.id in files then files else files[e.id := e]
  }

  /** Adding keeps every entry already there and keeps entries under their own ids. */
  lemma AddMeaning(files: Catalog, e: TrackerFileEntry)
    requires Keyed(files)
    ensures Keyed(Add(files, e))
    ensures Add(files, e).Keys == files.Keys + {e.id}
    ensures forall id :: id in files ==> Add(files, e)[id] == files[id]
    ensures e.id !in files ==> Add(files, e)[e.id] == e
  {
  }

  /** Entries added one after another, the first one first. */
  function AddAll(files: Catalog, xs: seq<TrackerFileEntry>): Catalog
    decreases |xs|
  {
    if xs == [] then files else AddAll(Add(files, xs[0]), xs[1..])
  }

  /**
   * The constructor's loop over the checkpoint: records (id, name, size) are
   * read and added until a read runs out of bytes; a record cut short is lost.
   */
  function LoadCatalog(s: seq<byte>, files: Catalog): Catalog
    decreases |s|
  {
    ReadFileEntryConsumes(s);
    match ReadFileEntry(s)
    case None => files
    case Some((e, rest)) => LoadCatalog(rest, Add(files, e))
  }

  /** Loading the records written for xs adds xs in order. */
  lemma {:induction false} LoadWritten(xs: seq<TrackerFileEntry>, files: Catalog)
    ensures LoadCatalog(WriteAll(xs, WriteFileEntry), files) == AddAll(files, xs)
    decreases |xs|
  {
    if xs == [] {
      assert ReadFileEntry([]) == None;
    } else {
      var tail := WriteAll(xs[1..], WriteFileEntry);
      assert WriteAll(xs, WriteFileEntry) == WriteFileEntry(xs[0]) + tail;
      FileEntryRoundTrip(xs[0], tail);
      assert tail + [] == tail;
      LoadWritten(xs[1..], Add(files, xs[0]));
    }
  }

  lemma {:induction false} AddAllSnoc(files: Catalog, xs: seq<TrackerFileEntry>, x: TrackerFileEntry)
    ensures AddAll(files, xs + [x]) == Add(AddAll(files, xs), x)
    decreases |xs|
  {
    if xs == [] {
      assert [] + [x] == [x];
      assert [x][1..] == [];
    } else {
      assert (xs + [x])[0] == xs[0];
      assert (xs + [x])[1..] == xs[1..] + [x];
      AddAllSnoc(Add(files, xs[0]), xs[1..], x);
    }
  }

  /** The entries of files whose ids are listed in keys. */
  function Restrict(files: Catalog, keys: seq<int32>): Catalog
  {
    map id | id in files && id in keys :: files[id]
  }

  /** Adding the entries listed under distinct ids rebuilds that part of the catalog. */
  lemma {:induction false} ListingLoads(files: Catalog, keys: seq<int32>)
    requires Keyed(files)
    requires forall i :: 0 <= i < |keys| ==> keys[i] in files
    requires forall i, j :: 0 <= i < j < |keys| ==> keys[i] != keys[j]
    ensures AddAll(map[], Listing(files, keys)) == Restrict(files, keys)
    decreases |keys|
  {
    if keys == [] {
      assert Restrict(files, keys) == map[];
    } else {
      var init := keys[..|keys| - 1];
      var k := keys[|keys| - 1];
      assert keys == init + [k];
      ListingLoads(files, init);
      AddAllSnoc(map[], Listing(files, init), files[k]);
      assert k !in init by {
        forall i | 0 <= i < |init| ensures init[i] != k {
          assert init[i] == keys[i];
        }
      }
      assert Restrict(files, keys) == Restrict(files, init)[k := files[k]];
    }
  }

  /** The checkpoint Close writes makes the constructor load the same catalog. */
  lemma SaveThenLoad(files: Catalog, ids: seq<int32>)
    requires Keyed(files)
    requires Enumerates(ids, files.Keys)
    ensures LoadCatalog(WriteAll(Listing(files, ids), WriteFileEntry), map[]) == files
  {
    LoadWritten(Listing(files, ids), map[]);
    ListingLoads(files, ids);
    assert Restrict(files, ids) == files;
  }

  /** The id an upload receives: `files.size()`. */
  function UploadId(files: Catalog): int32
  {
    SizeOf(|files|)
  }

  /** Ids 0 .. n-1 without a gap, as uploads into an empty catalog leave it. */
  predicate Contiguous(files: Catalog)
  {
    forall id: int32 :: id in files <==> 0 <= id < |files|
  }

  /** In a catalog without gaps, an upload gets the next free id and is stored under it. */
  lemma UploadExtends(files: Catalog, name: Utf, size: int64)
    requires Keyed(files) && Contiguous(files)
    requires |files| < INT32_MAX
    ensures UploadId(files) == |files| && UploadId(files) !in files
    ensures Contiguous(Add(files, TrackerFileEntry(UploadId(files), name, size)))
    ensures Add(files, TrackerFileEntry(UploadId(files), name, size))[UploadId(files)]
            == TrackerFileEntry(UploadId(files), name, size)
  {
    var n := UploadId(files);
    var after := Add(files, TrackerFileEntry(n, name, size));
    assert after == files[n := TrackerFileEntry(n, name, size)];
    assert |after| == |files| + 1;
  }

  /**
   * A catalog with a gap: after a checkpoint holding id 1 alone, the next
   * upload is answered with id 1 but not stored, so the id names another file.
   */
  lemma UploadIntoGap(e: TrackerFileEntry, name: Utf, size: int64)
    requires e.id == 1 && e.fileName != name
    ensures UploadId(map[1 := e]) == 1
    ensures Add(map[1 := e], TrackerFileEntry(1, name, size)) == map[1 := e]
  {
    assert |map[1 := e]| == 1;
  }

  // ---------------------------------------------------------------------------
  // Sources: for each file id, the peers that announced it

  type Sources = map<int32, set<ClientEntry>>

  /** The peers listed for id; none when the id was never asked for or announced. */
  function SourcesOf(sources: Sources, id: int32): set<ClientEntry>
  {
    if id in sources then sources[id] else {}
  }

  /** `fileSources.putIfAbsent(id, empty set)` */
  function OpenSources(sources: Sources, id: int32): (r: Sources)
    ensures r.Keys == sources.Keys + {id}
    ensures forall k :: SourcesOf(r, k) == SourcesOf(sources, k)
  {
    if id in sources then sources else sources[id := {}]
  }

  /** The UPDATE loop over the announced ids, adding the peer c to the sources of each. */
  function AddSources(sources: Sources, ids: seq<int32>, c: ClientEntry): Sources
    decreases |ids|
  {
    if ids == [] then sources
    else AddSource(AddSources(sources, ids[..|ids| - 1], c), ids[|ids| - 1], c)
  }

  /** The peer joins the sources of exactly the announced files; nobody is removed. */
  lemma {:induction false} AddSourcesMeaning(sources: Sources, ids: seq<int32>, c: ClientEntry)
    ensures forall id :: id in AddSources(sources, ids, c) <==> id in sources || id in ids
    ensures forall id :: SourcesOf(AddSources(sources, ids, c), id)
                         == SourcesOf(sources, id) + (if id in ids then {c} else {})
    decreases |ids|
  {
    if ids != [] {
      var init := ids[..|ids| - 1];
      assert ids == init + [ids[|ids| - 1]];
      AddSourcesMeaning(sources, init, c);
    }
  }

  /** One turn of that loop: `putIfAbsent(id, empty set)`, then `get(id).add(c)`. */
  function AddSource(sources: Sources, id: int32, c: ClientEntry): Sources
  {
    sources[id := SourcesOf(sources, id) + {c}]
  }

  lemma AddSourcesSnoc(sources: Sources, ids: seq<int32>, id: int32, c: ClientEntry)
    ensures AddSources(sources, ids + [id], c) == AddSource(AddSources(sources, ids, c), id, c)
  {
    assert (ids + [id])[..|ids|] == ids;
  }

  // ---------------------------------------------------------------------------
  // The registry and the queries that change it

  /** A scheduled disconnect for a peer; the serial tells two tasks of one peer apart. */
  datatype DisconnectTask = DisconnectTask(serial: nat, client: ClientEntry)

  /**
   * The tracker's state: the catalog, the sources, the peers online, the
   * latest disconnect task of each peer, the tasks the timer has still to run
   * (scheduled, neither cancelled nor run yet) and how many tasks were made.
   */
  datatype Registry = Registry(
    files: Catalog,
    fileSources: Sources,
    clients: set<ClientEntry>,
    disconnectTasks: map<ClientEntry, DisconnectTask>,
    pending: set<DisconnectTask>,
    taskCount: nat)

  /**
   * The catalog is keyed by id; each task is filed under its own peer; a
   * pending task is its peer's latest one; and a peer is online exactly while
   * its latest task is pending.
   */
  ghost predicate Consistent(r: Registry)
  {
    && Keyed(r.files)
    && (forall c :: c in r.disconnectTasks ==>
          r.disconnectTasks[c].client == c && r.disconnectTasks[c].serial < r.taskCount)
    && (forall t :: t in r.pending ==> t.client in r.disconnectTasks && r.disconnectTasks[t.client] == t)
    && (forall c :: c in r.clients <==> c in r.disconnectTasks && r.disconnectTasks[c] in r.pending)
  }

  /** The tracker's state after it started from a checkpoint. */
  function Started(checkpoint: seq<byte>): Registry
  {
    Registry(LoadCatalog(checkpoint, map[]), map[], {}, map[], {}, 0)
  }

  /** UPLOAD: the entry takes the id `files.size()` and is added. */
  function Uploaded(r: Registry, entry: TrackerFileEntry): Registry
  {
    r.(files := Add(r.files, entry.(id := UploadId(r.files))))
  }

  /** SOURCES: the id gets an empty set of sources if it had none. */
  function SourcesAsked(r: Registry, id: int32): Registry
  {
    r.(fileSources := OpenSources(r.fileSources, id))
  }

  /** The connection's peer, with the port an UPDATE announced. */
  function Announcing(conn: ClientEntry, data: UpdateQueryData): ClientEntry
  {
    conn.(port := data.port)
  }

  /**
   * UPDATE: the peer's previous task is cancelled and replaced by a new,
   * scheduled one; the peer is online and a source of the announced files.
   */
  function Updated(r: Registry, conn: ClientEntry, data: UpdateQueryData): Registry
  {
    var c := Announcing(conn, data);
    Rescheduled(r, c).(fileSources := AddSources(r.fileSources, data.fileIds, c))
  }

  /** The timer part of UPDATE: c's previous task is cancelled, a new one scheduled, c is online. */
  function Rescheduled(r: Registry, c: ClientEntry): Registry
  {
    var task := DisconnectTask(r.taskCount, c);
    var live := if c in r.disconnectTasks then r.pending - {r.disconnectTasks[c]} else r.pending;
    r.(clients := r.clients + {c}, disconnectTasks := r.disconnectTasks[c := task],
       pending := live + {task}, taskCount := r.taskCount + 1)
  }

  lemma Regroup3(a: seq<byte>, b: seq<byte>, c: seq<byte>)
    ensures a + (b + c) == (a + b) + c
  {
  }

  /** `remove(k)` followed by `put(k, v)` is `put(k, v)`. */
  lemma RemoveThenPut<K, V>(m: map<K, V>, k: K, v: V)
    ensures (m - {k})[k := v] == m[k := v]
  {
  }

  /** A disconnect task runs: its peer goes offline; its sources stay. */
  function Fired(r: Registry, task: DisconnectTask): Registry
  {
    r.(clients := r.clients - {task.client}, pending := r.pending - {task})
  }

  function Step(r: Registry, conn: ClientEntry, q: Query): Registry
  {
    match q
    case ListQuery => r
    case UploadQuery(entry) => Uploaded(r, entry)
    case SourcesQuery(id) => SourcesAsked(r, id)
    case UpdateQuery(data) => Updated(r, conn, data)
  }

  /** The connection's peer after a query: only UPDATE sets its port. */
  function NextConn(conn: ClientEntry, q: Query): ClientEntry
  {
    if q.UpdateQuery? then Announcing(conn, q.data) else conn
  }

  /**
   * One connection's loop: queries are handled until the stream ends, a query
   * is cut short or malformed, or its type is unknown.
   */
  function Apply(r: Registry, conn: ClientEntry, input: seq<byte>): Registry
    decreases |input|
  {
    DecodeQueryConsumes(input);
    match DecodeQuery(input)
    case Received(q, rest) => Apply(Step(r, conn, q), NextConn(conn, q), rest)
    case _ => r
  }

  /** What the tracker answers to q in state r. */
  ghost predicate Answers(r: Registry, q: Query, response: seq<byte>)
  {
    match q
    case ListQuery =>
      exists ids :: Enumerates(ids, r.files.Keys) && response == EncodeListResponse(Listing(r.files, ids))
    case UploadQuery(_) => response == EncodeUploadResponse(UploadId(r.files))
    case SourcesQuery(id) =>
      exists order :: Enumerates(order, SourcesOf(r.fileSources, id)) && response == EncodeSourcesResponse(order)
    case UpdateQuery(_) => response == EncodeUpdateResponse(true)
  }

  /** The bytes a connection's loop writes: the answers to its queries, one after another. */
  ghost predicate Transcript(r: Registry, conn: ClientEntry, input: seq<byte>, output: seq<byte>)
    decreases |input|
  {
    DecodeQueryConsumes(input);
    match DecodeQuery(input)
    case Received(q, rest) =>
      exists k :: 0 <= k <= |output| && Answers(r, q, output[..k])
        && Transcript(Step(r, conn, q), NextConn(conn, q), rest, output[k..])
    case _ => output == []
  }

  // ---------------------------------------------------------------------------
  // Properties of the registry

  /** Answering one query puts its answer before what the rest of the connection writes. */
  lemma TranscriptStep(r: Registry, conn: ClientEntry, input: seq<byte>, response: seq<byte>, out: seq<byte>)
    requires DecodeQuery(input).Received?
    requires Answers(r, DecodeQuery(input).query, response)
    requires Transcript(Step(r, conn, DecodeQuery(input).query), NextConn(conn, DecodeQuery(input).query),
                        DecodeQuery(input).rest, out)
    ensures Transcript(r, conn, input, response + out)
  {
    var whole := response + out;
    assert whole[..|response|] == response && whole[|response|..] == out;
  }

  lemma StartedConsistent(checkpoint: seq<byte>)
    ensures Consistent(Started(checkpoint))
  {
    LoadKeyed(checkpoint, map[]);
  }

  lemma {:induction false} LoadKeyed(s: seq<byte>, files: Catalog)
    requires Keyed(files)
    ensures Keyed(LoadCatalog(s, files))
    decreases |s|
  {
    ReadFileEntryConsumes(s);
    match ReadFileEntry(s)
    case None =>
    case Some((e, rest)) =>
      AddMeaning(files, e);
      LoadKeyed(rest, Add(files, e));
  }

  /**
   * After an UPDATE the peer is online with the new task as its only pending
   * one, so its previous task can no longer take it offline; every other
   * peer's standing is unchanged.
   */
  lemma UpdatedConsistent(r: Registry, conn: ClientEntry, data: UpdateQueryData)
    requires Consistent(r)
    ensures Consistent(Updated(r, conn, data))
    ensures Announcing(conn, data) in Updated(r, conn, data).clients
    ensures Updated(r, conn, data).disconnectTasks[Announcing(conn, data)] in Updated(r, conn, data).pending
    ensures Announcing(conn, data) in r.disconnectTasks ==>
              r.disconnectTasks[Announcing(conn, data)] !in Updated(r, conn, data).pending
    ensures forall d :: d != Announcing(conn, data) ==> (d in Updated(r, conn, data).clients <==> d in r.clients)
  {
    var c := Announcing(conn, data);
    var task := DisconnectTask(r.taskCount, c);
    var u := Updated(r, conn, data);
    assert task !in r.pending;
    forall t | t in u.pending
      ensures t.client in u.disconnectTasks && u.disconnectTasks[t.client] == t
    {
      if t != task {
        assert t in r.pending && t.client != c;
      }
    }
    forall d | d != c
      ensures d in u.disconnectTasks ==> (u.disconnectTasks[d] in u.pending <==> r.disconnectTasks[d] in r.pending)
    {
      if d in u.disconnectTasks {
        var t := r.disconnectTasks[d];
        assert t != task;
        assert c in r.disconnectTasks ==> t != r.disconnectTasks[c];
      }
    }
  }

  /** A pending task takes exactly its own peer offline and leaves the registry consistent. */
  lemma FiredConsistent(r: Registry, task: DisconnectTask)
    requires Consistent(r)
    requires task in r.pending
    ensures Consistent(Fired(r, task))
    ensures task.client !in Fired(r, task).clients
    ensures forall d :: d != task.client ==> (d in Fired(r, task).clients <==> d in r.clients)
  {
    var f := Fired(r, task);
    forall c | c in r.disconnectTasks && c != task.client
      ensures r.disconnectTasks[c] != task
    {
    }
  }

  lemma StepConsistent(r: Registry, conn: ClientEntry, q: Query)
    requires Consistent(r)
    ensures Consistent(Step(r, conn, q))
  {
    match q
    case ListQuery =>
    case UploadQuery(entry) => AddMeaning(r.files, entry.(id := UploadId(r.files)));
    case SourcesQuery(id) =>
    case UpdateQuery(data) => UpdatedConsistent(r, conn, data);
  }

  /**
   * A query never loses or rewrites a catalog entry and never removes a
   * source, and only UPDATE makes a peer online.
   */
  lemma StepKeeps(r: Registry, conn: ClientEntry, q: Query)
    ensures forall id :: id in r.files ==> id in Step(r, conn, q).files && Step(r, conn, q).files[id] == r.files[id]
    ensures forall id :: SourcesOf(r.fileSources, id) <= SourcesOf(Step(r, conn, q).fileSources, id)
    ensures !q.UpdateQuery? ==> Step(r, conn, q).clients == r.clients
  {
    if q.UpdateQuery? {
      AddSourcesMeaning(r.fileSources, q.data.fileIds, Announcing(conn, q.data));
    }
  }

  /** A connection's loop keeps the registry consistent. */
  lemma {:induction false} ApplyConsistent(r: Registry, conn: ClientEntry, input: seq<byte>)
    requires Consistent(r)
    ensures Consistent(Apply(r, conn, input))
    decreases |input|
  {
    DecodeQueryConsumes(input);
    match DecodeQuery(input)
    case Received(q, rest) =>
      StepConsistent(r, conn, q);
      ApplyConsistent(Step(r, conn, q), NextConn(conn, q), rest);
    case _ =>
  }

  /** Over a whole connection, catalog entries and sources are only ever added. */
  lemma {:induction false} ApplyKeeps(r: Registry, conn: ClientEntry, input: seq<byte>)
    ensures forall id :: id in r.files ==> id in Apply(r, conn, input).files && Apply(r, conn, input).files[id] == r.files[id]
    ensures forall id :: SourcesOf(r.fileSources, id) <= SourcesOf(Apply(r, conn, input).fileSources, id)
    decreases |input|
  {
    DecodeQueryConsumes(input);
    match DecodeQuery(input)
    case Received(q, rest) =>
      StepKeeps(r, conn, q);
      ApplyKeeps(Step(r, conn, q), NextConn(conn, q), rest);
    case _ =>
  }

  // ---------------------------------------------------------------------------
  // The tracker object

  class TorrentServer {
    var files: Catalog
    var fileSources: Sources
    var clients: set<ClientEntry>
    var disconnectTasks: map<ClientEntry, DisconnectTask>
    /** The tasks the timer has still to run. */
    var pending: set<DisconnectTask>
    var taskCount: nat

    function State(): Registry
      reads this
    {
      Registry(files, fileSources, clients, disconnectTasks, pending, taskCount)
    }

    ghost predicate Valid()
      reads this
    {
      Consistent(State())
    }

    /** The constructor: reads the checkpoint record by record until it runs out. */
    constructor (checkpoint: seq<byte>)
      ensures Valid()
      ensures State() == Started(checkpoint)
    {
      files := map[];
      fileSources := map[];
      clients := {};
      disconnectTasks := map[];
      pending := {};
      taskCount := 0;
      new;
      var input := checkpoint;
      while true
        invariant Keyed(files)
        invariant LoadCatalog(input, files) == LoadCatalog(checkpoint, map[])
        invariant fileSources == map[] && clients == {} && disconnectTasks == map[]
        invariant pending == {} && taskCount == 0
        decreases |input|
      {
        ReadFileEntryConsumes(input);
        var record := ReadFileEntry(input);
        if record.None? {
          break;
        }
        AddMeaning(files, record.value.0);
        files := Add(files, record.value.0);
        input := record.value.1;
      }
    }

    /** close: every catalog entry once, as id, name and size; the constructor reads it back. */
    method Close() returns (saved: seq<byte>, ghost ids: seq<int32>)
      requires Valid()
      ensures Enumerates(ids, files.Keys)
      ensures saved == WriteAll(Listing(files, ids), WriteFileEntry)
      ensures LoadCatalog(saved, map[]) == files
    {
      saved, ids := WriteValues(files, WriteFileEntry);
      SaveThenLoad(files, ids);
    }

    /** UPLOAD, under the lock on `files`. */
    method Upload(entry: TrackerFileEntry) returns (response: seq<byte>)
      modifies this
      ensures State() == Uploaded(old(State()), entry)
      ensures response == EncodeUploadResponse(UploadId(old(files)))
    {
      var id := SizeOf(|files|);
      var stored := entry.(id := id);
      if id !in files {
        files := files[id := stored];
      }
      response := EncodeUploadResponse(id);
    }

    /** SOURCES: the file's sources, created empty if the id has none. */
    method Sources(id: int32) returns (response: seq<byte>, ghost order: seq<ClientEntry>)
      modifies this
      ensures State() == SourcesAsked(old(State()), id)
      ensures Enumerates(order, SourcesOf(old(fileSources), id))
      ensures response == EncodeSourcesResponse(order)
    {
      if id !in fileSources {
        fileSources := fileSources[id := {}];
      }
      response, order := SourcesQueryResponse(fileSources[id]);
    }

    /** UPDATE from the connection whose peer is conn; answers the peer with its new port. */
    method Update(conn: ClientEntry, data: UpdateQueryData) returns (response: seq<byte>, client: ClientEntry)
      modifies this
      ensures client == Announcing(conn, data)
      ensures State() == Updated(old(State()), conn, data)
      ensures response == EncodeUpdateResponse(true)
    {
      client := conn.(port := data.port);
      Reschedule(client);
      AddSourcesOf(client, data.fileIds);
      response := EncodeUpdateResponse(true);
    }

    /** UPDATE's timer bookkeeping and `clients.add`. */
    method Reschedule(client: ClientEntry)
      modifies this
      ensures State() == Rescheduled(old(State()), client)
    {
      ghost var r := State();
      if client in disconnectTasks {
        var oldTask := disconnectTasks[client];
        pending := pending - {oldTask};
      }
      disconnectTasks := disconnectTasks - {client};
      var task := DisconnectTask(taskCount, client);
      taskCount := taskCount + 1;
      disconnectTasks := disconnectTasks[client := task];
      pending := pending + {task};
      clients := clients + {client};
      RemoveThenPut(r.disconnectTasks, client, task);
    }

    /** UPDATE's loop over the announced file ids. */
    method AddSourcesOf(client: ClientEntry, fileIds: seq<int32>)
      modifies this
      ensures State() == old(State()).(fileSources := AddSources(old(fileSources), fileIds, client))
    {
      ghost var r := State();
      var sources := fileSources;
      for i := 0 to |fileIds|
        invariant sources == AddSources(r.fileSources, fileIds[..i], client)
        invariant State() == r
      {
        var fileId := fileIds[i];
        AddSourcesSnoc(r.fileSources, fileIds[..i], fileId, client);
        assert fileIds[..i + 1] == fileIds[..i] + [fileId];
        if fileId !in sources {
          sources := sources[fileId := {}];
        }
        sources := sources[fileId := sources[fileId] + {client}];
      }
      assert fileIds[..|fileIds|] == fileIds;
      fileSources := sources;
    }

    /** The timer runs a pending disconnect task: the peer is removed from the online peers only. */
    method Fire(task: DisconnectTask)
      requires Valid()
      requires task in pending
      modifies this
      ensures Valid()
      ensures State() == Fired(old(State()), task)
    {
      FiredConsistent(State(), task);
      clients := clients - {task.client};
      pending := pending - {task};
    }

    /** The switch over the query type. */
    method HandleQuery(conn: ClientEntry, q: Query) returns (response: seq<byte>, next: ClientEntry)
      requires Valid()
      modifies this
      ensures Valid()
      ensures State() == Step(old(State()), conn, q)
      ensures next == NextConn(conn, q)
      ensures Answers(old(State()), q, response)
    {
      next := conn;
      StepConsistent(old(State()), conn, q);
      match q
      case ListQuery =>
        ghost var ids;
        response, ids := ListQueryResponse(files);
      case UploadQuery(entry) =>
        response := Upload(entry);
      case SourcesQuery(id) =>
        ghost var order;
        response, order := Sources(id);
      case UpdateQuery(data) =>
        response, next := Update(conn, data);
    }

    /**
     * ClientProcessor.run for a connection from ip: the peer starts with port
     * 0, and queries are served until the loop stops.
     */
    method Serve(ip: IPv4, input: seq<byte>) returns (output: seq<byte>)
      requires Valid()
      modifies this
      ensures Valid()
      ensures State() == Apply(old(State()), ClientEntry(ip, 0), input)
      ensures Transcript(old(State()), ClientEntry(ip, 0), input, output)
    {
      ghost var start := State();
      var conn := ClientEntry(ip, 0);
      var stream := input;
      output := [];
      forall out | Transcript(start, conn, stream, out)
        ensures Transcript(start, ClientEntry(ip, 0), input, output + out)
      {
        assert output + out == out;
      }
      ghost var reg := start;
      while true
        invariant Valid() && reg == State()
        invariant Apply(reg, conn, stream) == Apply(start, ClientEntry(ip, 0), input)
        invariant forall out :: Transcript(reg, conn, stream, out) ==>
                    Transcript(start, ClientEntry(ip, 0), input, output + out)
        decreases |stream|
      {
        DecodeQueryConsumes(stream);
        var incoming := DecodeQuery(stream);
        if !incoming.Received? {
          assert Transcript(reg, conn, stream, []);
          assert output + [] == output;
          break;
        }
        ghost var beforeConn := conn;
        var response;
        response, conn := HandleQuery(conn, incoming.query);
        forall out | Transcript(State(), conn, incoming.rest, out)
          ensures Transcript(start, ClientEntry(ip, 0), input, (output + response) + out)
        {
          TranscriptStep(reg, beforeConn, stream, response, out);
          Regroup3(output, response, out);
        }
        reg := State();
        output := output + response;
        stream := incoming.rest;
      }
    }
  }
}
