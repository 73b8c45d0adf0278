/**
 * One round of the per-file download worker (TorrentClient.FileDownloader.Downloader):
 *
 *   1. ask the tracker for the file's seeders;
 *   2. ask every seeder but ourselves (same listening port) for its STAT
 *      answer and record it as the owner of every part it reports, so that
 *      the last seeder in list order to report a part owns it;
 *   3. walk the parts: a missing part with an owner is fetched with GET and,
 *      when the answer is long enough, its first partSize bytes (what
 *      makeGetQuery returns) are written at the part's offset and the part
 *      is flagged.
 *
 * downloadCompleted comes out true only when no part was missing at the
 * scan. An IOException ends the round where it happens. The network answers
 * arrive as parameters; the file's bytes are a sequence, exactly `size`
 * long once the worker has called setLength.
 */
module Downloader {
  import opened Wire
  import opened ClientProtocol
  import opened TrackerProtocol
  import opened TorrentClient

  /** The outcome of one network exchange: a value, or an IOException. */
  datatype Reply<T> = Ok(value: T) | IoError

  // ---------------------------------------------------------------------------
  // The part-owner table

  /** What a STAT answer contributes: its indices, nothing when the exchange failed. */
  function AnswerOf(reply: Reply<seq<int32>>): seq<int32>
  {
    if reply.Ok? then reply.value else []
  }

  /** Every STAT answer names parts of the file (an index outside throws, which this model excludes). */
  predicate InRange(replies: seq<Reply<seq<int32>>>, n: nat)
  {
    forall j, i :: 0 <= j < |replies| && replies[j].Ok? && 0 <= i < |replies[j].value| ==>
      0 <= replies[j].value[i] < n
  }

  /** The seeders asked for a STAT answer: all except the ones listening on our own port. */
  predicate Asked(seeder: ClientEntry, localPort: int)
  {
    seeder.port != localPort
  }

  /** Every seeder that is asked answers. */
  predicate AllAnswered(seeders: seq<ClientEntry>, replies: seq<Reply<seq<int32>>>, localPort: int)
    requires |replies| == |seeders|
  {
    forall j :: 0 <= j < |seeders| && Asked(seeders[j], localPort) ==> replies[j].Ok?
  }

  /** `partOwner[partId] = seeder` for every index of one answer. */
  function Claim(table: seq<Option<ClientEntry>>, seeder: ClientEntry, ids: seq<int32>): (r: seq<Option<ClientEntry>>)
    requires forall i :: 0 <= i < |ids| ==> 0 <= ids[i] < |table|
    ensures |r| == |table|
  {
    if ids == [] then table
    else Claim(table, seeder, ids[..|ids| - 1])[ids[|ids| - 1] := Some(seeder)]
  }

  /** The table once the first k seeders have been dealt with. */
  function OwnerTable(seeders: seq<ClientEntry>, replies: seq<Reply<seq<int32>>>, localPort: int, n: nat, k: nat)
    : (table: seq<Option<ClientEntry>>)
    requires k <= |seeders| == |replies| && InRange(replies, n)
    ensures |table| == n
  {
    if k == 0 then seq(n, _ => None)
    else
      var before := OwnerTable(seeders, replies, localPort, n, k - 1);
      if Asked(seeders[k - 1], localPort) then Claim(before, seeders[k - 1], AnswerOf(replies[k - 1])) else before
  }

  lemma {:induction false} ClaimAt(table: seq<Option<ClientEntry>>, seeder: ClientEntry, ids: seq<int32>, p: int)
    requires forall i :: 0 <= i < |ids| ==> 0 <= ids[i] < |table|
    requires 0 <= p < |table|
    ensures Claim(table, seeder, ids)[p] == if p in ids then Some(seeder) else table[p]
  {
    if ids != [] {
      var init := ids[..|ids| - 1];
      ClaimAt(table, seeder, init, p);
      assert p in ids <==> p in init || p == ids[|ids| - 1] by {
        assert ids == init + [ids[|ids| - 1]];
      }
    }
  }

  /** Did seeder j report part p in an answer that was used? */
  predicate Reported(seeders: seq<ClientEntry>, replies: seq<Reply<seq<int32>>>, localPort: int, j: int, p: int)
    requires 0 <= j < |seeders| == |replies|
  {
    Asked(seeders[j], localPort) && p in AnswerOf(replies[j])
  }

  /**
   * The owner of a part is the last seeder, in list order, that reported it;
   * a part nobody reported has no owner.
   */
  lemma {:induction false} OwnerIsLastReporter(seeders: seq<ClientEntry>, replies: seq<Reply<seq<int32>>>,
                                               localPort: int, n: nat, k: nat, p: int)
    requires k <= |seeders| == |replies| && InRange(replies, n)
    requires 0 <= p < n
    ensures OwnerTable(seeders, replies, localPort, n, k)[p].None? <==>
              forall j :: 0 <= j < k ==> !Reported(seeders, replies, localPort, j, p)
    ensures OwnerTable(seeders, replies, localPort, n, k)[p].Some? ==>
              exists j :: 0 <= j < k && Reported(seeders, replies, localPort, j, p)
                          && OwnerTable(seeders, replies, localPort, n, k)[p] == Some(seeders[j])
                          && forall j' :: j < j' < k ==> !Reported(seeders, replies, localPort, j', p)
  {
    if k > 0 {
      OwnerIsLastReporter(seeders, replies, localPort, n, k - 1, p);
      OwnerStep(seeders, replies, localPort, n, k, p);
      var before := OwnerTable(seeders, replies, localPort, n, k - 1);
      if !Reported(seeders, replies, localPort, k - 1, p) && before[p].Some? {
        var j :| 0 <= j < k - 1 && Reported(seeders, replies, localPort, j, p) && before[p] == Some(seeders[j])
                 && forall j' :: j < j' < k - 1 ==> !Reported(seeders, replies, localPort, j', p);
        assert forall j' :: j < j' < k ==> !Reported(seeders, replies, localPort, j', p);
      }
    }
  }

  /** Dealing with seeder k-1 changes the owner of p exactly when that seeder reported p. */
  lemma OwnerStep(seeders: seq<ClientEntry>, replies: seq<Reply<seq<int32>>>,
                  localPort: int, n: nat, k: nat, p: int)
    requires 0 < k <= |seeders| == |replies| && InRange(replies, n)
    requires 0 <= p < n
    ensures OwnerTable(seeders, replies, localPort, n, k)[p]
            == if Reported(seeders, replies, localPort, k - 1, p) then Some(seeders[k - 1])
               else OwnerTable(seeders, replies, localPort, n, k - 1)[p]
  {
    var before := OwnerTable(seeders, replies, localPort, n, k - 1);
    if Asked(seeders[k - 1], localPort) {
      ClaimAt(before, seeders[k - 1], AnswerOf(replies[k - 1]), p);
    }
  }

  // ---------------------------------------------------------------------------
  // The part loop

  /** RandomAccessFile.seek(offset) then write(data): the file grows when the data runs past its end. */
  function Overwrite(content: seq<byte>, offset: nat, data: seq<byte>): (r: seq<byte>)
    requires offset <= |content|
    ensures |r| == if offset + |data| > |content| then offset + |data| else |content|
    ensures forall k :: 0 <= k < |data| ==> r[offset + k] == data[k]
    ensures forall k :: 0 <= k < |content| && (k < offset || offset + |data| <= k) ==> r[k] == content[k]
  {
    content[..offset] + data + (if offset + |data| < |content| then content[offset + |data|..] else [])
  }

  /** Where the part loop stands: the flags, the file, downloadCompleted, and whether an IOException ended it. */
  datatype Progress = Progress(flags: seq<bool>, content: seq<byte>, completed: bool, aborted: bool)

  /** A part's range ends inside the file, also when the part count saturates. */
  lemma PartEnd(size: int64, p: int)
    requires 0 <= p < PartCount(size)
    ensures p * PART_SIZE + ExpectedPartSize(size, p, PartCount(size)) <= size
  {
    ExpectedBounds(size, p, PartCount(size));
    if size <= MAX_COUNTED_SIZE {
      PartLayout(size, p);
      PartCountIsCeiling(size);
      if p < PartCount(size) - 1 {
        assert (p + 1) * PART_SIZE <= (PartCount(size) - 1) * PART_SIZE;
      }
    } else {
      assert (p + 1) * PART_SIZE <= INT32_MAX * PART_SIZE;
    }
  }

  /** The length a round asks for is positive and at most PART_SIZE. */
  lemma ExpectedBounds(size: int64, p: int, count: int)
    requires 0 <= p < PartCount(size)
    ensures 0 < ExpectedPartSize(size, p, count) <= PART_SIZE
  {
    assert size > 0;
  }

  /** One pass of the part loop, for part p. */
  function PartStep(size: int64, owners: seq<Option<ClientEntry>>, payloads: seq<Reply<seq<byte>>>,
                    st: Progress, p: nat): (next: Progress)
    requires p < |st.flags| == |owners| == |payloads| == PartCount(size)
    requires size <= |st.content|
    ensures |next.flags| == |st.flags| && |next.content| == |st.content|
  {
    if st.aborted || st.flags[p] then st
    else if owners[p].None? then st.(completed := false)
    else match payloads[p]
      case IoError => st.(completed := false, aborted := true)
      case Ok(data) =>
        if |data| < ExpectedPartSize(size, p, |st.flags|) then st.(completed := false)
        else
          PartEnd(size, p);
          var partSize := ExpectedPartSize(size, p, |st.flags|);
          Progress(st.flags[p := true], Overwrite(st.content, p * PART_SIZE, data[..partSize]), false, false)
  }

  /** The part loop after its first i passes, starting from downloadCompleted = true. */
  function Fill(size: int64, flags: seq<bool>, content: seq<byte>, owners: seq<Option<ClientEntry>>,
                payloads: seq<Reply<seq<byte>>>, i: nat): (st: Progress)
    requires i <= |flags| == |owners| == |payloads| == PartCount(size)
    requires |content| == size
    ensures |st.flags| == |flags| && |st.content| == |content|
  {
    if i == 0 then Progress(flags, content, true, false)
    else PartStep(size, owners, payloads, Fill(size, flags, content, owners, payloads, i - 1), i - 1)
  }

  /** The passes so far touched only the flags they visited, and those only from false to true. */
  lemma {:induction false} FillFlags(size: int64, flags: seq<bool>, content: seq<byte>,
                                     owners: seq<Option<ClientEntry>>, payloads: seq<Reply<seq<byte>>>, i: nat)
    requires i <= |flags| == |owners| == |payloads| == PartCount(size)
    requires |content| == size
    ensures forall p :: i <= p < |flags| ==> Fill(size, flags, content, owners, payloads, i).flags[p] == flags[p]
    ensures forall p :: 0 <= p < |flags| && flags[p] ==> Fill(size, flags, content, owners, payloads, i).flags[p]
  {
    if i > 0 {
      FillFlags(size, flags, content, owners, payloads, i - 1);
    }
  }

  /** downloadCompleted after i passes: none of the first i parts was missing. */
  lemma {:induction false} FillCompleted(size: int64, flags: seq<bool>, content: seq<byte>,
                                         owners: seq<Option<ClientEntry>>, payloads: seq<Reply<seq<byte>>>, i: nat)
    requires i <= |flags| == |owners| == |payloads| == PartCount(size)
    requires |content| == size
    ensures Fill(size, flags, content, owners, payloads, i).completed <==> forall p :: 0 <= p < i ==> flags[p]
    ensures Fill(size, flags, content, owners, payloads, i).aborted ==> !Fill(size, flags, content, owners, payloads, i).completed
  {
    if i > 0 {
      FillCompleted(size, flags, content, owners, payloads, i - 1);
      FillFlags(size, flags, content, owners, payloads, i - 1);
    }
  }

  /** A missing part nobody owns is still missing after the loop. */
  lemma {:induction false} FillNoOwner(size: int64, flags: seq<bool>, content: seq<byte>,
                                       owners: seq<Option<ClientEntry>>, payloads: seq<Reply<seq<byte>>>, i: nat, p: nat)
    requires i <= |flags| == |owners| == |payloads| == PartCount(size)
    requires |content| == size
    requires p < |flags| && !flags[p] && owners[p].None?
    ensures !Fill(size, flags, content, owners, payloads, i).flags[p]
  {
    if i > 0 {
      FillNoOwner(size, flags, content, owners, payloads, i - 1, p);
    }
  }

  /**
   * A part flagged by the loop had an owner whose GET answer was at least the
   * expected length, and the file now holds the first partSize bytes of that
   * answer over the part's range (FillFrame says that nothing else changed).
   */
  lemma {:induction false} FillWritten(size: int64, flags: seq<bool>, content: seq<byte>,
                                       owners: seq<Option<ClientEntry>>, payloads: seq<Reply<seq<byte>>>, i: nat, p: nat)
    requires i <= |flags| == |owners| == |payloads| == PartCount(size)
    requires |content| == size
    requires p < |flags| && !flags[p] && Fill(size, flags, content, owners, payloads, i).flags[p]
    ensures p < i && owners[p].Some? && payloads[p].Ok?
    ensures |payloads[p].value| >= ExpectedPartSize(size, p, |flags|)
    ensures p * PART_SIZE + ExpectedPartSize(size, p, |flags|) <= |content|
    ensures forall k :: 0 <= k < ExpectedPartSize(size, p, |flags|) ==>
              Fill(size, flags, content, owners, payloads, i).content[p * PART_SIZE + k] == payloads[p].value[k]
  {
    FillFlags(size, flags, content, owners, payloads, i);
    var before := Fill(size, flags, content, owners, payloads, i - 1);
    FillFlags(size, flags, content, owners, payloads, i - 1);
    ExpectedBounds(size, p, |flags|);
    PartEnd(size, p);
    if before.flags[p] {
      FillWritten(size, flags, content, owners, payloads, i - 1, p);
      var q := i - 1;
      assert q > p;
      if !before.aborted && !before.flags[q] && owners[q].Some? && payloads[q].Ok?
         && |payloads[q].value| >= ExpectedPartSize(size, q, |flags|) {
        assert q * PART_SIZE >= (p + 1) * PART_SIZE;
      }
    }
  }

  /**
   * Every byte the loop changes lies in a part that was missing and that the
   * loop flagged: the bytes of present parts, of parts left missing and past
   * the last part stay as they were.
   */
  lemma {:induction false} FillFrame(size: int64, flags: seq<bool>, content: seq<byte>,
                                     owners: seq<Option<ClientEntry>>, payloads: seq<Reply<seq<byte>>>, i: nat)
    requires i <= |flags| == |owners| == |payloads| == PartCount(size)
    requires |content| == size
    ensures forall k :: 0 <= k < |content| && Fill(size, flags, content, owners, payloads, i).content[k] != content[k] ==>
              k / PART_SIZE < |flags| && !flags[k / PART_SIZE] && Fill(size, flags, content, owners, payloads, i).flags[k / PART_SIZE]
  {
    if i > 0 {
      var q := i - 1;
      var before := Fill(size, flags, content, owners, payloads, q);
      var after := Fill(size, flags, content, owners, payloads, i);
      FillFrame(size, flags, content, owners, payloads, q);
      FillFlags(size, flags, content, owners, payloads, q);
      forall k | 0 <= k < |content| && after.content[k] != content[k]
        ensures k / PART_SIZE < |flags| && !flags[k / PART_SIZE] && after.flags[k / PART_SIZE]
      {
        if after.content[k] != before.content[k] {
          ExpectedBounds(size, q, |flags|);
          assert q * PART_SIZE <= k < q * PART_SIZE + PART_SIZE;
          assert k / PART_SIZE == q;
        }
      }
    }
  }

  /** When every missing part has an owner with a long enough answer, the loop ends with every part present. */
  lemma {:induction false} FillCovers(size: int64, flags: seq<bool>, content: seq<byte>,
                                      owners: seq<Option<ClientEntry>>, payloads: seq<Reply<seq<byte>>>, i: nat)
    requires i <= |flags| == |owners| == |payloads| == PartCount(size)
    requires |content| == size
    requires forall p :: 0 <= p < |flags| && !flags[p] ==>
               owners[p].Some? && payloads[p].Ok? && |payloads[p].value| >= ExpectedPartSize(size, p, |flags|)
    ensures !Fill(size, flags, content, owners, payloads, i).aborted
    ensures forall p :: 0 <= p < i ==> Fill(size, flags, content, owners, payloads, i).flags[p]
  {
    if i > 0 {
      FillCovers(size, flags, content, owners, payloads, i - 1);
      FillFlags(size, flags, content, owners, payloads, i - 1);
    }
  }

  // ---------------------------------------------------------------------------
  // A round

  /** What a round promises: no change and downloadCompleted false when the tracker or a seeder fails, else the part loop. */
  function RoundResult(size: int64, flags: seq<bool>, content: seq<byte>, seeders: Reply<seq<ClientEntry>>,
                       statReplies: seq<Reply<seq<int32>>>, payloads: seq<Reply<seq<byte>>>, localPort: int): (r: Progress)
    requires |flags| == |payloads| == PartCount(size) && |content| == size
    requires seeders.Ok? ==> |statReplies| == |seeders.value| && InRange(statReplies, |flags|)
    ensures |r.flags| == |flags| && |r.content| == |content|
  {
    if seeders.IoError? || !AllAnswered(seeders.value, statReplies, localPort) then
      Progress(flags, content, false, true)
    else
      var owners := OwnerTable(seeders.value, statReplies, localPort, |flags|, |seeders.value|);
      Fill(size, flags, content, owners, payloads, |flags|)
  }

  /** A completed round found every part present, and left the flags and the file as they were. */
  lemma RoundCompleted(size: int64, flags: seq<bool>, content: seq<byte>, seeders: Reply<seq<ClientEntry>>,
                       statReplies: seq<Reply<seq<int32>>>, payloads: seq<Reply<seq<byte>>>, localPort: int)
    requires |flags| == |payloads| == PartCount(size) && |content| == size
    requires seeders.Ok? ==> |statReplies| == |seeders.value| && InRange(statReplies, |flags|)
    ensures var r := RoundResult(size, flags, content, seeders, statReplies, payloads, localPort);
            (r.completed ==> Complete(flags) && r.flags == flags && r.content == content && !r.aborted)
            && (seeders.Ok? && AllAnswered(seeders.value, statReplies, localPort) && Complete(flags) ==> r.completed)
  {
    if seeders.Ok? && AllAnswered(seeders.value, statReplies, localPort) {
      var owners := OwnerTable(seeders.value, statReplies, localPort, |flags|, |seeders.value|);
      FillCompleted(size, flags, content, owners, payloads, |flags|);
      if Complete(flags) {
        FillUnchanged(size, flags, content, owners, payloads, |flags|);
      }
    }
  }

  /** With every part present the loop changes nothing. */
  lemma {:induction false} FillUnchanged(size: int64, flags: seq<bool>, content: seq<byte>,
                                         owners: seq<Option<ClientEntry>>, payloads: seq<Reply<seq<byte>>>, i: nat)
    requires i <= |flags| == |owners| == |payloads| == PartCount(size)
    requires |content| == size && Complete(flags)
    ensures Fill(size, flags, content, owners, payloads, i) == Progress(flags, content, true, false)
  {
    if i > 0 {
      FillUnchanged(size, flags, content, owners, payloads, i - 1);
    }
  }

  /** The owner table loop: one STAT exchange per seeder that is not ourselves. */
  method BuildOwners(seeders: seq<ClientEntry>, replies: seq<Reply<seq<int32>>>, localPort: int, n: nat)
    returns (partOwner: array<Option<ClientEntry>>, answered: bool)
    requires |replies| == |seeders| && InRange(replies, n)
    ensures fresh(partOwner) && partOwner.Length == n
    ensures answered <==> AllAnswered(seeders, replies, localPort)
    ensures answered ==> partOwner[..] == OwnerTable(seeders, replies, localPort, n, |seeders|)
  {
    partOwner := new Option<ClientEntry>[n](_ => None);
    assert partOwner[..] == OwnerTable(seeders, replies, localPort, n, 0);
    for j := 0 to |seeders|
      invariant partOwner[..] == OwnerTable(seeders, replies, localPort, n, j)
      invariant forall j' :: 0 <= j' < j && Asked(seeders[j'], localPort) ==> replies[j'].Ok?
    {
      var seeder := seeders[j];
      if seeder.port == localPort {
        continue;
      }
      if replies[j].IoError? {
        return partOwner, false;
      }
      var ids := replies[j].value;
      ghost var before := partOwner[..];
      for k := 0 to |ids|
        invariant partOwner[..] == Claim(before, seeder, ids[..k])
      {
        assert ids[..k + 1][..k] == ids[..k];
        partOwner[ids[k]] := Some(seeder);
      }
      assert ids[..|ids|] == ids;
    }
    answered := true;
  }

  /** The part loop over the flag array of the entry; an IOException leaves it where it is. */
  method FetchParts(entry: ClientFileEntry, content: seq<byte>, partOwner: array<Option<ClientEntry>>,
                    payloads: seq<Reply<seq<byte>>>)
    returns (newContent: seq<byte>, downloadCompleted: bool)
    requires entry.Valid() && |content| == entry.size
    requires partOwner.Length == |payloads| == entry.isPartPresent.Length
    modifies entry.isPartPresent
    ensures var r := Fill(entry.size, old(entry.isPartPresent[..]), content, old(partOwner[..]), payloads,
                          entry.isPartPresent.Length);
            entry.isPartPresent[..] == r.flags && newContent == r.content && downloadCompleted == r.completed
  {
    var flags := entry.isPartPresent;
    ghost var start := flags[..];
    ghost var owners := partOwner[..];
    newContent := content;
    downloadCompleted := true;
    for partId := 0 to flags.Length
      invariant partOwner[..] == owners
      invariant Fill(entry.size, start, content, owners, payloads, partId)
                == Progress(flags[..], newContent, downloadCompleted, false)
    {
      ghost var st := Fill(entry.size, start, content, owners, payloads, partId);
      if !flags[partId] {
        downloadCompleted := false;
        if partOwner[partId].None? {
          continue;
        }
        var partSize := PART_SIZE;
        if partId == flags.Length - 1 {
          partSize := JavaRem(entry.size, PART_SIZE);
          if partSize == 0 {
            partSize := PART_SIZE;
          }
        }
        var partData := payloads[partId];
        if partData.IoError? {
          assert Fill(entry.size, start, content, owners, payloads, partId + 1) == st.(completed := false, aborted := true);
          FillAborted(entry.size, start, content, owners, payloads, partId + 1);
          return;
        }
        if |partData.value| < partSize {
          continue;
        }
        PartEnd(entry.size, partId);
        newContent := Overwrite(newContent, partId * PART_SIZE, partData.value[..partSize]);
        flags[partId] := true;
      }
    }
  }

  /** After an IOException the remaining passes change nothing. */
  lemma {:induction false} FillAborted(size: int64, flags: seq<bool>, content: seq<byte>,
                                       owners: seq<Option<ClientEntry>>, payloads: seq<Reply<seq<byte>>>, i: nat)
    requires i <= |flags| == |owners| == |payloads| == PartCount(size)
    requires |content| == size
    requires Fill(size, flags, content, owners, payloads, i).aborted
    ensures Fill(size, flags, content, owners, payloads, |flags|) == Fill(size, flags, content, owners, payloads, i)
    decreases |flags| - i
  {
    if i < |flags| {
      FillAborted(size, flags, content, owners, payloads, i + 1);
    }
  }

  /**
   * One iteration of Downloader.run's loop: the tracker's seeder list, the
   * STAT answers (one per seeder) and the GET answers (one per part) are what
   * the network delivered.
   */
  method Round(entry: ClientFileEntry, content: seq<byte>, seeders: Reply<seq<ClientEntry>>,
               statReplies: seq<Reply<seq<int32>>>, payloads: seq<Reply<seq<byte>>>, localPort: int)
    returns (newContent: seq<byte>, downloadCompleted: bool)
    requires entry.Valid() && |content| == entry.size
    requires |payloads| == entry.isPartPresent.Length
    requires seeders.Ok? ==> |statReplies| == |seeders.value| && InRange(statReplies, entry.isPartPresent.Length)
    modifies entry.isPartPresent
    ensures var r := RoundResult(entry.size, old(entry.isPartPresent[..]), content, seeders, statReplies, payloads, localPort);
            entry.isPartPresent[..] == r.flags && newContent == r.content && downloadCompleted == r.completed
  {
    if seeders.IoError? {
      return content, false;
    }
    var partOwner, answered := BuildOwners(seeders.value, statReplies, localPort, entry.isPartPresent.Length);
    if !answered {
      return content, false;
    }
    newContent, downloadCompleted := FetchParts(entry, content, partOwner, payloads);
  }

  /** The network's answers for one round. */
  datatype RoundInput = RoundInput(seeders: Reply<seq<ClientEntry>>, statReplies: seq<Reply<seq<int32>>>,
                                   payloads: seq<Reply<seq<byte>>>)

  predicate Fits(input: RoundInput, n: nat)
  {
    && |input.payloads| == n
    && (input.seeders.Ok? ==> |input.statReplies| == |input.seeders.value| && InRange(input.statReplies, n))
  }

  /**
   * Downloader.run over the rounds the network allows: the file is first cut
   * or padded to the entry's size (setLength), then rounds go on until one
   * completes, and then the file leaves downloadingFiles. When the rounds run
   * out first, the file stays there. A negative size makes setLength throw,
   * and the worker ends before any round.
   */
  method Run(client: TorrentClient, entry: ClientFileEntry, content: seq<byte>,
             rounds: seq<RoundInput>, localPort: int)
    returns (newContent: seq<byte>, downloadCompleted: bool)
    requires client.Valid() && entry.Valid()
    requires forall k :: 0 <= k < |rounds| ==> Fits(rounds[k], entry.isPartPresent.Length)
    modifies client, entry.isPartPresent
    ensures client.Valid()
    ensures entry.size < 0 ==> newContent == content && !downloadCompleted && unchanged(entry.isPartPresent)
    ensures entry.size >= 0 ==>
              var w := Worker(entry.size, old(entry.isPartPresent[..]), SetLength(content, entry.size), rounds, localPort);
              entry.isPartPresent[..] == w.flags && newContent == w.content && downloadCompleted == w.completed
    ensures downloadCompleted ==> Complete(entry.isPartPresent[..])
    ensures forall p :: 0 <= p < entry.isPartPresent.Length && old(entry.isPartPresent[p]) ==> entry.isPartPresent[p]
    ensures client.seedingFiles == old(client.seedingFiles)
    ensures client.downloadingFiles
            == if downloadCompleted then old(client.downloadingFiles) - {entry.id} else old(client.downloadingFiles)
  {
    if entry.size < 0 {
      return content, false;
    }
    newContent := SetLength(content, entry.size);
    downloadCompleted := false;
    ghost var start := entry.isPartPresent[..];
    ghost var total := Worker(entry.size, start, newContent, rounds, localPort);
    var k := 0;
    while !downloadCompleted && k < |rounds|
      invariant 0 <= k <= |rounds| && |newContent| == entry.size
      invariant total == if downloadCompleted then Progress(entry.isPartPresent[..], newContent, true, false)
                         else Worker(entry.size, entry.isPartPresent[..], newContent, rounds[k..], localPort)
      invariant client.seedingFiles == old(client.seedingFiles)
      invariant client.downloadingFiles == old(client.downloadingFiles)
      decreases |rounds| - k
    {
      var input := rounds[k];
      ghost var before := entry.isPartPresent[..];
      RoundCompleted(entry.size, before, newContent, input.seeders, input.statReplies, input.payloads, localPort);
      assert rounds[k..][0] == input && rounds[k..][1..] == rounds[k + 1..];
      newContent, downloadCompleted := Round(entry, newContent, input.seeders, input.statReplies, input.payloads, localPort);
      k := k + 1;
    }
    WorkerMonotone(entry.size, start, SetLength(content, entry.size), rounds, localPort);
    if downloadCompleted {
      client.downloadingFiles := client.downloadingFiles - {entry.id};
    }
  }

  /** RandomAccessFile.setLength: cut the file, or pad it (with zeros here) up to n bytes. */
  function SetLength(content: seq<byte>, n: nat): (r: seq<byte>)
    ensures |r| == n
    ensures forall k :: 0 <= k < n && k < |content| ==> r[k] == content[k]
  {
    if n <= |content| then content[..n] else content + seq(n - |content|, _ => 0)
  }

  /** The worker's rounds, one after another, until one completes or the rounds run out. */
  function Worker(size: int64, flags: seq<bool>, content: seq<byte>, rounds: seq<RoundInput>, localPort: int)
    : (r: Progress)
    requires |flags| == PartCount(size) && |content| == size
    requires forall k :: 0 <= k < |rounds| ==> Fits(rounds[k], |flags|)
    ensures |r.flags| == |flags| && |r.content| == |content|
    decreases |rounds|
  {
    if rounds == [] then Progress(flags, content, false, false)
    else
      var input := rounds[0];
      assert Fits(input, |flags|);
      var r := RoundResult(size, flags, content, input.seeders, input.statReplies, input.payloads, localPort);
      if r.completed then r else Worker(size, r.flags, r.content, rounds[1..], localPort)
  }

  /** A round only sets flags, and the file keeps its length. */
  lemma RoundMonotone(size: int64, flags: seq<bool>, content: seq<byte>, seeders: Reply<seq<ClientEntry>>,
                      statReplies: seq<Reply<seq<int32>>>, payloads: seq<Reply<seq<byte>>>, localPort: int)
    requires |flags| == |payloads| == PartCount(size) && |content| == size
    requires seeders.Ok? ==> |statReplies| == |seeders.value| && InRange(statReplies, |flags|)
    ensures var r := RoundResult(size, flags, content, seeders, statReplies, payloads, localPort);
            |r.flags| == |flags| && |r.content| == |content| && forall p :: 0 <= p < |flags| && flags[p] ==> r.flags[p]
  {
    if seeders.Ok? && AllAnswered(seeders.value, statReplies, localPort) {
      var owners := OwnerTable(seeders.value, statReplies, localPort, |flags|, |seeders.value|);
      FillFlags(size, flags, content, owners, payloads, |flags|);
    }
  }

  /**
   * Every byte a round changes lies in a part that was missing and that the
   * round flagged.
   */
  lemma RoundFrame(size: int64, flags: seq<bool>, content: seq<byte>, seeders: Reply<seq<ClientEntry>>,
                   statReplies: seq<Reply<seq<int32>>>, payloads: seq<Reply<seq<byte>>>, localPort: int)
    requires |flags| == |payloads| == PartCount(size) && |content| == size
    requires seeders.Ok? ==> |statReplies| == |seeders.value| && InRange(statReplies, |flags|)
    ensures var r := RoundResult(size, flags, content, seeders, statReplies, payloads, localPort);
            forall k :: 0 <= k < |content| && r.content[k] != content[k] ==>
              k / PART_SIZE < |flags| && !flags[k / PART_SIZE] && r.flags[k / PART_SIZE]
  {
    if seeders.Ok? && AllAnswered(seeders.value, statReplies, localPort) {
      var owners := OwnerTable(seeders.value, statReplies, localPort, |flags|, |seeders.value|);
      FillFrame(size, flags, content, owners, payloads, |flags|);
    }
  }

  /**
   * A part a round flags was answered by GET with at least partSize bytes,
   * and the file holds the first partSize of them over the part's range.
   */
  lemma RoundWritten(size: int64, flags: seq<bool>, content: seq<byte>, seeders: Reply<seq<ClientEntry>>,
                     statReplies: seq<Reply<seq<int32>>>, payloads: seq<Reply<seq<byte>>>, localPort: int, p: nat)
    requires |flags| == |payloads| == PartCount(size) && |content| == size
    requires seeders.Ok? ==> |statReplies| == |seeders.value| && InRange(statReplies, |flags|)
    requires p < |flags| && !flags[p] && RoundResult(size, flags, content, seeders, statReplies, payloads, localPort).flags[p]
    ensures payloads[p].Ok? && |payloads[p].value| >= ExpectedPartSize(size, p, |flags|)
    ensures p * PART_SIZE + ExpectedPartSize(size, p, |flags|) <= |content|
    ensures forall k :: 0 <= k < ExpectedPartSize(size, p, |flags|) ==>
              RoundResult(size, flags, content, seeders, statReplies, payloads, localPort).content[p * PART_SIZE + k]
              == payloads[p].value[k]
  {
    var owners := OwnerTable(seeders.value, statReplies, localPort, |flags|, |seeders.value|);
    FillWritten(size, flags, content, owners, payloads, |flags|, p);
  }

  /** The worker only sets flags, and it stops with every part present once it has completed. */
  lemma {:induction false} WorkerMonotone(size: int64, flags: seq<bool>, content: seq<byte>,
                                          rounds: seq<RoundInput>, localPort: int)
    requires |flags| == PartCount(size) && |content| == size
    requires forall k :: 0 <= k < |rounds| ==> Fits(rounds[k], |flags|)
    ensures var w := Worker(size, flags, content, rounds, localPort);
            (forall p :: 0 <= p < |flags| && flags[p] ==> w.flags[p])
            && (w.completed ==> Complete(w.flags))
    decreases |rounds|
  {
    if rounds != [] {
      var input := rounds[0];
      var r := RoundResult(size, flags, content, input.seeders, input.statReplies, input.payloads, localPort);
      RoundMonotone(size, flags, content, input.seeders, input.statReplies, input.payloads, localPort);
      RoundCompleted(size, flags, content, input.seeders, input.statReplies, input.payloads, localPort);
      if !r.completed {
        WorkerMonotone(size, r.flags, r.content, rounds[1..], localPort);
      }
    }
  }

  /**
   * Every byte the worker changes lies in a part that was missing when it
   * started and is present when it stops; the bytes of the parts already
   * present are never touched.
   */
  lemma {:induction false} WorkerFrame(size: int64, flags: seq<bool>, content: seq<byte>,
                                       rounds: seq<RoundInput>, localPort: int)
    requires |flags| == PartCount(size) && |content| == size
    requires forall k :: 0 <= k < |rounds| ==> Fits(rounds[k], |flags|)
    ensures var w := Worker(size, flags, content, rounds, localPort);
            forall k :: 0 <= k < |content| && w.content[k] != content[k] ==>
              k / PART_SIZE < |flags| && !flags[k / PART_SIZE] && w.flags[k / PART_SIZE]
    decreases |rounds|
  {
    if rounds != [] {
      var input := rounds[0];
      var r := RoundResult(size, flags, content, input.seeders, input.statReplies, input.payloads, localPort);
      RoundFrame(size, flags, content, input.seeders, input.statReplies, input.payloads, localPort);
      RoundMonotone(size, flags, content, input.seeders, input.statReplies, input.payloads, localPort);
      if !r.completed {
        WorkerFrame(size, r.flags, r.content, rounds[1..], localPort);
        WorkerMonotone(size, r.flags, r.content, rounds[1..], localPort);
      }
    }
  }

  /**
   * A part the worker fetched holds, over its whole range, the first partSize
   * bytes of the GET answer of the round that flagged it.
   */
  lemma {:induction false} WorkerWritten(size: int64, flags: seq<bool>, content: seq<byte>,
                                         rounds: seq<RoundInput>, localPort: int, p: nat)
    requires |flags| == PartCount(size) && |content| == size
    requires forall k :: 0 <= k < |rounds| ==> Fits(rounds[k], |flags|)
    requires p < |flags| && !flags[p] && Worker(size, flags, content, rounds, localPort).flags[p]
    ensures p * PART_SIZE + ExpectedPartSize(size, p, |flags|) <= |content|
    ensures exists j :: 0 <= j < |rounds| && rounds[j].payloads[p].Ok?
              && |rounds[j].payloads[p].value| >= ExpectedPartSize(size, p, |flags|)
              && forall k :: 0 <= k < ExpectedPartSize(size, p, |flags|) ==>
                   Worker(size, flags, content, rounds, localPort).content[p * PART_SIZE + k] == rounds[j].payloads[p].value[k]
    decreases |rounds|
  {
    assert rounds != [];
    var input := rounds[0];
    var r := RoundResult(size, flags, content, input.seeders, input.statReplies, input.payloads, localPort);
    var w := Worker(size, flags, content, rounds, localPort);
    if r.flags[p] {
      RoundWritten(size, flags, content, input.seeders, input.statReplies, input.payloads, localPort, p);
      if !r.completed {
        WorkerFrame(size, r.flags, r.content, rounds[1..], localPort);
        ExpectedBounds(size, p, |flags|);
        forall k | 0 <= k < ExpectedPartSize(size, p, |flags|)
          ensures w.content[p * PART_SIZE + k] == input.payloads[p].value[k]
        {
          assert (p * PART_SIZE + k) / PART_SIZE == p;
        }
      }
      assert rounds[0] == input;
    } else {
      assert !r.completed by {
        RoundCompleted(size, flags, content, input.seeders, input.statReplies, input.payloads, localPort);
      }
      WorkerWritten(size, r.flags, r.content, rounds[1..], localPort, p);
      var j :| 0 <= j < |rounds[1..]| && rounds[1..][j].payloads[p].Ok?
               && |rounds[1..][j].payloads[p].value| >= ExpectedPartSize(size, p, |flags|)
               && forall k :: 0 <= k < ExpectedPartSize(size, p, |flags|) ==>
                    w.content[p * PART_SIZE + k] == rounds[1..][j].payloads[p].value[k];
      assert rounds[1..][j] == rounds[j + 1];
    }
  }
}
