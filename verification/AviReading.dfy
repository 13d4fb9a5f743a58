/** Reading the entries of an AVI index in buffers of any size (src/demuxers/demux_avi.c:1024-1138; the routines for
    audio and video differ only in the names of their fields). */
module AviReading {
  import opened Bytes
  import opened AviIndex
  import opened Wrappers

  /** What reading needs of an index entry. */
  datatype Entry = Entry(pos: int, len: int)

  function VideoEntries(video: seq<VideoEntry>): (r: seq<Entry>)
    ensures |r| == |video| && forall i :: 0 <= i < |r| ==> r[i] == Entry(video[i].pos, video[i].len)
  {
    seq(|video|, i requires 0 <= i < |video| => Entry(video[i].pos, video[i].len))
  }

  function AudioEntries(chunks: seq<AudioEntry>): (r: seq<Entry>)
    ensures |r| == |chunks| && forall i :: 0 <= i < |r| ==> r[i] == Entry(chunks[i].pos, chunks[i].len)
  {
    seq(|chunks|, i requires 0 <= i < |chunks| => Entry(chunks[i].pos, chunks[i].len))
  }

  /** The next byte to be read: entry and byte within it. */
  datatype Place = Place(entry: nat, byte: nat)

  /** The result of one call: the bytes and whether they end a frame, or the source's -1. */
  datatype Reply = Got(bytes: seq<byte>, frameEnd: bool) | Failed

  /** The input seeks to a byte of the entry and reads `todo` bytes there: neither may be negative, and the file must
      have that many. */
  predicate CanRead(data: seq<byte>, e: Entry, byte: nat, todo: int) {
    0 <= e.pos + byte && 0 <= todo && (todo == 0 || e.pos + byte + todo <= |data|)
  }

  /** The bytes of an entry from `i` to `j`. */
  function Slice(data: seq<byte>, e: Entry, i: nat, j: nat): (r: seq<byte>)
    requires i <= j && CanRead(data, e, i, j - i)
    ensures |r| == j - i
  {
    if i == j then [] else data[e.pos + i..e.pos + j]
  }

  /** The whole of the entry can be read, or there is nothing to read. */
  predicate Whole(data: seq<byte>, e: Entry) {
    e.len == 0 || CanRead(data, e, 0, e.len)
  }

  predicate AllWhole(data: seq<byte>, entries: seq<Entry>, k: nat)
    requires k <= |entries|
  {
    forall i :: 0 <= i < k ==> Whole(data, entries[i])
  }

  /** A place reading can come to: what is before it has been read. */
  ghost predicate PlaceValid(data: seq<byte>, entries: seq<Entry>, p: Place) {
    && p.entry <= |entries| && AllWhole(data, entries, p.entry)
    && (p.entry < |entries| && p.byte > 0 ==>
          p.byte <= entries[p.entry].len && CanRead(data, entries[p.entry], 0, p.byte))
  }

  function Todo(e: Entry, byte: nat, room: nat): int {
    if room < e.len - byte then room else e.len - byte
  }

  // ----- one call, as a function -----

  /** `got` bytes of the current entry were read, which ends at the place; what follows in the call. */
  function AtEntryEnd(data: seq<byte>, entries: seq<Entry>, p: Place, got: seq<byte>, room: nat): (Reply, Place)
    requires p.entry < |entries|
    decreases |entries| - p.entry, 0
  {
    var next := Place(p.entry + 1, 0);
    if p.entry + 1 == |entries| then (Failed, next)
    else if got != [] then (Got(got, true), next)
    else TakeFrom(data, entries, next, room)
  }

  /** From the point where the bytes of the current entry that are left are read, even if there are none. */
  function TakeFrom(data: seq<byte>, entries: seq<Entry>, p: Place, room: nat): (Reply, Place)
    requires p.entry < |entries|
    decreases |entries| - p.entry, 1
  {
    var e := entries[p.entry];
    var todo := Todo(e, p.byte, room);
    if !CanRead(data, e, p.byte, todo) then (Failed, p)
    else
      var p' := p.(byte := p.byte + todo);
      var bytes := Slice(data, e, p.byte, p'.byte);
      if todo == room then (Got(bytes, p'.byte == e.len), p')
      else AtEntryEnd(data, entries, p', bytes, room)
  }

  function ReadFrom(data: seq<byte>, entries: seq<Entry>, p: Place, room: nat): (Reply, Place)
    requires p.entry <= |entries|
  {
    if p.entry == |entries| then (Failed, p)
    else if p.byte == entries[p.entry].len then AtEntryEnd(data, entries, p, [], room)
    else TakeFrom(data, entries, p, room)
  }

  /** A call goes on with the next entry as it would begin there, but for one case: an empty entry at a negative
      position fails only when it is come to within a call. */
  lemma TakenAsRead(data: seq<byte>, entries: seq<Entry>, p: Place, room: nat)
    requires p.entry < |entries| && room > 0
    ensures TakeFrom(data, entries, p, room)
         == if p.byte == entries[p.entry].len && entries[p.entry].pos + p.byte < 0 then (Failed, p)
            else ReadFrom(data, entries, p, room)
  {
  }

  /** Within an entry a call reads what there is room for, and then looks whether there is a next one. */
  lemma EntryRead(data: seq<byte>, entries: seq<Entry>, p: Place, room: nat)
    requires p.entry < |entries| && p.byte != entries[p.entry].len && room > 0
    ensures var e := entries[p.entry];
            var todo := Todo(e, p.byte, room);
      ReadFrom(data, entries, p, room)
        == if !CanRead(data, e, p.byte, todo) then (Failed, p)
           else if room <= e.len - p.byte
           then (Got(Slice(data, e, p.byte, p.byte + todo), room == e.len - p.byte), p.(byte := p.byte + room))
           else if p.entry + 1 == |entries| then (Failed, Place(p.entry + 1, 0))
           else (Got(Slice(data, e, p.byte, p.byte + todo), true), Place(p.entry + 1, 0))
  {
    var e := entries[p.entry];
    var todo := Todo(e, p.byte, room);
    if CanRead(data, e, p.byte, todo) {
      assert todo > 0 && Slice(data, e, p.byte, p.byte + todo) != [];
      hide CanRead, Slice;
      assert ReadFrom(data, entries, p, room) == TakeFrom(data, entries, p, room);
      if todo < room {
        assert TakeFrom(data, entries, p, room)
            == AtEntryEnd(data, entries, p.(byte := e.len), Slice(data, e, p.byte, e.len), room);
      }
    }
  }

  /** At the end of an entry a call goes on with the next one. */
  lemma EntryPassed(data: seq<byte>, entries: seq<Entry>, p: Place, room: nat)
    requires p.entry < |entries| && p.byte == entries[p.entry].len
    ensures ReadFrom(data, entries, p, room)
         == if p.entry + 1 == |entries| then (Failed, Place(p.entry + 1, 0))
            else TakeFrom(data, entries, Place(p.entry + 1, 0), room)
  {
  }

  /** A call that succeeds does the same on every index that goes on behind: how far the index has grown matters only
      where it ends. */
  lemma {:induction false} GrowthChangesNothing(data: seq<byte>, entries: seq<Entry>, more: seq<Entry>, p: Place,
                                                room: nat)
    requires entries <= more && p.entry <= |entries| && room > 0
    ensures ReadFrom(data, entries, p, room).0.Got? ==>
      ReadFrom(data, more, p, room) == ReadFrom(data, entries, p, room)
    decreases |entries| - p.entry
  {
    hide ReadFrom, TakeFrom, CanRead, Slice, Todo;
    if p.entry == |entries| {
      PastTheEnd(data, entries, p, room);
    } else if p.byte == entries[p.entry].len {
      EntryPassed(data, entries, p, room);
      EntryPassed(data, more, p, room);
      if p.entry + 1 < |entries| {
        TakenAsRead(data, entries, Place(p.entry + 1, 0), room);
        TakenAsRead(data, more, Place(p.entry + 1, 0), room);
        GrowthChangesNothing(data, entries, more, Place(p.entry + 1, 0), room);
      }
    } else {
      EntryRead(data, entries, p, room);
      EntryRead(data, more, p, room);
    }
  }

  /** What can be read from an index while it grows is what can be read from it at any later point of the scan. */
  lemma GrowingIndexReadsAlike(ix: Indexer, j: nat, p: Place, room: nat)
    requires ix.Valid() && ix.turns <= j && p.entry <= |ix.video| && room > 0
    ensures var now, later := VideoEntries(ix.video), VideoEntries(ScanAfter(ix.data, ix.start, ix.format, j).video);
      && now <= later
      && (ReadFrom(ix.data, now, p, room).0.Got? ==>
            ReadFrom(ix.data, later, p, room) == ReadFrom(ix.data, now, p, room))
  {
    hide Turn, ReadFrom, VideoEntries;
    ScanExtends(ix.data, ix.start, ix.format, ix.turns, j);
    EntriesOfPrefix(ix.video, ScanAfter(ix.data, ix.start, ix.format, j).video);
    GrowthChangesNothing(ix.data, VideoEntries(ix.video),
                         VideoEntries(ScanAfter(ix.data, ix.start, ix.format, j).video), p, room);
  }

  /** The same of the chunks of one of its audio streams. */
  lemma GrowingTrackReadsAlike(ix: Indexer, i: nat, j: nat, p: Place, room: nat)
    requires ix.Valid() && ix.turns <= j && i < |ix.audio| && p.entry <= |ix.audio[i].chunks| && room > 0
    ensures i < |ScanAfter(ix.data, ix.start, ix.format, j).audio|
    ensures var now := AudioEntries(ix.audio[i].chunks);
            var later := AudioEntries(ScanAfter(ix.data, ix.start, ix.format, j).audio[i].chunks);
      && now <= later
      && (ReadFrom(ix.data, now, p, room).0.Got? ==>
            ReadFrom(ix.data, later, p, room) == ReadFrom(ix.data, now, p, room))
  {
    hide Turn, ReadFrom, AudioEntries;
    ScanExtends(ix.data, ix.start, ix.format, ix.turns, j);
    var more := ScanAfter(ix.data, ix.start, ix.format, j).audio[i].chunks;
    ChunksOfPrefix(ix.audio[i].chunks, more);
    GrowthChangesNothing(ix.data, AudioEntries(ix.audio[i].chunks), AudioEntries(more), p, room);
  }

  lemma EntriesOfPrefix(video: seq<VideoEntry>, more: seq<VideoEntry>)
    requires video <= more
    ensures VideoEntries(video) <= VideoEntries(more)
  {
    forall i | 0 <= i < |video|
      ensures video[i] == more[i]
    {
    }
  }

  lemma ChunksOfPrefix(chunks: seq<AudioEntry>, more: seq<AudioEntry>)
    requires chunks <= more
    ensures AudioEntries(chunks) <= AudioEntries(more)
  {
    forall i | 0 <= i < |chunks|
      ensures chunks[i] == more[i]
    {
    }
  }

  // ----- runs of calls -----

  /** The frames among the first `k` entries: those with any bytes. */
  function Frames(data: seq<byte>, entries: seq<Entry>, k: nat): seq<seq<byte>>
    requires k <= |entries| && AllWhole(data, entries, k)
  {
    if k == 0 then []
    else if entries[k - 1].len == 0 then Frames(data, entries, k - 1)
    else Frames(data, entries, k - 1) + [Slice(data, entries[k - 1], 0, entries[k - 1].len)]
  }

  /** What a receiver has put together: complete frames, and the bytes since the last end of frame. */
  datatype Received = Received(frames: seq<seq<byte>>, partial: seq<byte>)

  function Taken(r: Received, reply: Reply): Received {
    match reply
    case Failed => r
    case Got(bytes, frameEnd) =>
      if frameEnd then Received(r.frames + [r.partial + bytes], []) else Received(r.frames, r.partial + bytes)
  }

  /** The entries that are complete at a place. */
  function Finished(entries: seq<Entry>, p: Place): nat
    requires p.entry <= |entries|
  {
    if p.entry < |entries| && p.byte == entries[p.entry].len then p.entry + 1 else p.entry
  }

  /** What has been received at a place: exactly the frames of the finished entries, and the beginning of the
      current one. */
  ghost predicate Faithful(data: seq<byte>, entries: seq<Entry>, p: Place, r: Received)
    requires PlaceValid(data, entries, p)
  {
    && r.frames == Frames(data, entries, Finished(entries, p))
    && r.partial == if p.entry < |entries| && 0 < p.byte < entries[p.entry].len
                    then Slice(data, entries[p.entry], 0, p.byte) else []
  }

  /** The input cannot read what the call wants at the place. */
  predicate Blocked(data: seq<byte>, entries: seq<Entry>, p: Place, room: nat) {
    p.entry < |entries| && !CanRead(data, entries[p.entry], p.byte, Todo(entries[p.entry], p.byte, room))
  }

  /** A call that fails does so at the end of the index, where it loses no more than what it had read of the last entry,
      or where the input fails, and then nothing is lost. */
  ghost predicate FailsSoundly(data: seq<byte>, entries: seq<Entry>, p: Place, room: nat, r: Received)
    requires PlaceValid(data, entries, p)
  {
    if p.entry == |entries|
    then AllFrames(data, entries, r) || AllButTheLast(data, entries, r)
    else Blocked(data, entries, p, room) && Faithful(data, entries, p, r)
  }

  ghost predicate AllFrames(data: seq<byte>, entries: seq<Entry>, r: Received)
    requires AllWhole(data, entries, |entries|)
  {
    r.frames == Frames(data, entries, |entries|) && r.partial == []
  }

  ghost predicate AllButTheLast(data: seq<byte>, entries: seq<Entry>, r: Received)
    requires AllWhole(data, entries, |entries|)
  {
    && |entries| > 0 && entries[|entries| - 1].len > 0
    && r.frames == Frames(data, entries, |entries| - 1)
    && r.partial <= Slice(data, entries[|entries| - 1], 0, entries[|entries| - 1].len)
  }

  /** A call that succeeds keeps the receiver faithful, and gives at least one byte of one single entry; one that fails,
      fails soundly. */
  lemma {:induction false} ReadKeepsFaithful(data: seq<byte>, entries: seq<Entry>, p: Place, room: nat, r: Received)
    requires PlaceValid(data, entries, p) && room > 0 && Faithful(data, entries, p, r)
    ensures var (reply, p') := ReadFrom(data, entries, p, room);
      && PlaceValid(data, entries, p')
      && (reply.Got? ==> 0 < |reply.bytes| <= room && Faithful(data, entries, p', Taken(r, reply))
                         && exists e, i :: OfOneEntry(data, entries, e, i, reply.bytes))
      && (reply.Failed? ==> FailsSoundly(data, entries, p', room, r))
    decreases |entries| - p.entry
  {
    InIndex(data, entries, p);
    hide ReadFrom, TakeFrom, Faithful, OfOneEntry, FailsSoundly, PlaceValid;
    if p.entry == |entries| {
      PastTheEnd(data, entries, p, room);
      FailsAtTheEnd(data, entries, p, room, r);
    } else if p.byte == entries[p.entry].len {
      EntryPassed(data, entries, p, room);
      NextIsFaithful(data, entries, p, r);
      var next := Place(p.entry + 1, 0);
      if next.entry < |entries| {
        TakenAsRead(data, entries, next, room);
        ReadKeepsFaithful(data, entries, next, room, r);
        FailsWhereBlocked(data, entries, next, room, r);
      } else {
        FailsAtTheEnd(data, entries, next, room, r);
      }
    } else {
      ReadsWithin(data, entries, p, room, r);
    }
  }

  lemma ReadsWithin(data: seq<byte>, entries: seq<Entry>, p: Place, room: nat, r: Received)
    requires PlaceValid(data, entries, p) && room > 0 && Faithful(data, entries, p, r)
    requires p.entry < |entries| && p.byte != entries[p.entry].len
    ensures var (reply, p') := ReadFrom(data, entries, p, room);
      && PlaceValid(data, entries, p')
      && (reply.Got? ==> 0 < |reply.bytes| <= room && Faithful(data, entries, p', Taken(r, reply))
                         && exists e, i :: OfOneEntry(data, entries, e, i, reply.bytes))
      && (reply.Failed? ==> FailsSoundly(data, entries, p', room, r))
  {
    hide ReadFrom, TakeFrom, Faithful, OfOneEntry, FailsSoundly, PlaceValid, Taken, CanRead, Slice;
    EntryRead(data, entries, p, room);
    var e := entries[p.entry];
    var todo := Todo(e, p.byte, room);
    ReadFails(data, e, p.byte, todo);
    if !CanRead(data, e, p.byte, todo) {
      FailsWhereBlocked(data, entries, p, room, r);
    } else {
      var after := TakenIsFaithful(data, entries, p, todo, r);
      if todo < room {
        NextIsFaithful(data, entries, Place(p.entry, p.byte + todo), after);
        if p.entry + 1 == |entries| {
          WholeThen(data, e, p.byte + todo, entries, p.entry);
          LastIsLost(data, entries, p, room, r);
        }
      }
    }
  }

  lemma WholeThen(data: seq<byte>, e: Entry, byte: nat, entries: seq<Entry>, k: nat)
    requires k < |entries| && e == entries[k] && byte == e.len && PlaceValid(data, entries, Place(k, byte))
    ensures Whole(data, e)
  {
  }

  /** Some bytes of the current entry, marked as the end of a frame if they are the last ones. */
  lemma TakenIsFaithful(data: seq<byte>, entries: seq<Entry>, p: Place, todo: nat, r: Received)
    returns (after: Received)
    requires PlaceValid(data, entries, p) && Faithful(data, entries, p, r)
    requires p.entry < |entries| && todo > 0 && p.byte + todo <= entries[p.entry].len
    requires CanRead(data, entries[p.entry], p.byte, todo)
    ensures var e, p' := entries[p.entry], p.(byte := p.byte + todo);
            var bytes := Slice(data, e, p.byte, p'.byte);
      && PlaceValid(data, entries, p')
      && |bytes| == todo && after == Taken(r, Got(bytes, p'.byte == e.len)) && Faithful(data, entries, p', after)
      && OfOneEntry(data, entries, p.entry, p.byte, bytes)
  {
    hide Slice, CanRead, Whole, Frames, AllWhole, OfOneEntry, PlaceValid;
    PlaceMoves(data, entries, p, todo);
    var e := entries[p.entry];
    SlicesJoin(data, e, p.byte, todo);
    PartOfOne(data, entries, p, todo);
    after := Taken(r, Got(Slice(data, e, p.byte, p.byte + todo), p.byte + todo == e.len));
    if p.byte + todo == e.len {
      OneMoreWhole(data, entries, p.entry);
    }
  }

  lemma PartOfOne(data: seq<byte>, entries: seq<Entry>, p: Place, todo: nat)
    requires p.entry < |entries| && p.byte + todo <= entries[p.entry].len
    requires CanRead(data, entries[p.entry], p.byte, todo)
    ensures OfOneEntry(data, entries, p.entry, p.byte, Slice(data, entries[p.entry], p.byte, p.byte + todo))
  {
    hide Slice, CanRead;
  }

  lemma PlaceMoves(data: seq<byte>, entries: seq<Entry>, p: Place, todo: nat)
    requires PlaceValid(data, entries, p) && p.entry < |entries| && todo > 0
    requires p.byte + todo <= entries[p.entry].len && CanRead(data, entries[p.entry], p.byte, todo)
    ensures PlaceValid(data, entries, p.(byte := p.byte + todo))
    ensures AllWhole(data, entries, p.entry) && (p.byte > 0 ==> CanRead(data, entries[p.entry], 0, p.byte))
  {
    hide AllWhole;
  }

  lemma OneMoreWhole(data: seq<byte>, entries: seq<Entry>, k: nat)
    requires k < |entries| && AllWhole(data, entries, k) && Whole(data, entries[k]) && entries[k].len > 0
    ensures AllWhole(data, entries, k + 1)
    ensures Frames(data, entries, k + 1) == Frames(data, entries, k) + [Slice(data, entries[k], 0, entries[k].len)]
  {
    hide Slice, CanRead;
  }

  lemma SlicesJoin(data: seq<byte>, e: Entry, byte: nat, todo: nat)
    requires CanRead(data, e, byte, todo) && todo > 0 && (byte > 0 ==> CanRead(data, e, 0, byte))
    ensures byte + todo == e.len ==> Whole(data, e)
    ensures 0 <= e.pos && CanRead(data, e, 0, byte + todo) && CanRead(data, e, 0, byte)
    ensures Slice(data, e, 0, byte) + Slice(data, e, byte, byte + todo) == Slice(data, e, 0, byte + todo)
    ensures Slice(data, e, 0, 0) == []
  {
  }

  ghost predicate OfOneEntry(data: seq<byte>, entries: seq<Entry>, e: nat, i: nat, bytes: seq<byte>) {
    && e < |entries| && i + |bytes| <= entries[e].len && CanRead(data, entries[e], i, |bytes|)
    && bytes == Slice(data, entries[e], i, i + |bytes|)
  }

  lemma NextIsFaithful(data: seq<byte>, entries: seq<Entry>, p: Place, r: Received)
    requires PlaceValid(data, entries, p) && Faithful(data, entries, p, r)
    requires p.entry < |entries| && p.byte == entries[p.entry].len
    ensures PlaceValid(data, entries, Place(p.entry + 1, 0)) && Faithful(data, entries, Place(p.entry + 1, 0), r)
  {
  }

  lemma FailsAtTheEnd(data: seq<byte>, entries: seq<Entry>, p: Place, room: nat, r: Received)
    requires PlaceValid(data, entries, p) && Faithful(data, entries, p, r) && p.entry == |entries|
    ensures FailsSoundly(data, entries, p, room, r)
  {
  }

  lemma FailsWhereBlocked(data: seq<byte>, entries: seq<Entry>, p: Place, room: nat, r: Received)
    requires PlaceValid(data, entries, p) && Faithful(data, entries, p, r) && p.entry < |entries|
    ensures Blocked(data, entries, p, room) ==> FailsSoundly(data, entries, p, room, r)
  {
  }

  lemma LastIsLost(data: seq<byte>, entries: seq<Entry>, p: Place, room: nat, r: Received)
    requires PlaceValid(data, entries, p) && Faithful(data, entries, p, r)
    requires p.entry + 1 == |entries| && p.byte < entries[p.entry].len && Whole(data, entries[p.entry])
    ensures PlaceValid(data, entries, Place(p.entry + 1, 0))
    ensures FailsSoundly(data, entries, Place(p.entry + 1, 0), room, r)
  {
    assert AllWhole(data, entries, |entries|);
    assert AllButTheLast(data, entries, r);
  }

  /** A run of calls with any sizes, up to the first that fails. */
  datatype Run = Run(place: Place, received: Received, failed: Option<nat>)

  function RunOf(data: seq<byte>, entries: seq<Entry>, rooms: seq<nat>, n: nat): (run: Run)
    requires n <= |rooms|
    ensures run.place.entry <= |entries|
  {
    if n == 0 then Run(Place(0, 0), Received([], []), None)
    else
      var before := RunOf(data, entries, rooms, n - 1);
      if before.failed.Some? then before
      else
        StaysInIndex(data, entries, before.place, rooms[n - 1]);
        var (reply, place) := ReadFrom(data, entries, before.place, rooms[n - 1]);
        Run(place, Taken(before.received, reply), if reply.Failed? then Some(rooms[n - 1]) else None)
  }

  lemma {:induction false} StaysInIndex(data: seq<byte>, entries: seq<Entry>, p: Place, room: nat)
    requires p.entry <= |entries|
    ensures ReadFrom(data, entries, p, room).1.entry <= |entries|
    ensures p.entry < |entries| ==> TakeFrom(data, entries, p, room).1.entry <= |entries|
    decreases |entries| - p.entry
  {
    hide CanRead, Slice, Todo;
    if p.entry + 1 < |entries| {
      StaysInIndex(data, entries, Place(p.entry + 1, 0), room);
    }
    if p.entry < |entries| {
      assert AtEntryEnd(data, entries, p, [], room).1.entry <= |entries|;
      assert TakeFrom(data, entries, p, room).1.entry <= |entries|;
    }
  }

  /** Where a run has come to: as long as no call failed, the receiver has exactly the frames so far; and when one has
      failed, it has all frames of the index or all but that of the last entry, or exactly the frames before the place
      that the input could not read. */
  ghost predicate Sound(data: seq<byte>, entries: seq<Entry>, run: Run) {
    && PlaceValid(data, entries, run.place)
    && match run.failed
       case None => Faithful(data, entries, run.place, run.received)
       case Some(room) => FailsSoundly(data, entries, run.place, room, run.received)
  }

  lemma {:induction false} EveryRunIsSound(data: seq<byte>, entries: seq<Entry>, rooms: seq<nat>, n: nat)
    requires n <= |rooms| && forall k :: 0 <= k < |rooms| ==> rooms[k] > 0
    ensures Sound(data, entries, RunOf(data, entries, rooms, n))
  {
    if n == 0 {
      assert Frames(data, entries, 0) == [];
    } else {
      EveryRunIsSound(data, entries, rooms, n - 1);
      var before := RunOf(data, entries, rooms, n - 1);
      if before.failed.None? {
        hide *;
        SoundStep(data, entries, rooms, n);
      } else {
        hide Sound;
      }
    }
  }

  lemma SoundStep(data: seq<byte>, entries: seq<Entry>, rooms: seq<nat>, n: nat)
    requires 0 < n <= |rooms| && rooms[n - 1] > 0
    requires var before := RunOf(data, entries, rooms, n - 1);
      before.failed.None? && Sound(data, entries, before)
    ensures Sound(data, entries, RunOf(data, entries, rooms, n))
  {
    hide ReadFrom, Faithful, FailsSoundly, PlaceValid, OfOneEntry;
    var before := RunOf(data, entries, rooms, n - 1);
    ReadKeepsFaithful(data, entries, before.place, rooms[n - 1], before.received);
    var after := RunOf(data, entries, rooms, n);
    assert after.place == ReadFrom(data, entries, before.place, rooms[n - 1]).1;
  }

  /** The last frame reaches its end exactly when the file holds it and the last buffer for it ends with it: the
      caller's one byte more is one too many. */
  lemma LastFrameLost(data: seq<byte>, entries: seq<Entry>, p: Place, room: nat)
    requires room > 0 && p.entry + 1 == |entries| && p.byte < entries[p.entry].len
    ensures var e := entries[p.entry];
      ReadFrom(data, entries, p, room).0.Failed? <==>
        (room > e.len - p.byte || !CanRead(data, e, p.byte, room))
  {
    EntryRead(data, entries, p, room);
    hide CanRead, Slice, ReadFrom, TakeFrom;
  }

  /** A frame of one byte that is lost to a buffer of two, and read into a buffer of one. */
  lemma ByteLost()
    ensures ReadFrom([7], [Entry(0, 1)], Place(0, 0), 2) == (Failed, Place(1, 0))
    ensures ReadFrom([7], [Entry(0, 1)], Place(0, 0), 1) == (Got([7], true), Place(0, 1))
  {
    assert Slice([7], Entry(0, 1), 0, 1) == [7];
  }

  // ----- the code -----

  /** The input and the position fields of a stream, with the entries its index has. */
  class Reader {
    const data: seq<byte>
    const entries: seq<Entry>
    var posc: nat
    var posb: nat

    constructor (data: seq<byte>, entries: seq<Entry>)
      ensures Valid() && Here() == Place(0, 0) && this.data == data && this.entries == entries
    {
      this.data := data;
      this.entries := entries;
      posc, posb := 0, 0;
    }

    ghost predicate Valid()
      reads this
    {
      PlaceValid(data, entries, Here())
    }

    function Here(): Place
      reads this
    {
      Place(posc, posb)
    }

    /** `AVI_read_audio` and `AVI_read_video`: up to `bytes` bytes into the buffer, or -1. */
    method Read(buf: array<byte>, bytes: nat) returns (nr: int, frameEnd: bool)
      requires Valid() && 0 < bytes <= buf.Length
      modifies this, buf
      ensures Valid() && -1 <= nr <= bytes
      ensures var (reply, place) := ReadFrom(data, entries, old(Here()), bytes);
        && Here() == place
        && if nr < 0 then reply.Failed? else reply == Got(buf[..nr], frameEnd)
    {
      hide ReadFrom, TakeFrom, AtEntryEnd, Slice, CanRead, PlaceValid;
      ghost var start := Here();
      InIndex(data, entries, start);
      StaysValid(data, entries, start, bytes);
      frameEnd := false;
      if posc == |entries| {
        PastTheEnd(data, entries, start, bytes);
        return -1, false;
      }
      var left: nat := bytes;
      nr := 0;
      ghost var from := start;
      while left > 0
        invariant posc < |entries| && nr + left == bytes && 0 <= nr
        invariant nr == 0 ==> ReadFrom(data, entries, start, bytes) == ReadFrom(data, entries, Here(), bytes)
        invariant nr > 0 ==> Partly(start, from, bytes, nr) && buf[..nr] == Slice(data, entries[posc], from.byte, posb)
        invariant nr > 0 && left > 0 ==> posb == entries[posc].len
        decreases left, |entries| - posc
      {
        if posb == entries[posc].len {
          if nr == 0 {
            EntryPassed(data, entries, Here(), bytes);
          } else {
            EntryRead(data, entries, from, bytes);
          }
          posc := posc + 1;
          posb := 0;
          if posc == |entries| {
            return -1, false;
          }
          if nr > 0 {
            return nr, true;
          }
        }
        TakenIfReadable(data, entries, Here(), bytes);
        var e := entries[posc];
        var todo := Todo(e, posb, left);
        ReadFails(data, e, posb, todo);
        if !CanRead(data, e, posb, todo) {
          return -1, false;
        }
        from := Here();
        forall i | 0 <= i < todo {
          buf[nr + i] := data[e.pos + posb + i];
        }
        left := left - todo;
        nr := nr + todo;
        posb := posb + todo;
        CopiedSlice(data, e, from.byte, posb, buf[..nr]);
      }
      EntryRead(data, entries, from, bytes);
      frameEnd := posb == entries[posc].len;
    }

    /** `nr` bytes were read from `from` on, where the call is as good as at its start. */
    ghost predicate Partly(start: Place, from: Place, bytes: nat, nr: nat)
      requires start.entry <= |entries|
      reads this
    {
      && from.entry == posc < |entries| && from.byte + nr == posb && from.byte != entries[posc].len
      && CanRead(data, entries[posc], from.byte, nr) && posb <= entries[posc].len
      && ReadFrom(data, entries, start, bytes) == ReadFrom(data, entries, from, bytes)
    }
  }

  lemma StaysValid(data: seq<byte>, entries: seq<Entry>, p: Place, room: nat)
    requires PlaceValid(data, entries, p) && room > 0
    ensures PlaceValid(data, entries, ReadFrom(data, entries, p, room).1)
  {
    hide *;
    var r := FaithfulAt(data, entries, p);
    ReadKeepsFaithful(data, entries, p, room, r);
  }

  lemma FaithfulAt(data: seq<byte>, entries: seq<Entry>, p: Place) returns (r: Received)
    requires PlaceValid(data, entries, p)
    ensures Faithful(data, entries, p, r)
  {
    r := Received(Frames(data, entries, Finished(entries, p)),
                  if p.entry < |entries| && 0 < p.byte < entries[p.entry].len
                  then Slice(data, entries[p.entry], 0, p.byte) else []);
  }

  lemma ReadFails(data: seq<byte>, e: Entry, byte: nat, todo: int)
    ensures CanRead(data, e, byte, todo) ==>
      0 <= todo && 0 <= e.pos + byte && (todo > 0 ==> e.pos + byte + todo <= |data|)
  {
  }

  lemma TakenIfReadable(data: seq<byte>, entries: seq<Entry>, p: Place, room: nat)
    requires p.entry < |entries| && room > 0
    ensures var taken := TakeFrom(data, entries, p, room);
      && (p.byte != entries[p.entry].len ==> ReadFrom(data, entries, p, room) == taken)
      && (if CanRead(data, entries[p.entry], p.byte, Todo(entries[p.entry], p.byte, room))
          then taken == ReadFrom(data, entries, p, room) else taken == (Failed, p))
  {
    TakenAsRead(data, entries, p, room);
  }

  lemma CopiedSlice(data: seq<byte>, e: Entry, i: nat, j: nat, bytes: seq<byte>)
    requires i <= j && CanRead(data, e, i, j - i) && |bytes| == j - i
    requires forall k :: 0 <= k < |bytes| ==> bytes[k] == data[e.pos + i + k]
    ensures bytes == Slice(data, e, i, j)
  {
  }

  lemma InIndex(data: seq<byte>, entries: seq<Entry>, p: Place)
    requires PlaceValid(data, entries, p)
    ensures p.entry <= |entries|
  {
  }

  lemma PastTheEnd(data: seq<byte>, entries: seq<Entry>, p: Place, room: nat)
    requires p.entry == |entries|
    ensures ReadFrom(data, entries, p, room) == (Failed, p)
  {
  }
}
