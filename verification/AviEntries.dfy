/** The entries of an AVI index in terms of the file: which chunks and records are entered, in which order, and that
    what is read by an entry is the data of its chunk (src/demuxers/demux_avi.c:353-397, 407-551, 962-994). */
module AviEntries {
  import opened AviIndex
  import opened AviKeyframes
  import opened AviReading
  import opened Bytes

  // ----- tags -----

  /** A letter, given as the capital, in either case. */
  predicate Letter(b: byte, capital: byte) {
    b == capital || b == capital + 0x20
  }

  lemma LoweredLetter(b: byte)
    ensures (Lower(b) == 0x6C <==> Letter(b, 0x4C)) && (Lower(b) == 0x69 <==> Letter(b, 0x49))
    ensures (Lower(b) == 0x73 <==> Letter(b, 0x53)) && (Lower(b) == 0x74 <==> Letter(b, 0x54))
    ensures (Lower(b) == 0x72 <==> Letter(b, 0x52)) && (Lower(b) == 0x66 <==> Letter(b, 0x46))
  {
  }

  lemma TagIs(data: seq<byte>, at: nat, tag: seq<byte>)
    requires Readable(data, at) && |tag| == 4
    ensures SameTag(data, at, tag) <==>
      && Lower(data[at]) == tag[0] && Lower(data[at + 1]) == tag[1]
      && Lower(data[at + 2]) == tag[2] && Lower(data[at + 3]) == tag[3]
  {
    hide Lower;
    if SameTag(data, at, tag) {
      assert Lower(data[at + 0]) == tag[0];
    }
  }

  /** A list header reads "LIST" or "RIFF", in letters of either case. */
  lemma ListIs(data: seq<byte>, at: nat)
    requires Readable(data, at)
    ensures IsList(data, at) <==>
      || (Letter(data[at], 0x4C) && Letter(data[at + 1], 0x49) && Letter(data[at + 2], 0x53)
          && Letter(data[at + 3], 0x54))
      || (Letter(data[at], 0x52) && Letter(data[at + 1], 0x49) && Letter(data[at + 2], 0x46)
          && Letter(data[at + 3], 0x46))
  {
    hide Lower, Letter, SameTag;
    TagIs(data, at, LIST);
    TagIs(data, at, RIFF);
    LoweredLetter(data[at]);
    LoweredLetter(data[at + 1]);
    LoweredLetter(data[at + 2]);
    LoweredLetter(data[at + 3]);
  }

  // ----- chunks -----

  /** A length of 32 bits, which the index takes as a signed number. */
  function Taken(n: nat): int {
    if n < 0x8000_0000 then n else n - 0x1_0000_0000
  }

  /** The entry is that of the chunk with this header, and gives its data. */
  ghost predicate GivesChunk(data: seq<byte>, at: nat, e: Entry)
    requires Readable(data, at)
  {
    var n := LengthAt(data, at);
    && e == Entry(at + 8, Taken(n))
    && (n < 0x8000_0000 && at + 8 + n <= |data| ==>
          CanRead(data, e, 0, n) && Slice(data, e, 0, n) == data[at + 8..at + 8 + n])
  }

  lemma OwnEntry(data: seq<byte>, at: nat, e: Entry)
    requires Readable(data, at) && e == Entry(at + 8, Taken(LengthAt(data, at)))
    ensures GivesChunk(data, at, e)
  {
    hide LengthAt;
  }

  /** A frame that has no list header directly before its chunk is entered so that its data are read. */
  lemma FrameIsGiven(data: seq<byte>, s: Scan, f: Format, k: nat)
    requires |f.videoTag| == 2 && Tags(s.audio) && s.cur == s.next
    requires FrameAt(data, TagAfter(data, s.next, k), f) && !ListBefore(data, s.next, k)
    ensures var before, after := ScanAfter(data, s, f, k).video, ScanAfter(data, s, f, k + 1).video;
      && |after| == |before| + 1 && after[..|before|] == before
      && GivesChunk(data, TagAfter(data, s.next, k), VideoEntries(after)[|before|])
  {
    hide ListBefore, TagAfter, Turn, GivesChunk, FrameAt;
    FrameReadable(data, TagAfter(data, s.next, k), f);
    PositionIsOwn(data, s, f, k);
    TurnGives(data, ScanAfter(data, s, f, k), f);
  }

  lemma FrameReadable(data: seq<byte>, at: nat, f: Format)
    requires |f.videoTag| == 2 && FrameAt(data, at, f)
    ensures Readable(data, at)
  {
  }

  lemma TurnGives(data: seq<byte>, s: Scan, f: Format)
    requires |f.videoTag| == 2 && Tags(s.audio) && s.cur == s.next && FrameAt(data, s.next, f)
    ensures var before, after := s.video, Turn(data, s, f).video;
      && |after| == |before| + 1 && after[..|before|] == before
      && GivesChunk(data, s.next, VideoEntries(after)[|before|])
  {
    hide GivesChunk, FrameFlags, IsList, Heard, Padded, LengthAt;
    assert data[s.next..s.next + 8][0] == data[s.next] && data[s.next..s.next + 8][1] == data[s.next + 1];
    OwnEntry(data, s.next, Entry(s.next + 8, Taken(LengthAt(data, s.next))));
  }

  /** A chunk that is entered at all: no list header, and no frame cut off by the end of the file. */
  predicate ChunkAt(data: seq<byte>, at: nat, f: Format)
    requires |f.videoTag| == 2
  {
    Readable(data, at) && !IsList(data, at) && (data[at..at + 2] == f.videoTag ==> at + 12 <= |data|)
  }

  /** The track gained the chunk if it bears the track's tag, and nothing otherwise. */
  ghost predicate Gained(data: seq<byte>, at: nat, before: Track, after: Track)
    requires Readable(data, at)
  {
    if data[at..at + 2] == before.tag then
      |after.chunks| == |before.chunks| + 1 && after.chunks[..|before.chunks|] == before.chunks
      && after.tot == before.tot + Taken(LengthAt(data, at))
      && GivesChunk(data, at, AudioEntries(after.chunks)[|before.chunks|])
    else after == before
  }

  lemma ChunkIsHeard(data: seq<byte>, s: Scan, f: Format, k: nat, i: nat)
    requires |f.videoTag| == 2 && Tags(s.audio) && s.cur == s.next
    requires ChunkAt(data, TagAfter(data, s.next, k), f) && !ListBefore(data, s.next, k)
    requires i < |ScanAfter(data, s, f, k).audio|
    ensures i < |ScanAfter(data, s, f, k + 1).audio|
    ensures
      Gained(data, TagAfter(data, s.next, k), ScanAfter(data, s, f, k).audio[i], ScanAfter(data, s, f, k + 1).audio[i])
  {
    hide ListBefore, TagAfter, Turn, Gained, ChunkAt;
    ChunkReadable(data, TagAfter(data, s.next, k), f);
    PositionIsOwn(data, s, f, k);
    TurnHears(data, ScanAfter(data, s, f, k), f, i);
  }

  lemma ChunkReadable(data: seq<byte>, at: nat, f: Format)
    requires |f.videoTag| == 2 && ChunkAt(data, at, f)
    ensures Readable(data, at)
  {
  }

  lemma TurnHears(data: seq<byte>, s: Scan, f: Format, i: nat)
    requires |f.videoTag| == 2 && Tags(s.audio) && s.cur == s.next && ChunkAt(data, s.next, f) && i < |s.audio|
    ensures i < |Turn(data, s, f).audio| && Gained(data, s.next, s.audio[i], Turn(data, s, f).audio[i])
  {
    hide FrameFlags, IsList, Padded, LengthAt, Gained, IsTag;
    TwoBytesMatch(data, s.next, f.videoTag);
    TwoBytesMatch(data, s.next, s.audio[i].tag);
    OneGained(data, s.next, s.audio[i]);
  }

  lemma TwoBytesMatch(data: seq<byte>, at: nat, tag: seq<byte>)
    requires Readable(data, at) && |tag| == 2
    ensures IsTag(data[at..at + 8], tag) <==> data[at..at + 2] == tag
  {
    assert data[at..at + 8][0] == data[at] && data[at..at + 8][1] == data[at + 1];
    assert data[at..at + 2] == [data[at], data[at + 1]];
  }

  lemma OneGained(data: seq<byte>, at: nat, t: Track)
    requires Readable(data, at) && |t.tag| == 2
    ensures Gained(data, at, t,
                   if data[at..at + 2] == t.tag then Appended(t, at + 8, Long(LengthAt(data, at))) else t)
  {
    hide LengthAt, GivesChunk, Blocks;
    OwnEntry(data, at, Entry(at + 8, Taken(LengthAt(data, at))));
  }

  // ----- records -----

  /** The record begins with the two bytes of the tag. */
  predicate Bears(e: Record, tag: seq<byte>) {
    |e.id| >= 2 && e.id[..2] == tag
  }

  lemma BearsIsTag(e: Record, tag: seq<byte>)
    requires e.Valid() && |tag| == 2
    ensures IsTag(e.id, tag) <==> Bears(e, tag)
  {
    assert e.id[..2] == [e.id[0], e.id[1]];
  }

  /** The records with this tag, in order. */
  ghost predicate Tagged(idx: seq<Record>, tag: seq<byte>, k: nat, at: seq<nat>)
    requires k <= |idx|
  {
    && (forall j :: 0 <= j < |at| ==> at[j] < k && Bears(idx[at[j]], tag))
    && (forall i, j :: 0 <= i < j < |at| ==> at[i] < at[j])
    && forall i :: 0 <= i < k && Bears(idx[i], tag) ==> i in at
  }

  lemma OneRecordMore(idx: seq<Record>, tag: seq<byte>, k: nat, at: seq<nat>)
    requires k < |idx| && Tagged(idx, tag, k, at)
    ensures !Bears(idx[k], tag) ==> Tagged(idx, tag, k + 1, at)
    ensures Bears(idx[k], tag) ==> Tagged(idx, tag, k + 1, at + [k])
  {
    hide Bears;
    if Bears(idx[k], tag) {
      forall i | 0 <= i < k + 1 && Bears(idx[i], tag)
        ensures i in at + [k]
      {
        assert i == k ==> (at + [k])[|at|] == i;
      }
    }
  }

  /** Entry by entry, position and length are those of the records, the position shifted. */
  ghost predicate EntriesOf(idx: seq<Record>, ioff: int, at: seq<nat>, entries: seq<Entry>) {
    && |entries| == |at|
    && forall j :: 0 <= j < |at| ==>
         at[j] < |idx| && entries[j] == Entry(idx[at[j]].pos + ioff, Taken(idx[at[j]].len))
  }

  lemma OneEntryMore(idx: seq<Record>, ioff: int, at: seq<nat>, entries: seq<Entry>, k: nat)
    requires k < |idx| && EntriesOf(idx, ioff, at, entries)
    ensures EntriesOf(idx, ioff, at + [k], entries + [Entry(idx[k].pos + ioff, Taken(idx[k].len))])
  {
  }

  /** The video entries are those of the records with the video tag, in their order and with their flags. */
  ghost predicate FramesOf(idx: seq<Record>, ioff: int, tag: seq<byte>, k: nat, at: seq<nat>, video: seq<VideoEntry>)
    requires k <= |idx|
  {
    && Tagged(idx, tag, k, at) && EntriesOf(idx, ioff, at, VideoEntries(video))
    && forall j :: 0 <= j < |at| ==> at[j] < |idx| && video[j].flags == idx[at[j]].flags
  }

  lemma FramesNext(idx: seq<Record>, ioff: int, tag: seq<byte>, k: nat, at: seq<nat>, video: seq<VideoEntry>)
    requires 0 < k <= |idx| && idx[k - 1].Valid() && FramesOf(idx, ioff, tag, k - 1, at, video)
    ensures !Bears(idx[k - 1], tag) ==> FramesOf(idx, ioff, tag, k, at, video)
    ensures var e := idx[k - 1];
      Bears(e, tag) ==>
        FramesOf(idx, ioff, tag, k, at + [k - 1], video + [VideoEntry(e.pos + ioff, Long(e.len), e.flags)])
  {
    var e := idx[k - 1];
    OneRecordMore(idx, tag, k - 1, at);
    OneEntryMore(idx, ioff, at, VideoEntries(video), k - 1);
    VideoEntriesNext(video, VideoEntry(e.pos + ioff, Long(e.len), e.flags));
    TakenIsLong(e.len);
    hide Tagged, EntriesOf, Taken, Long, Bears;
  }

  lemma ImportedOne(idx: seq<Record>, ioff: int, videoTag: seq<byte>, audio: seq<Track>, k: nat)
    requires 0 < k <= |idx| && |videoTag| == 2 && Tags(audio) && AllValid(idx)
    ensures var e, before, after := idx[k - 1], Imported(idx, ioff, videoTag, audio, k - 1),
                                    Imported(idx, ioff, videoTag, audio, k);
      && after.video == (if Bears(e, videoTag)
                         then before.video + [VideoEntry(e.pos + ioff, Long(e.len), e.flags)] else before.video)
      && forall i :: 0 <= i < |audio| ==>
           after.audio[i] == if Bears(e, before.audio[i].tag)
                             then Appended(before.audio[i], e.pos + ioff, Long(e.len)) else before.audio[i]
  {
    var e, before := idx[k - 1], Imported(idx, ioff, videoTag, audio, k - 1);
    BearsIsTag(e, videoTag);
    forall i | 0 <= i < |audio|
      ensures IsTag(e.id, before.audio[i].tag) <==> Bears(e, before.audio[i].tag)
    {
      BearsIsTag(e, before.audio[i].tag);
    }
    hide IsTag, Bears, Appended, Long;
  }

  lemma FramesMore(idx: seq<Record>, ioff: int, tag: seq<byte>, k: nat, at: seq<nat>, before: seq<VideoEntry>,
                   after: seq<VideoEntry>) returns (at': seq<nat>)
    requires 0 < k <= |idx| && idx[k - 1].Valid() && FramesOf(idx, ioff, tag, k - 1, at, before)
    requires var e := idx[k - 1];
      after == if Bears(e, tag) then before + [VideoEntry(e.pos + ioff, Long(e.len), e.flags)] else before
    ensures FramesOf(idx, ioff, tag, k, at', after)
  {
    hide FramesOf, Bears, Long;
    FramesNext(idx, ioff, tag, k, at, before);
    at' := if Bears(idx[k - 1], tag) then at + [k - 1] else at;
  }

  lemma NoFrames(idx: seq<Record>, ioff: int, tag: seq<byte>)
    ensures FramesOf(idx, ioff, tag, 0, [], [])
  {
  }

  /** What the import makes of the records for the video stream. */
  lemma {:induction false} ImportedFrames(idx: seq<Record>, ioff: int, videoTag: seq<byte>, audio: seq<Track>, k: nat)
    returns (at: seq<nat>)
    requires k <= |idx| && |videoTag| == 2 && Tags(audio) && AllValid(idx)
    ensures FramesOf(idx, ioff, videoTag, k, at, Imported(idx, ioff, videoTag, audio, k).video)
    decreases k
  {
    hide FramesOf;
    if k == 0 {
      at := [];
      NoFrames(idx, ioff, videoTag);
    } else {
      at := ImportedFrames(idx, ioff, videoTag, audio, k - 1);
      ImportedOne(idx, ioff, videoTag, audio, k);
      at := FramesMore(idx, ioff, videoTag, k, at, Imported(idx, ioff, videoTag, audio, k - 1).video,
                       Imported(idx, ioff, videoTag, audio, k).video);
    }
  }

  lemma TakenIsLong(n: nat)
    requires n < WORD
    ensures Taken(n) == Long(n)
  {
  }

  lemma VideoEntriesNext(video: seq<VideoEntry>, e: VideoEntry)
    ensures VideoEntries(video + [e]) == VideoEntries(video) + [Entry(e.pos, e.len)]
  {
  }

  lemma AudioEntriesNext(chunks: seq<AudioEntry>, e: AudioEntry)
    ensures AudioEntries(chunks + [e]) == AudioEntries(chunks) + [Entry(e.pos, e.len)]
  {
  }

  /** The chunks of a track that began empty are those of the records with its tag, in their order. */
  ghost predicate ChunksOf(idx: seq<Record>, ioff: int, tag: seq<byte>, k: nat, at: seq<nat>, t: Track)
    requires k <= |idx|
  {
    t.tag == tag && Tagged(idx, tag, k, at) && EntriesOf(idx, ioff, at, AudioEntries(t.chunks))
  }

  lemma ChunksNext(idx: seq<Record>, ioff: int, tag: seq<byte>, k: nat, at: seq<nat>, t: Track)
    requires 0 < k <= |idx| && idx[k - 1].Valid() && ChunksOf(idx, ioff, tag, k - 1, at, t)
    ensures !Bears(idx[k - 1], tag) ==> ChunksOf(idx, ioff, tag, k, at, t)
    ensures var e := idx[k - 1];
      Bears(e, tag) ==> ChunksOf(idx, ioff, tag, k, at + [k - 1], Appended(t, e.pos + ioff, Long(e.len)))
  {
    var e := idx[k - 1];
    OneRecordMore(idx, tag, k - 1, at);
    OneEntryMore(idx, ioff, at, AudioEntries(t.chunks), k - 1);
    var blockNo := t.blockNo + Blocks(Long(e.len), t.align);
    AudioEntriesNext(t.chunks, AudioEntry(e.pos + ioff, Long(e.len), t.tot, blockNo));
    TakenIsLong(e.len);
    hide Tagged, EntriesOf, Taken, Long, Bears, Blocks;
  }

  lemma ChunksMore(idx: seq<Record>, ioff: int, tag: seq<byte>, k: nat, at: seq<nat>, before: Track, after: Track)
    returns (at': seq<nat>)
    requires 0 < k <= |idx| && idx[k - 1].Valid() && ChunksOf(idx, ioff, tag, k - 1, at, before)
    requires var e := idx[k - 1];
      after == if Bears(e, before.tag) then Appended(before, e.pos + ioff, Long(e.len)) else before
    ensures ChunksOf(idx, ioff, tag, k, at', after)
  {
    assert before.tag == tag;
    hide ChunksOf, Bears, Long, Appended;
    ChunksNext(idx, ioff, tag, k, at, before);
    at' := if Bears(idx[k - 1], tag) then at + [k - 1] else at;
  }

  lemma NoChunks(idx: seq<Record>, ioff: int, t: Track)
    requires t.chunks == []
    ensures ChunksOf(idx, ioff, t.tag, 0, [], t)
  {
  }

  /** And what it makes of them for each audio stream. */
  lemma {:induction false} ImportedChunks(idx: seq<Record>, ioff: int, videoTag: seq<byte>, audio: seq<Track>, k: nat,
                                          i: nat)
    returns (at: seq<nat>)
    requires k <= |idx| && |videoTag| == 2 && Tags(audio) && AllValid(idx)
    requires i < |audio| && audio[i].chunks == []
    ensures ChunksOf(idx, ioff, audio[i].tag, k, at, Imported(idx, ioff, videoTag, audio, k).audio[i])
    decreases k
  {
    hide ChunksOf;
    if k == 0 {
      at := [];
      NoChunks(idx, ioff, audio[i]);
    } else {
      at := ImportedChunks(idx, ioff, videoTag, audio, k - 1, i);
      ImportedOne(idx, ioff, videoTag, audio, k);
      at := ChunksMore(idx, ioff, audio[i].tag, k, at, Imported(idx, ioff, videoTag, audio, k - 1).audio[i],
                       Imported(idx, ioff, videoTag, audio, k).audio[i]);
    }
  }

  // ----- stopping -----

  lemma {:induction false} KeyframeBehindMeans(stopper: Stopper, video: seq<VideoEntry>, n: nat)
    requires n <= |video|
    ensures KeyframeBehind(stopper, video, n)
       <==> exists m :: 0 <= m < n && video[m].Keyframe() && forall i :: m <= i < n ==> Behind(stopper, video, i)
    decreases n
  {
    hide Behind, VideoEntry.Keyframe;
    if n > 0 {
      KeyframeBehindMeans(stopper, video, n - 1);
      if KeyframeBehind(stopper, video, n) {
        if video[n - 1].Keyframe() {
          assert forall i :: n - 1 <= i < n ==> Behind(stopper, video, i);
        } else {
          var m :| 0 <= m < n - 1 && video[m].Keyframe() && forall i :: m <= i < n - 1 ==> Behind(stopper, video, i);
          assert forall i :: m <= i < n ==> Behind(stopper, video, i);
        }
      }
    }
  }

  /** A call that waits for a position stops where the index has a keyframe from which on all frames are at or behind
      that position. */
  lemma StartPosStops(pos: int, video: seq<VideoEntry>, audio: seq<Track>)
    ensures Stops(StartPos(pos), video, audio)
       <==> exists m :: 0 <= m < |video| && video[m].flags / 0x10 % 2 == 1
                        && forall i :: m <= i < |video| ==> video[i].pos >= pos
  {
    KeyframeBehindMeans(StartPos(pos), video, |video|);
    hide KeyframeBehind;
    assert forall i :: 0 <= i < |video| ==> (Behind(StartPos(pos), video, i) <==> video[i].pos >= pos);
  }

  /** And one that waits for a time, where all frames from a keyframe on are late enough. */
  lemma StartTimeStops(late: int -> bool, video: seq<VideoEntry>, audio: seq<Track>)
    ensures Stops(StartTime(late), video, audio)
       <==> exists m :: 0 <= m < |video| && video[m].flags / 0x10 % 2 == 1
                        && forall i :: m <= i < |video| ==> late(i)
  {
    KeyframeBehindMeans(StartTime(late), video, |video|);
    hide KeyframeBehind;
    assert forall i :: 0 <= i < |video| ==> (Behind(StartTime(late), video, i) <==> late(i));
  }
}
