/** The index of an AVI file that grows while the file is played (src/demuxers/demux_avi.c:251-310, 353-397, 407-551)
    and the one imported from its idx1 record (962-994). */
module AviIndex {
  import opened Arithmetic
  import opened Bytes
  import opened Wrappers

  const WORD: nat := 0x1_0000_0000
  const AVIIF_KEYFRAME: int := 0x10

  /** The word as the `long` it is assigned to. */
  function Long(u: nat): int
    requires u < WORD
  {
    if u < 0x8000_0000 then u else u - WORD
  }

  datatype VideoEntry = VideoEntry(pos: int, len: int, flags: int)
  {
    predicate Keyframe() { flags / 0x10 % 2 == 1 }
  }

  datatype AudioEntry = AudioEntry(pos: int, len: int, tot: int, blockNo: int)

  /** The video compressors that decide how a keyframe is recognised. */
  datatype Codec = MsMpeg4V1 | MsMpeg4V2 | MsMpeg4V3 | DivX5 | Mpeg4 | Xvid | Other

  /** An audio stream: the two bytes of its tag, `nBlockAlign` (0 where there is none), and what is summed up. */
  datatype Track = Track(tag: seq<byte>, align: nat, chunks: seq<AudioEntry>, tot: int, blockNo: int)

  // ----- the sums of an audio stream -----

  /** Division as C has it. */
  function CDiv(x: int, n: nat): int
    requires n > 0
  {
    if x >= 0 then x / n else -((-x) / n)
  }

  /** The blocks of one chunk. */
  function Blocks(len: int, align: nat): int {
    if align > 0 then CDiv(len + align - 1, align) else 1
  }

  /** The blocks of a chunk are its length divided by the block size and rounded up, exactly unless the length is minus
      a whole block or less and one byte less would not divide evenly. */
  lemma BlocksRoundUp(len: int, align: nat, q: int)
    requires align > 0 && q == Blocks(len, align)
    ensures (q - 1) * align < len <= q * align <==> len + align > 0 || (len - 1) % align == 0
  {
    var x := len + align - 1;
    if x >= 0 {
      assert x == q * align + x % align && (q - 1) * align == q * align - align;
    } else {
      var r := (-x) % align;
      assert -x == (-q) * align + r && (-q) * align == -(q * align);
      assert (q - 1) * align == q * align - align;
      AddMultiple(len - 1, 1, align);
      if r == 0 {
        RemainderIs(x, q, 0, align);
      } else {
        assert (q - 1) * align + (align - r) == x;
        RemainderIs(x, q - 1, align - r, align);
      }
    }
  }

  function SumLen(chunks: seq<AudioEntry>, k: nat): int
    requires k <= |chunks|
  {
    if k == 0 then 0 else SumLen(chunks, k - 1) + chunks[k - 1].len
  }

  function SumBlocks(chunks: seq<AudioEntry>, align: nat, k: nat): int
    requires k <= |chunks|
  {
    if k == 0 then 0 else SumBlocks(chunks, align, k - 1) + Blocks(chunks[k - 1].len, align)
  }

  /** Without a block size, every chunk counts as one block. */
  lemma {:induction false} ChunksAreBlocks(chunks: seq<AudioEntry>, k: nat)
    requires k <= |chunks|
    ensures SumBlocks(chunks, 0, k) == k
  {
    if k > 0 {
      ChunksAreBlocks(chunks, k - 1);
    }
  }

  /** Every entry carries the bytes before it and the blocks up to and with it. */
  ghost predicate SumsRight(t: Track) {
    && (forall k :: 0 <= k < |t.chunks| ==> EntryRight(t.chunks, t.align, k))
    && t.tot == SumLen(t.chunks, |t.chunks|)
    && t.blockNo == SumBlocks(t.chunks, t.align, |t.chunks|)
  }

  ghost predicate EntryRight(chunks: seq<AudioEntry>, align: nat, k: nat)
    requires k < |chunks|
  {
    chunks[k].tot == SumLen(chunks, k) && chunks[k].blockNo == SumBlocks(chunks, align, k + 1)
  }

  /** `audio_index_append` with the sums the callers make around it. */
  function Appended(t: Track, pos: int, len: int): Track {
    var blockNo := t.blockNo + Blocks(len, t.align);
    t.(chunks := t.chunks + [AudioEntry(pos, len, t.tot, blockNo)], tot := t.tot + len, blockNo := blockNo)
  }

  lemma {:induction false} SumsOfPrefix(chunks: seq<AudioEntry>, e: AudioEntry, align: nat, k: nat)
    requires k <= |chunks|
    ensures SumLen(chunks + [e], k) == SumLen(chunks, k)
    ensures SumBlocks(chunks + [e], align, k) == SumBlocks(chunks, align, k)
  {
    if k > 0 {
      SumsOfPrefix(chunks, e, align, k - 1);
    }
  }

  lemma AppendKeepsSums(t: Track, pos: int, len: int)
    requires SumsRight(t)
    ensures SumsRight(Appended(t, pos, len))
  {
    var t' := Appended(t, pos, len);
    var e := t'.chunks[|t.chunks|];
    forall k | 0 <= k < |t'.chunks|
      ensures EntryRight(t'.chunks, t.align, k)
    {
      SumsOfPrefix(t.chunks, e, t.align, k);
      if k < |t.chunks| {
        assert EntryRight(t.chunks, t.align, k);
        SumsOfPrefix(t.chunks, e, t.align, k + 1);
      }
    }
    SumsOfPrefix(t.chunks, e, t.align, |t.chunks|);
  }

  // ----- chunks in the file -----

  predicate Readable(data: seq<byte>, at: nat) {
    at + 8 <= |data|
  }

  function Lower(b: byte): byte {
    if 0x41 <= b <= 0x5A then b + 0x20 else b
  }

  /** `strncasecmp` over four bytes. */
  predicate SameTag(data: seq<byte>, at: nat, tag: seq<byte>)
    requires Readable(data, at) && |tag| == 4
  {
    forall i :: 0 <= i < 4 ==> Lower(data[at + i]) == tag[i]
  }

  const LIST: seq<byte> := [0x6C, 0x69, 0x73, 0x74]
  const RIFF: seq<byte> := [0x72, 0x69, 0x66, 0x66]

  predicate IsList(data: seq<byte>, at: nat)
    requires Readable(data, at)
  {
    SameTag(data, at, LIST) || SameTag(data, at, RIFF)
  }

  function LengthAt(data: seq<byte>, at: nat): (n: nat)
    requires Readable(data, at)
    ensures n < WORD
  {
    LittleEndian(data[at + 4..at + 8])
  }

  /** `PAD_EVEN(n + 8)` in 32 bits. */
  function Padded(n: nat): nat {
    (n + 9) % WORD / 2 * 2
  }

  /** A chunk takes up its header and its padded data, unless the sum wraps around; and it takes up nothing at all for
      just two lengths. */
  lemma PaddedMeaning(n: nat)
    requires n < WORD
    ensures n < WORD - 9 ==> n + 8 <= Padded(n) <= n + 9 && Padded(n) % 2 == 0
    ensures Padded(n) == 0 <==> n == 0xFFFF_FFF7 || n == 0xFFFF_FFF8
    ensures Padded(n) == 0 || Padded(n) >= 2
  {
  }

  /** Where the scan goes from a readable chunk header. */
  function NextTag(data: seq<byte>, at: nat): nat {
    if !Readable(data, at) then at
    else if IsList(data, at) then at + 12
    else at + Padded(LengthAt(data, at))
  }

  /** The scan does not stay where it is. */
  predicate Moves(data: seq<byte>, at: nat) {
    Readable(data, at) ==> IsList(data, at) || (LengthAt(data, at) != 0xFFFF_FFF7 && LengthAt(data, at) != 0xFFFF_FFF8)
  }

  /** The position of the scan after `k` chunks. */
  function TagAfter(data: seq<byte>, start: nat, k: nat): nat {
    if k == 0 then start else NextTag(data, TagAfter(data, start, k - 1))
  }

  ghost predicate Advances(data: seq<byte>, start: nat) {
    forall k: nat :: Moves(data, TagAfter(data, start, k))
  }

  ghost predicate Ends(data: seq<byte>, start: nat) {
    exists k: nat :: !Readable(data, TagAfter(data, start, k))
  }

  lemma MovesOn(data: seq<byte>, at: nat)
    ensures Readable(data, at) ==> (NextTag(data, at) > at <==> Moves(data, at)) && NextTag(data, at) >= at
  {
    if Readable(data, at) {
      PaddedMeaning(LengthAt(data, at));
    }
  }

  lemma {:induction false} FarEnough(data: seq<byte>, start: nat, k: nat)
    requires Advances(data, start)
    ensures !Readable(data, TagAfter(data, start, k)) || TagAfter(data, start, k) >= start + k
  {
    if k > 0 {
      FarEnough(data, start, k - 1);
      MovesOn(data, TagAfter(data, start, k - 1));
      assert Moves(data, TagAfter(data, start, k - 1));
    }
  }

  lemma {:induction false} StaysPut(data: seq<byte>, start: nat, k: nat, j: nat)
    requires NextTag(data, TagAfter(data, start, k)) == TagAfter(data, start, k)
    ensures TagAfter(data, start, k + j) == TagAfter(data, start, k)
    decreases j
  {
    if j > 0 {
      StaysPut(data, start, k, j - 1);
    }
  }

  /** The scan of a file comes to an end exactly when it meets no chunk of the two lengths that take up nothing. */
  lemma ScanEnds(data: seq<byte>, start: nat)
    ensures Ends(data, start) <==> Advances(data, start)
  {
    hide Moves, NextTag, TagAfter, Readable;
    if Advances(data, start) {
      FarEnough(data, start, |data|);
      TooFar(data, TagAfter(data, start, |data|));
      assert !Readable(data, TagAfter(data, start, |data|));
    } else {
      var k: nat :| !Moves(data, TagAfter(data, start, k));
      forall m: nat
        ensures Readable(data, TagAfter(data, start, m))
      {
        StandsStill(data, TagAfter(data, start, k));
        StandsStill(data, TagAfter(data, start, m));
        if m >= k {
          StaysPut(data, start, k, m - k);
        } else if !Readable(data, TagAfter(data, start, m)) {
          StaysPut(data, start, m, k - m);
        }
      }
    }
  }

  lemma TooFar(data: seq<byte>, at: nat)
    ensures at >= |data| ==> !Readable(data, at)
  {
  }

  lemma StandsStill(data: seq<byte>, at: nat)
    ensures !Moves(data, at) ==> Readable(data, at) && NextTag(data, at) == at
    ensures !Readable(data, at) ==> NextTag(data, at) == at
  {
  }

  /** A chunk whose length brings the scan to a halt. */
  lemma ScanHalts()
    ensures var data: seq<byte> := [0x4A, 0x55, 0x4E, 0x4B, 0xF7, 0xFF, 0xFF, 0xFF];
      !Ends(data, 0)
  {
    var data: seq<byte> := [0x4A, 0x55, 0x4E, 0x4B, 0xF7, 0xFF, 0xFF, 0xFF];
    assert Lower(data[0]) != LIST[0] && Lower(data[0]) != RIFF[0];
    HaltingLength(data);
    assert TagAfter(data, 0, 0) == 0;
    assert !Moves(data, TagAfter(data, 0, 0));
    ScanEnds(data, 0);
  }

  lemma HaltingLength(data: seq<byte>)
    requires |data| == 8 && data[4..8] == [0xF7, 0xFF, 0xFF, 0xFF]
    ensures LengthAt(data, 0) == 0xFFFF_FFF7
  {
    var s := data[0 + 4..0 + 8];
    assert s == data[4..8];
    Spelled(0xF7, 0xFF, 0xFF, 0xFF);
  }

  // ----- the scan -----

  /** What a scan has built: `next` is where it expects the next chunk, `cur` what it takes for the start of it. */
  datatype Scan = Scan(next: nat, cur: nat, video: seq<VideoEntry>, audio: seq<Track>)

  function Bit(v: nat, i: nat): bool
    requires i > 0
  {
    v / i % 2 == 1
  }

  /** Four bytes as they are read. Where the file ends, the bytes read before stay. */
  function FourRead(data: seq<byte>, at: nat): (b: seq<byte>)
    requires 4 <= at <= |data|
    ensures |b| == 4
  {
    seq(4, i requires 0 <= i < 4 => if at + i < |data| then data[at + i] else data[at + i - 4])
  }

  /** The big-endian word the keyframe test looks at. */
  function BigWord(data: seq<byte>, at: nat): nat
    requires 4 <= at <= |data|
  {
    var b := FourRead(data, at);
    b[0] as nat * 0x100_0000 + b[1] as nat * 0x1_0000 + b[2] as nat * 0x100 + b[3] as nat
  }

  /** Keyframes are told from the first bytes of the frame. */
  function FrameFlags(data: seq<byte>, at: nat, codec: Codec): int
    requires 4 <= at && at + 4 <= |data|
  {
    var tmp := BigWord(data, at);
    match codec
    case MsMpeg4V1 => if Bit(BigWord(data, at + 4) * 32 % WORD, 0x4000_0000) then 0 else AVIIF_KEYFRAME
    case MsMpeg4V2 => if Bit(tmp, 0x4000_0000) then 0 else AVIIF_KEYFRAME
    case MsMpeg4V3 => if Bit(tmp, 0x4000_0000) then 0 else AVIIF_KEYFRAME
    case DivX5 => if tmp == 0x1B6 then 0 else AVIIF_KEYFRAME
    case Mpeg4 => if tmp == 0x1B6 then 0 else AVIIF_KEYFRAME
    case Xvid => if tmp == 0x1B6 then 0 else AVIIF_KEYFRAME
    case Other => AVIIF_KEYFRAME
  }

  /** Only the first two bytes of a tag are compared: the number of the stream. */
  predicate IsTag(id: seq<byte>, tag: seq<byte>)
    requires |id| >= 2 && |tag| == 2
  {
    id[0] == tag[0] && id[1] == tag[1]
  }

  predicate Tags(audio: seq<Track>) {
    forall i :: 0 <= i < |audio| ==> |audio[i].tag| == 2
  }

  /** The first `n` tracks take up the chunk where it is theirs. */
  function Heard(id: seq<byte>, audio: seq<Track>, pos: int, len: int, n: nat): (r: seq<Track>)
    requires |id| >= 2 && Tags(audio) && n <= |audio|
    ensures |r| == |audio| && Tags(r)
    ensures forall i :: 0 <= i < |audio| ==>
      r[i] == if i < n && IsTag(id, audio[i].tag) then Appended(audio[i], pos, len) else audio[i]
  {
    if n == 0 then audio
    else
      var before := Heard(id, audio, pos, len, n - 1);
      if IsTag(id, audio[n - 1].tag) then before[n - 1 := Appended(audio[n - 1], pos, len)] else before
  }

  datatype Format = Format(videoTag: seq<byte>, codec: Codec)

  /** A frame of which not even four bytes are there makes the call give up. */
  predicate GivesUp(data: seq<byte>, at: nat, f: Format)
    requires |f.videoTag| == 2
  {
    Readable(data, at) && !IsList(data, at) && IsTag(data[at..at + 8], f.videoTag) && at + 12 > |data|
  }

  /** One turn of the loop of `idx_grow`. */
  function Turn(data: seq<byte>, s: Scan, f: Format): (r: Scan)
    requires |f.videoTag| == 2 && Tags(s.audio)
    ensures Tags(r.audio) && r.next == NextTag(data, s.next)
  {
    if !Readable(data, s.next) then s
    else if IsList(data, s.next) then s.(next := s.next + 12)
    else
      var next := s.next + Padded(LengthAt(data, s.next));
      if GivesUp(data, s.next, f) then s.(next := next, cur := next)
      else
        var id, pos, len := data[s.next..s.next + 8], s.cur + 8, Long(LengthAt(data, s.next));
        var video := if IsTag(id, f.videoTag)
          then s.video + [VideoEntry(pos, len, FrameFlags(data, s.next + 8, f.codec))] else s.video;
        Scan(next, next, video, Heard(id, s.audio, pos, len, |s.audio|))
  }

  /** One uninterrupted scan, after `k` turns. */
  function ScanAfter(data: seq<byte>, s: Scan, f: Format, k: nat): (r: Scan)
    requires |f.videoTag| == 2 && Tags(s.audio)
    ensures Tags(r.audio) && r.next == TagAfter(data, s.next, k)
  {
    if k == 0 then s else Turn(data, ScanAfter(data, s, f, k - 1), f)
  }

  /** An index only grows at its end. */
  ghost predicate Extends(s: Scan, t: Scan) {
    && s.video <= t.video && |s.audio| == |t.audio|
    && forall i :: 0 <= i < |s.audio| ==> s.audio[i].tag == t.audio[i].tag && s.audio[i].chunks <= t.audio[i].chunks
  }

  lemma TurnExtends(data: seq<byte>, s: Scan, f: Format)
    requires |f.videoTag| == 2 && Tags(s.audio)
    ensures Extends(s, Turn(data, s, f))
  {
    hide FrameFlags, IsTag, IsList, Padded;
  }

  /** Every earlier state of a scan is a prefix of every later one. */
  lemma {:induction false} ScanExtends(data: seq<byte>, s: Scan, f: Format, k: nat, j: nat)
    requires |f.videoTag| == 2 && Tags(s.audio) && k <= j
    ensures Extends(ScanAfter(data, s, f, k), ScanAfter(data, s, f, j))
    decreases j
  {
    hide Turn;
    if k < j {
      ScanExtends(data, s, f, k, j - 1);
      TurnExtends(data, ScanAfter(data, s, f, j - 1), f);
    }
  }

  lemma TurnKeepsSums(data: seq<byte>, s: Scan, f: Format, i: nat)
    requires |f.videoTag| == 2 && Tags(s.audio) && i < |s.audio| && SumsRight(s.audio[i])
    ensures i < |Turn(data, s, f).audio| && SumsRight(Turn(data, s, f).audio[i])
  {
    hide SumsRight, FrameFlags, IsTag, IsList, Padded, Appended;
    if Readable(data, s.next) && !IsList(data, s.next) && !GivesUp(data, s.next, f) {
      AppendKeepsSums(s.audio[i], s.cur + 8, Long(LengthAt(data, s.next)));
    }
  }

  /** The sums of all tracks stay right along a scan. */
  lemma {:induction false} ScanKeepsSums(data: seq<byte>, s: Scan, f: Format, k: nat, i: nat)
    requires |f.videoTag| == 2 && Tags(s.audio) && i < |s.audio| && SumsRight(s.audio[i])
    ensures i < |ScanAfter(data, s, f, k).audio| && SumsRight(ScanAfter(data, s, f, k).audio[i])
  {
    hide SumsRight, Turn;
    if k > 0 {
      ScanKeepsSums(data, s, f, k - 1, i);
      TurnKeepsSums(data, ScanAfter(data, s, f, k - 1), f, i);
    }
  }

  /** A scan that stands at the end of the file does not change any more. */
  lemma {:induction false} AtEndForGood(data: seq<byte>, s: Scan, f: Format, k: nat, j: nat)
    requires |f.videoTag| == 2 && Tags(s.audio) && !Readable(data, TagAfter(data, s.next, k)) && k <= j
    ensures ScanAfter(data, s, f, j) == ScanAfter(data, s, f, k)
    decreases j
  {
    if k < j {
      AtEndForGood(data, s, f, k, j - 1);
    }
  }

  /** A call that gives up has reached the end of the file, unless the length of the chunk wraps around. */
  lemma GivingUpIsTheEnd(data: seq<byte>, at: nat, f: Format)
    requires |f.videoTag| == 2 && GivesUp(data, at, f)
    ensures Readable(data, NextTag(data, at)) ==> LengthAt(data, at) >= WORD - 9
  {
    PaddedMeaning(LengthAt(data, at));
  }

  ghost predicate ListBefore(data: seq<byte>, start: nat, k: nat) {
    k > 0 && Readable(data, TagAfter(data, start, k - 1)) && IsList(data, TagAfter(data, start, k - 1))
  }

  /** A frame's position is that of its own data exactly when no list header stands directly before its chunk. */
  lemma {:induction false} PositionIsOwn(data: seq<byte>, s: Scan, f: Format, k: nat)
    requires |f.videoTag| == 2 && Tags(s.audio) && s.cur == s.next && Readable(data, TagAfter(data, s.next, k))
    ensures ScanAfter(data, s, f, k).cur <= TagAfter(data, s.next, k)
    ensures ScanAfter(data, s, f, k).cur == TagAfter(data, s.next, k) <==> !ListBefore(data, s.next, k)
  {
    if k > 0 {
      hide FrameFlags, IsTag, Padded, Heard;
      PositionIsOwn(data, s, f, k - 1);
    }
  }

  /** The frame behind a list header is entered with the position of what follows the start of the header. */
  lemma BehindAList(data: seq<byte>, f: Format)
    requires |f.videoTag| == 2 && |data| >= 24 && IsList(data, 0) && !IsList(data, 12)
    requires IsTag(data[12..20], f.videoTag)
    ensures ScanAfter(data, Scan(0, 0, [], []), f, 2).video
         == [VideoEntry(8, Long(LengthAt(data, 12)), FrameFlags(data, 20, f.codec))]
  {
    hide Padded, LengthAt, IsList, FrameFlags, Long, IsTag;
    var s := Scan(0, 0, [], []);
    assert ScanAfter(data, s, f, 0) == s;
    assert ScanAfter(data, s, f, 1) == Scan(12, 0, [], []);
  }

  /** A list header, and a chunk of four bytes behind it. */
  const LIST_FIRST: seq<byte> :=
    [0x4C, 0x49, 0x53, 0x54, 0, 0, 0, 0, 0, 0, 0, 0, 0x30, 0x30, 0x64, 0x63, 4, 0, 0, 0, 1, 2, 3, 4]

  lemma PositionNotOwn()
    ensures ScanAfter(LIST_FIRST, Scan(0, 0, [], []), Format([0x30, 0x30], Other), 2).video
         == [VideoEntry(8, 4, AVIIF_KEYFRAME)]
  {
    hide ScanAfter, Turn;
    PositionNotOwnIn(LIST_FIRST);
  }

  lemma PositionNotOwnIn(data: seq<byte>)
    requires |data| == 24 && data[0] == 0x4C && data[1] == 0x49 && data[2] == 0x53 && data[3] == 0x54
    requires data[12] == 0x30 && data[13] == 0x30 && data[16] == 4 && data[17] == 0 && data[18] == 0 && data[19] == 0
    ensures ScanAfter(data, Scan(0, 0, [], []), Format([0x30, 0x30], Other), 2).video
         == [VideoEntry(8, 4, AVIIF_KEYFRAME)]
  {
    ListInFront(data);
    FourBytes(data);
    hide ScanAfter, LittleEndian, IsList, LengthAt;
    BehindAList(data, Format([0x30, 0x30], Other));
  }

  lemma ListInFront(data: seq<byte>)
    requires |data| == 24 && data[0] == 0x4C && data[1] == 0x49 && data[2] == 0x53 && data[3] == 0x54
    requires data[12] == 0x30
    ensures IsList(data, 0) && !IsList(data, 12)
  {
    assert Lower(data[0 + 0]) == LIST[0] && Lower(data[0 + 1]) == LIST[1];
    assert Lower(data[0 + 2]) == LIST[2] && Lower(data[0 + 3]) == LIST[3];
    assert Lower(data[12 + 0]) != LIST[0] && Lower(data[12 + 0]) != RIFF[0];
  }

  lemma FourBytes(data: seq<byte>)
    requires |data| == 24 && data[16] == 4 && data[17] == 0 && data[18] == 0 && data[19] == 0
    ensures LengthAt(data, 12) == 4
  {
    assert data[12 + 4..12 + 8] == [4, 0, 0, 0];
    Spelled(4, 0, 0, 0);
  }

  // ----- the index at the end of a file -----

  /** A record of the idx1 chunk. */
  datatype Record = Record(id: seq<byte>, flags: nat, pos: nat, len: nat)
  {
    predicate Valid() { |id| == 4 && len < WORD }
  }

  predicate AllValid(idx: seq<Record>) {
    forall i :: 0 <= i < |idx| ==> idx[i].Valid()
  }

  datatype Index = Index(video: seq<VideoEntry>, audio: seq<Track>)

  /** What the first `k` records become. */
  function Imported(idx: seq<Record>, ioff: int, videoTag: seq<byte>, audio: seq<Track>, k: nat): (r: Index)
    requires k <= |idx| && |videoTag| == 2 && Tags(audio) && AllValid(idx)
    ensures Tags(r.audio) && |r.audio| == |audio|
  {
    if k == 0 then Index([], audio)
    else
      var before, e := Imported(idx, ioff, videoTag, audio, k - 1), idx[k - 1];
      var entry := VideoEntry(e.pos + ioff, Long(e.len), e.flags);
      Index(if IsTag(e.id, videoTag) then before.video + [entry] else before.video,
            Heard(e.id, before.audio, e.pos + ioff, Long(e.len), |audio|))
  }

  /** The import loop of `AVI_init`. */
  method ImportIndex(idx: seq<Record>, ioff: int, videoTag: seq<byte>, tracks: seq<Track>)
    returns (video: seq<VideoEntry>, audio: seq<Track>)
    requires |videoTag| == 2 && Tags(tracks) && AllValid(idx)
    ensures Index(video, audio) == Imported(idx, ioff, videoTag, tracks, |idx|)
  {
    hide Appended, Long, IsTag;
    video, audio := [], tracks;
    for i := 0 to |idx|
      invariant Index(video, audio) == Imported(idx, ioff, videoTag, tracks, i)
    {
      var e := idx[i];
      if IsTag(e.id, videoTag) {
        video := video + [VideoEntry(e.pos + ioff, Long(e.len), e.flags)];
      }
      ghost var before := audio;
      for n := 0 to |audio|
        invariant |audio| == |before| && audio == Heard(e.id, before, e.pos + ioff, Long(e.len), n)
      {
        if IsTag(e.id, audio[n].tag) {
          audio := audio[n := Appended(audio[n], e.pos + ioff, Long(e.len))];
        }
      }
    }
  }

  /** The sums are right after an import as well. */
  lemma {:induction false} ImportKeepsSums(idx: seq<Record>, ioff: int, videoTag: seq<byte>, audio: seq<Track>, k: nat,
                                           i: nat)
    requires k <= |idx| && |videoTag| == 2 && Tags(audio) && AllValid(idx)
    requires i < |audio| && SumsRight(audio[i])
    ensures SumsRight(Imported(idx, ioff, videoTag, audio, k).audio[i])
  {
    if k > 0 {
      ImportKeepsSums(idx, ioff, videoTag, audio, k - 1, i);
      hide SumsRight, Appended, IsTag;
      var before, e := Imported(idx, ioff, videoTag, audio, k - 1), idx[k - 1];
      AppendKeepsSums(before.audio[i], e.pos + ioff, Long(e.len));
    }
  }

  // ----- stopping -----

  /** What a caller of `idx_grow` waits for: the frame or chunk to be read next, or a keyframe at or behind a position
      or a time. How a frame number becomes a time is left to `late`. */
  datatype Stopper =
    | VideoPos(posf: nat)
    | AudioPos(track: nat, posc: nat)
    | StartPos(pos: int)
    | StartTime(late: int -> bool)

  predicate Behind(stopper: Stopper, video: seq<VideoEntry>, m: nat)
    requires m < |video|
  {
    match stopper
    case StartPos(pos) => video[m].pos >= pos
    case StartTime(late) => late(m)
    case _ => false
  }

  /** There is a keyframe among the frames behind the position, searched from the end. */
  predicate KeyframeBehind(stopper: Stopper, video: seq<VideoEntry>, n: nat)
    requires n <= |video|
  {
    n > 0 && Behind(stopper, video, n - 1) && (video[n - 1].Keyframe() || KeyframeBehind(stopper, video, n - 1))
  }

  predicate Stops(stopper: Stopper, video: seq<VideoEntry>, audio: seq<Track>) {
    match stopper
    case VideoPos(posf) => posf < |video|
    case AudioPos(track, posc) => track < |audio| && posc < |audio[track].chunks|
    case _ => KeyframeBehind(stopper, video, |video|)
  }

  /** The stopper functions of lines 353-397. */
  method Stopped(stopper: Stopper, video: seq<VideoEntry>, audio: seq<Track>) returns (r: int)
    ensures r == if Stops(stopper, video, audio) then 1 else -1
  {
    match stopper {
      case VideoPos(posf) => r := if posf >= |video| then -1 else 1;
      case AudioPos(track, posc) => r := if track >= |audio| || posc >= |audio[track].chunks| then -1 else 1;
      case _ =>
        var maxframe := |video| - 1;
        while maxframe >= 0 && Behind(stopper, video, maxframe)
          invariant -1 <= maxframe < |video|
          invariant KeyframeBehind(stopper, video, |video|) == KeyframeBehind(stopper, video, maxframe + 1)
        {
          if video[maxframe].Keyframe() {
            return 1;
          }
          maxframe := maxframe - 1;
        }
        r := -1;
    }
  }

  // ----- when a call ends -----

  /** A call leaves the loop before or in turn `k`: its stopper is satisfied, no header can be read, or the chunk makes
      it give up. */
  ghost predicate ExitsAt(data: seq<byte>, s: Scan, f: Format, stopper: Stopper, k: nat)
    requires |f.videoTag| == 2 && Tags(s.audio)
  {
    var t := ScanAfter(data, s, f, k);
    Stops(stopper, t.video, t.audio) || !Readable(data, t.next) || GivesUp(data, t.next, f)
  }

  /** A call that begins after `from` turns of the scan comes to an end. */
  ghost predicate CallEnds(data: seq<byte>, s: Scan, f: Format, stopper: Stopper, from: nat)
    requires |f.videoTag| == 2 && Tags(s.audio)
  {
    exists k :: from <= k && ExitsAt(data, s, f, stopper, k)
  }

  lemma {:induction false} FarEnoughFrom(data: seq<byte>, start: nat, from: nat, m: nat)
    requires forall j :: from <= j ==> Moves(data, TagAfter(data, start, j))
    ensures !Readable(data, TagAfter(data, start, from + m)) || TagAfter(data, start, from + m) >= m
    decreases m
  {
    if m > 0 {
      FarEnoughFrom(data, start, from, m - 1);
      MovesOn(data, TagAfter(data, start, from + m - 1));
      assert Moves(data, TagAfter(data, start, from + m - 1));
    }
  }

  /** While the scan moves on, every call ends, whatever it waits for. */
  lemma MovingCallEnds(data: seq<byte>, s: Scan, f: Format, stopper: Stopper, from: nat)
    requires |f.videoTag| == 2 && Tags(s.audio)
    requires forall j :: from <= j ==> Moves(data, TagAfter(data, s.next, j))
    ensures CallEnds(data, s, f, stopper, from)
  {
    hide Moves, TagAfter, Readable, Stops;
    FarEnoughFrom(data, s.next, from, |data|);
    TooFar(data, TagAfter(data, s.next, from + |data|));
    assert ExitsAt(data, s, f, stopper, from + |data|);
  }

  /** A chunk that takes up nothing, and does not make a call give up. */
  predicate Stuck(data: seq<byte>, at: nat, f: Format)
    requires |f.videoTag| == 2
  {
    Readable(data, at) && !IsList(data, at) && Padded(LengthAt(data, at)) == 0 && !GivesUp(data, at, f)
  }

  lemma StuckMeans(data: seq<byte>, at: nat, f: Format)
    requires |f.videoTag| == 2
    ensures Stuck(data, at, f) <==> !Moves(data, at) && !GivesUp(data, at, f)
  {
    if Readable(data, at) {
      PaddedMeaning(LengthAt(data, at));
    }
  }

  /** The frame that such a chunk adds, if it is one, for a given start of the chunk. */
  function StuckFrame(data: seq<byte>, at: nat, cur: nat, f: Format): (r: seq<VideoEntry>)
    requires |f.videoTag| == 2 && Stuck(data, at, f)
    ensures |r| == if IsTag(data[at..at + 8], f.videoTag) then 1 else 0
  {
    if IsTag(data[at..at + 8], f.videoTag)
    then [VideoEntry(cur + 8, Long(LengthAt(data, at)), FrameFlags(data, at + 8, f.codec))] else []
  }

  /** The frames that `m` turns on it add. */
  function Repeated(data: seq<byte>, at: nat, cur: nat, f: Format, m: nat): (r: seq<VideoEntry>)
    requires |f.videoTag| == 2 && Stuck(data, at, f)
    ensures |r| == if IsTag(data[at..at + 8], f.videoTag) then m else 0
  {
    if m == 0 then []
    else Repeated(data, at, cur, f, m - 1) + StuckFrame(data, at, if m == 1 then cur else at, f)
  }

  /** Every track that has the tag is `m` chunks longer, and the others are as long as they were. */
  ghost predicate TracksLonger(t: seq<Track>, u: seq<Track>, id: seq<byte>, m: nat)
    requires |id| >= 2 && Tags(t)
  {
    |u| == |t| && forall i :: 0 <= i < |t| ==> TrackLonger(t[i], u[i], id, m)
  }

  ghost predicate TrackLonger(t: Track, u: Track, id: seq<byte>, m: nat)
    requires |id| >= 2 && |t.tag| == 2
  {
    u.tag == t.tag && |u.chunks| == |t.chunks| + if IsTag(id, t.tag) then m else 0
  }

  lemma HeardLonger(t: seq<Track>, u: seq<Track>, id: seq<byte>, m: nat, pos: int, len: int)
    requires |id| >= 2 && Tags(t) && Tags(u) && TracksLonger(t, u, id, m)
    ensures TracksLonger(t, Heard(id, u, pos, len, |u|), id, m + 1)
  {
    var w := Heard(id, u, pos, len, |u|);
    forall i | 0 <= i < |t|
      ensures TrackLonger(t[i], w[i], id, m + 1)
    {
      assert TrackLonger(t[i], u[i], id, m);
    }
  }

  /** One turn on such a chunk. */
  lemma StuckTurn(data: seq<byte>, u: Scan, f: Format)
    requires |f.videoTag| == 2 && Tags(u.audio) && Stuck(data, u.next, f)
    ensures Turn(data, u, f)
         == Scan(u.next, u.next, u.video + StuckFrame(data, u.next, u.cur, f),
                 Heard(data[u.next..u.next + 8], u.audio, u.cur + 8, Long(LengthAt(data, u.next)), |u.audio|))
  {
    hide IsTag, FrameFlags, LengthAt, IsList, GivesUp, Padded, Heard;
    assert u.video + [] == u.video;
  }

  /** `u` is what `t` becomes in `m` turns on such a chunk. */
  ghost predicate Stalled(data: seq<byte>, t: Scan, u: Scan, f: Format, m: nat)
    requires |f.videoTag| == 2 && Tags(t.audio) && Stuck(data, t.next, f)
  {
    && u.next == t.next && u.cur == (if m == 0 then t.cur else t.next)
    && u.video == t.video + Repeated(data, t.next, t.cur, f, m)
    && TracksLonger(t.audio, u.audio, data[t.next..t.next + 8], m)
  }

  lemma StalledOnce(data: seq<byte>, t: Scan, u: Scan, f: Format, m: nat)
    requires |f.videoTag| == 2 && Tags(t.audio) && Tags(u.audio) && Stuck(data, t.next, f) && Stalled(data, t, u, f, m)
    ensures Stalled(data, t, Turn(data, u, f), f, m + 1)
  {
    hide Stuck, StuckFrame, IsTag, LengthAt, Turn, TracksLonger;
    StuckTurn(data, u, f);
    StuckReadable(data, t.next, f);
    HeardLonger(t.audio, u.audio, data[t.next..t.next + 8], m, u.cur + 8, Long(LengthAt(data, t.next)));
  }

  lemma StalledNotYet(data: seq<byte>, t: Scan, f: Format)
    requires |f.videoTag| == 2 && Tags(t.audio) && Stuck(data, t.next, f)
    ensures Stalled(data, t, t, f, 0)
  {
    hide IsTag;
    assert t.video + [] == t.video;
  }

  /** What the index looks like `m` turns after the scan has come to such a chunk. */
  lemma {:induction false} StalledScan(data: seq<byte>, s: Scan, f: Format, k: nat, m: nat)
    requires |f.videoTag| == 2 && Tags(s.audio) && Stuck(data, ScanAfter(data, s, f, k).next, f)
    ensures Stalled(data, ScanAfter(data, s, f, k), ScanAfter(data, s, f, k + m), f, m)
    decreases m
  {
    hide *;
    var t := ScanAfter(data, s, f, k);
    if m == 0 {
      StalledNotYet(data, t, f);
    } else {
      StalledScan(data, s, f, k, m - 1);
      OneTurnMore(data, s, f, k + (m - 1));
      StalledOnce(data, t, ScanAfter(data, s, f, k + (m - 1)), f, m - 1);
    }
  }

  lemma OneTurnMore(data: seq<byte>, s: Scan, f: Format, k: nat)
    requires |f.videoTag| == 2 && Tags(s.audio)
    ensures ScanAfter(data, s, f, k + 1) == Turn(data, ScanAfter(data, s, f, k), f)
  {
    hide Turn;
  }

  /** Among the entries that such a chunk adds again and again is one the stopper waits for. */
  ghost predicate Awaited(data: seq<byte>, t: Scan, f: Format, stopper: Stopper)
    requires |f.videoTag| == 2 && Tags(t.audio) && Stuck(data, t.next, f)
  {
    match stopper
    case VideoPos(_) => IsTag(data[t.next..t.next + 8], f.videoTag)
    case AudioPos(track, _) => track < |t.audio| && IsTag(data[t.next..t.next + 8], t.audio[track].tag)
    case StartPos(pos) => StuckKeyframe(data, t.next, f) && t.next + 8 >= pos
    case StartTime(late) => StuckKeyframe(data, t.next, f) && exists m :: m >= |t.video| && late(m)
  }

  predicate StuckKeyframe(data: seq<byte>, at: nat, f: Format)
    requires |f.videoTag| == 2 && Stuck(data, at, f)
  {
    IsTag(data[at..at + 8], f.videoTag) && FrameFlags(data, at + 8, f.codec) == AVIIF_KEYFRAME
  }

  /** All the frames added are of one kind. */
  lemma {:induction false} RepeatedKind(data: seq<byte>, at: nat, cur: nat, f: Format, m: nat)
    requires |f.videoTag| == 2 && Stuck(data, at, f)
    ensures forall e :: e in Repeated(data, at, cur, f, m) ==> e.Keyframe() == StuckKeyframe(data, at, f)
    ensures StuckKeyframe(data, at, f) && m > 0 ==>
      var r := Repeated(data, at, cur, f, m);
      |r| == m && r[m - 1].pos == (if m == 1 then cur else at) + 8
  {
    hide IsTag, Stuck, LengthAt, FrameFlags, StuckFrame, StuckKeyframe, VideoEntry.Keyframe;
    if m > 0 {
      RepeatedKind(data, at, cur, f, m - 1);
      StuckFrameKind(data, at, if m == 1 then cur else at, f);
    }
  }

  lemma StuckFrameKind(data: seq<byte>, at: nat, cur: nat, f: Format)
    requires |f.videoTag| == 2 && Stuck(data, at, f)
    ensures StuckFrame(data, at, cur, f) != [] ==>
      StuckFrame(data, at, cur, f)[0].Keyframe() == StuckKeyframe(data, at, f)
    ensures |StuckFrame(data, at, cur, f)| <= 1
    ensures StuckKeyframe(data, at, f) ==>
      |StuckFrame(data, at, cur, f)| == 1 && StuckFrame(data, at, cur, f)[0].pos == cur + 8
    ensures StuckKeyframe(data, at, f) ==> IsTag(data[at..at + 8], f.videoTag)
  {
    StuckReadable(data, at, f);
    if IsTag(data[at..at + 8], f.videoTag) {
      FlagsKind(data, at + 8, f.codec, cur + 8, Long(LengthAt(data, at)));
    }
    hide IsTag, Stuck, LengthAt, FrameFlags, VideoEntry.Keyframe;
  }

  lemma FlagsKind(data: seq<byte>, at: int, codec: Codec, pos: int, len: int)
    requires 4 <= at && at + 4 <= |data|
    ensures VideoEntry(pos, len, FrameFlags(data, at, codec)).Keyframe()
         <==> FrameFlags(data, at, codec) == AVIIF_KEYFRAME
  {
    hide BigWord, Bit;
  }

  /** A search for a keyframe from the end, over an index to which frames of one kind were added. */
  lemma {:induction false} KeyframeBehindAdded(stopper: Stopper, video: seq<VideoEntry>, more: seq<VideoEntry>,
                                               key: bool)
    requires !KeyframeBehind(stopper, video, |video|) && forall e :: e in more ==> e.Keyframe() == key
    ensures var all := video + more;
      KeyframeBehind(stopper, all, |all|) == (more != [] && key && Behind(stopper, all, |all| - 1))
    decreases |more|
  {
    var all := video + more;
    if more == [] {
      assert all == video;
    } else {
      var n := |more| - 1;
      var before := video + more[..n];
      KeyframeBehindAdded(stopper, video, more[..n], key);
      assert all == before + [more[n]] && all[..|before|] == before;
      KeyframeBehindPrefix(stopper, all, before, |before|);
      OneMoreFrame(stopper, before, more[n]);
      BehindWhereItIs(stopper, all, before);
    }
  }

  lemma OneMoreFrame(stopper: Stopper, before: seq<VideoEntry>, e: VideoEntry)
    ensures var video := before + [e];
      KeyframeBehind(stopper, video, |video|)
        == (Behind(stopper, video, |before|) && (e.Keyframe() || KeyframeBehind(stopper, video, |before|)))
  {
  }

  lemma BehindWhereItIs(stopper: Stopper, video: seq<VideoEntry>, before: seq<VideoEntry>)
    requires |before| < |video| && video[..|before|] == before
    ensures |before| > 0 ==> Behind(stopper, video, |before| - 1) == Behind(stopper, before, |before| - 1)
  {
  }

  lemma {:induction false} KeyframeBehindPrefix(stopper: Stopper, video: seq<VideoEntry>, before: seq<VideoEntry>,
                                                n: nat)
    requires n <= |before| <= |video| && video[..|before|] == before
    ensures KeyframeBehind(stopper, video, n) == KeyframeBehind(stopper, before, n)
  {
    if n > 0 {
      KeyframeBehindPrefix(stopper, video, before, n - 1);
      assert video[n - 1] == video[..|before|][n - 1];
    }
  }

  /** The index after `m` turns on such a chunk satisfies the stopper exactly if the last entry added does. */
  ghost predicate Satisfied(data: seq<byte>, t: Scan, f: Format, stopper: Stopper, m: nat)
    requires |f.videoTag| == 2 && Tags(t.audio) && Stuck(data, t.next, f)
  {
    && m > 0 && Awaited(data, t, f, stopper)
    && match stopper
       case VideoPos(posf) => posf < |t.video| + m
       case AudioPos(track, posc) => posc < |t.audio[track].chunks| + m
       case StartPos(pos) => (if m == 1 then t.cur else t.next) + 8 >= pos
       case StartTime(late) => late(|t.video| + m - 1)
  }

  lemma StopsWhenSatisfied(data: seq<byte>, t: Scan, u: Scan, f: Format, stopper: Stopper, m: nat)
    requires |f.videoTag| == 2 && Tags(t.audio) && t.cur <= t.next && Stuck(data, t.next, f)
    requires Stalled(data, t, u, f, m) && !Stops(stopper, t.video, t.audio)
    ensures Stops(stopper, u.video, u.audio) <==> Satisfied(data, t, f, stopper, m)
  {
    StuckReadable(data, t.next, f);
    hide IsTag, Stuck, Repeated, KeyframeBehind;
    match stopper {
      case VideoPos(posf) =>
      case AudioPos(track, posc) =>
        assert track < |t.audio| ==> TrackLonger(t.audio[track], u.audio[track], data[t.next..t.next + 8], m);
      case StartPos(pos) => KeyframeSatisfied(data, t, f, stopper, m);
      case StartTime(late) => KeyframeSatisfied(data, t, f, stopper, m);
    }
  }

  lemma KeyframeSatisfied(data: seq<byte>, t: Scan, f: Format, stopper: Stopper, m: nat)
    requires |f.videoTag| == 2 && Tags(t.audio) && Stuck(data, t.next, f) && t.cur <= t.next
    requires (stopper.StartPos? || stopper.StartTime?) && !Stops(stopper, t.video, t.audio)
    ensures var video := t.video + Repeated(data, t.next, t.cur, f, m);
      KeyframeBehind(stopper, video, |video|) <==> Satisfied(data, t, f, stopper, m)
  {
    hide Repeated, Stuck, StuckKeyframe, KeyframeBehind, VideoEntry.Keyframe, IsTag;
    RepeatedKind(data, t.next, t.cur, f, m);
    KeyframeBehindAdded(stopper, t.video, Repeated(data, t.next, t.cur, f, m), StuckKeyframe(data, t.next, f));
  }

  /** A call that comes to a chunk which takes up nothing ends exactly if it would have ended before or there, or if
      that chunk adds to the index what the call waits for. */
  lemma StalledCallEnds(data: seq<byte>, s: Scan, f: Format, stopper: Stopper, from: nat, k: nat)
    requires |f.videoTag| == 2 && Tags(s.audio) && s.cur == s.next && from <= k
    requires !Moves(data, ScanAfter(data, s, f, k).next)
    ensures CallEnds(data, s, f, stopper, from)
       <==> ((exists j :: from <= j <= k && ExitsAt(data, s, f, stopper, j))
             || (Stuck(data, ScanAfter(data, s, f, k).next, f) && Awaited(data, ScanAfter(data, s, f, k), f, stopper)))
  {
    hide ScanAfter, Moves, ExitsAt, Stuck, Awaited;
    if !ExitsAt(data, s, f, stopper, k) {
      StuckThere(data, s, f, stopper, k);
      if CallEnds(data, s, f, stopper, from) {
        var j :| from <= j && ExitsAt(data, s, f, stopper, j);
        if j > k {
          AwaitedIfLater(data, s, f, stopper, k, j - k);
        }
      }
      if Awaited(data, ScanAfter(data, s, f, k), f, stopper) {
        var m := LaterIfAwaited(data, s, f, stopper, k);
        assert ExitsAt(data, s, f, stopper, k + m);
      }
    }
  }

  lemma StuckThere(data: seq<byte>, s: Scan, f: Format, stopper: Stopper, k: nat)
    requires |f.videoTag| == 2 && Tags(s.audio)
    requires !Moves(data, ScanAfter(data, s, f, k).next) && !ExitsAt(data, s, f, stopper, k)
    ensures Stuck(data, ScanAfter(data, s, f, k).next, f)
  {
    hide ScanAfter, Moves, Stuck, Stops;
    StuckMeans(data, ScanAfter(data, s, f, k).next, f);
  }

  lemma AwaitedIfLater(data: seq<byte>, s: Scan, f: Format, stopper: Stopper, k: nat, m: nat)
    requires |f.videoTag| == 2 && Tags(s.audio) && s.cur == s.next && Stuck(data, ScanAfter(data, s, f, k).next, f)
    requires !ExitsAt(data, s, f, stopper, k) && ExitsAt(data, s, f, stopper, k + m)
    ensures Awaited(data, ScanAfter(data, s, f, k), f, stopper)
  {
    var t := ScanAfter(data, s, f, k);
    PositionIsOwnHere(data, s, f, k);
    hide ScanAfter, Stops, Stuck, Satisfied, Awaited, Readable, GivesUp;
    StalledStops(data, s, f, stopper, k, m);
    SatisfiedSometime(data, t, f, stopper, m);
  }

  lemma LaterIfAwaited(data: seq<byte>, s: Scan, f: Format, stopper: Stopper, k: nat) returns (m: nat)
    requires |f.videoTag| == 2 && Tags(s.audio) && s.cur == s.next && Stuck(data, ScanAfter(data, s, f, k).next, f)
    requires !ExitsAt(data, s, f, stopper, k) && Awaited(data, ScanAfter(data, s, f, k), f, stopper)
    ensures ExitsAt(data, s, f, stopper, k + m)
  {
    var t := ScanAfter(data, s, f, k);
    PositionIsOwnHere(data, s, f, k);
    hide ScanAfter, Stops, Stuck, Satisfied, Awaited, Readable, GivesUp;
    m := EnoughTurns(data, t, f, stopper);
    StalledStops(data, s, f, stopper, k, m);
  }

  lemma PositionIsOwnHere(data: seq<byte>, s: Scan, f: Format, k: nat)
    requires |f.videoTag| == 2 && Tags(s.audio) && s.cur == s.next
    ensures var t := ScanAfter(data, s, f, k);
      Readable(data, t.next) ==> t.cur <= t.next
  {
    if Readable(data, ScanAfter(data, s, f, k).next) {
      PositionIsOwn(data, s, f, k);
    }
  }

  lemma StalledStops(data: seq<byte>, s: Scan, f: Format, stopper: Stopper, k: nat, m: nat)
    requires |f.videoTag| == 2 && Tags(s.audio)
    requires var t := ScanAfter(data, s, f, k);
      Stuck(data, t.next, f) && t.cur <= t.next && !Stops(stopper, t.video, t.audio)
    ensures ExitsAt(data, s, f, stopper, k + m) <==> Satisfied(data, ScanAfter(data, s, f, k), f, stopper, m)
  {
    var t, u := ScanAfter(data, s, f, k), ScanAfter(data, s, f, k + m);
    StuckReadable(data, t.next, f);
    StalledScan(data, s, f, k, m);
    hide ScanAfter, Stops, Stuck, GivesUp, Readable, Satisfied, TracksLonger, Repeated;
    StopsWhenSatisfied(data, t, u, f, stopper, m);
  }

  lemma StuckReadable(data: seq<byte>, at: nat, f: Format)
    requires |f.videoTag| == 2
    ensures Stuck(data, at, f) ==> Readable(data, at) && !GivesUp(data, at, f)
    ensures !Readable(data, at) ==> Moves(data, at)
  {
  }

  lemma SatisfiedSometime(data: seq<byte>, t: Scan, f: Format, stopper: Stopper, m: nat)
    requires |f.videoTag| == 2 && Tags(t.audio) && Stuck(data, t.next, f)
    ensures Satisfied(data, t, f, stopper, m) ==> Awaited(data, t, f, stopper)
  {
  }

  lemma EnoughTurns(data: seq<byte>, t: Scan, f: Format, stopper: Stopper) returns (m: nat)
    requires |f.videoTag| == 2 && Tags(t.audio) && Stuck(data, t.next, f) && Awaited(data, t, f, stopper)
    ensures Satisfied(data, t, f, stopper, m)
  {
    match stopper {
      case VideoPos(posf) => m := posf + 1;
      case AudioPos(track, posc) => m := posc + 1;
      case StartPos(pos) => m := 2;
      case StartTime(late) =>
        var n :| n >= |t.video| && late(n);
        m := n - |t.video| + 1;
    }
  }

  // ----- the growing index -----

  class Indexer {
    const data: seq<byte>
    const format: Format
    var nextTagOffset: nat
    var video: seq<VideoEntry>
    var audio: seq<Track>
    /** the scan this index is part of, and how far it has come */
    ghost const start: Scan
    ghost var turns: nat

    ghost predicate Valid()
      reads this
    {
      && |format.videoTag| == 2 && Tags(start.audio) && start.cur == start.next && Tags(audio)
      && OnScan(nextTagOffset)
    }

    constructor (data: seq<byte>, format: Format, moviStart: nat, audio: seq<Track>)
      requires |format.videoTag| == 2 && Tags(audio)
      ensures Valid() && turns == 0 && this.data == data && this.format == format
      ensures start == Scan(moviStart, moviStart, [], audio)
    {
      this.data := data;
      this.format := format;
      nextTagOffset := moviStart;
      video := [];
      this.audio := audio;
      start := Scan(moviStart, moviStart, [], audio);
      turns := 0;
    }

    /** The fields and the local `cur` are where the scan is. */
    ghost predicate OnScan(cur: nat)
      requires |format.videoTag| == 2 && Tags(start.audio)
      reads this
    {
      var s := ScanAfter(data, start, format, turns);
      nextTagOffset == s.next && video == s.video && audio == s.audio && (cur == s.cur || !Readable(data, s.next))
    }

    ghost predicate StopsAfter(stopper: Stopper, k: nat)
      requires |format.videoTag| == 2 && Tags(start.audio)
    {
      var s := ScanAfter(data, start, format, k);
      Stops(stopper, s.video, s.audio)
    }

    lemma OneMore(k: nat)
      requires |format.videoTag| == 2 && Tags(start.audio)
      ensures ScanAfter(data, start, format, k + 1) == Turn(data, ScanAfter(data, start, format, k), format)
    {
    }

    /** `idx_grow`: it stops with the first turn that satisfies the stopper. It is called where it ends;
        `MovingCallEnds` and `StalledCallEnds` say when that is. */
    method IdxGrow(stopper: Stopper) returns (r: int)
      requires Valid() && CallEnds(data, start, format, stopper, turns)
      modifies this`nextTagOffset, this`video, this`audio, this`turns
      ensures Valid() && old(turns) <= turns
      ensures r == 1 || r == -1
      ensures r == 1 <==> Stops(stopper, video, audio)
      ensures r == 1 || !Readable(data, nextTagOffset)
        || (turns > old(turns) && GivesUp(data, TagAfter(data, start.next, turns - 1), format))
      ensures forall k :: old(turns) <= k < turns ==> !StopsAfter(stopper, k)
    {
      hide Turn, Stops, ScanAfter, TagAfter, NextTag, GivesUp, Readable;
      ghost var limit :| turns <= limit && ExitsAt(data, start, format, stopper, limit);
      var cur := nextTagOffset;
      while true
        invariant Tags(audio) && old(turns) <= turns <= limit && OnScan(cur)
        invariant cur != nextTagOffset ==> !Stops(stopper, video, audio)
        invariant forall k :: old(turns) <= k < turns ==> !StopsAfter(stopper, k)
        decreases limit - turns
      {
        r := Stopped(stopper, video, audio);
        if r >= 0 || !Readable(data, nextTagOffset) {
          return;
        }
        OneMore(turns);
        var goOn;
        cur, goOn := OneTurn(cur);
        turns := turns + 1;
        if !goOn {
          return;
        }
      }
    }

    /** The body of the loop, from a chunk header that could be read. */
    method OneTurn(cur: nat) returns (cur': nat, goOn: bool)
      requires |format.videoTag| == 2 && Tags(audio) && Readable(data, nextTagOffset)
      modifies this`nextTagOffset, this`video, this`audio
      ensures Tags(audio)
      ensures Scan(nextTagOffset, cur', video, audio)
           == Turn(data, Scan(old(nextTagOffset), cur, old(video), old(audio)), format)
      ensures goOn <==> !GivesUp(data, old(nextTagOffset), format)
      ensures goOn && cur' != nextTagOffset ==> video == old(video) && audio == old(audio)
      ensures !goOn ==> cur' == nextTagOffset && video == old(video) && audio == old(audio)
    {
      hide FrameFlags, Padded, LengthAt, Heard, Long;
      var at := nextTagOffset;
      var header := data[at..at + 8];
      if IsList(data, at) {
        nextTagOffset := at + 12;
        return cur, true;
      }
      var n := LengthAt(data, at);
      nextTagOffset := at + Padded(n);
      if IsTag(header, format.videoTag) {
        if at + 12 > |data| {
          return nextTagOffset, false;
        }
        video := video + [VideoEntry(cur + 8, Long(n), FrameFlags(data, at + 8, format.codec))];
      }
      Hear(header, cur + 8, Long(n));
      return nextTagOffset, true;
    }

    /** The loop over the audio streams. */
    method Hear(header: seq<byte>, pos: int, len: int)
      requires Tags(audio) && |header| >= 2
      modifies this`audio
      ensures Tags(audio) && audio == Heard(header, old(audio), pos, len, |old(audio)|)
    {
      ghost var before := audio;
      for i := 0 to |audio|
        invariant |audio| == |before| && audio == Heard(header, before, pos, len, i)
      {
        var t := audio[i];
        if IsTag(header, t.tag) {
          audio := audio[i := Appended(t, pos, len)];
        }
      }
    }

    /** Whatever calls came before, with whatever stoppers and on whatever file: what is there is the beginning of what
        one scan builds by any later turn, and its sums are right. */
    lemma PrefixOfWholeScan(j: nat, i: nat)
      requires Valid() && (turns <= j || !Readable(data, TagAfter(data, start.next, j)))
      requires i < |start.audio| && SumsRight(start.audio[i])
      ensures Extends(Scan(nextTagOffset, nextTagOffset, video, audio), ScanAfter(data, start, format, j))
      ensures i < |audio| && SumsRight(audio[i])
    {
      hide Turn, SumsRight;
      ScanKeepsSums(data, start, format, turns, i);
      if turns <= j {
        ScanExtends(data, start, format, turns, j);
      } else {
        AtEndForGood(data, start, format, j, turns);
      }
    }
  }
}
