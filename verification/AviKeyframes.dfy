/** How the index of an AVI file tells keyframes from other frames, in terms of the bytes of the file
    (src/demuxers/demux_avi.c:475-502). */
module AviKeyframes {
  import opened Arithmetic
  import opened AviIndex
  import opened Bytes

  /** The frame that stands at `at` is a keyframe. MS-MPEG-4 tells by a bit of the first byte, its first version by one
      of the fifth, or of the first again if the file ends there; MPEG-4 by the start code of a frame that is none. */
  predicate BeginsKeyframe(data: seq<byte>, at: nat, codec: Codec)
    requires at + 4 <= |data|
  {
    match codec
    case MsMpeg4V1 => (if at + 4 < |data| then data[at + 4] else data[at]) as nat / 2 % 2 == 0
    case MsMpeg4V2 => data[at] as nat / 64 % 2 == 0
    case MsMpeg4V3 => data[at] as nat / 64 % 2 == 0
    case DivX5 => data[at..at + 4] != [0x00, 0x00, 0x01, 0xB6]
    case Mpeg4 => data[at..at + 4] != [0x00, 0x00, 0x01, 0xB6]
    case Xvid => data[at..at + 4] != [0x00, 0x00, 0x01, 0xB6]
    case Other => true
  }

  /** What the keyframe tests find in a word, in terms of its bytes. */
  ghost predicate Tells(w: nat, a: nat, b: nat, c: nat, d: nat) {
    && (Bit(w, 0x4000_0000) <==> a / 64 % 2 == 1)
    && (Bit(w * 32 % WORD, 0x4000_0000) <==> a / 2 % 2 == 1)
    && (w == 0x1B6 <==> a == 0 && b == 0 && c == 1 && d == 0xB6)
  }

  lemma FirstByte(a: nat, b: nat, c: nat, d: nat)
    requires a < 256 && b < 256 && c < 256 && d < 256
    ensures Tells(a * 0x100_0000 + b * 0x1_0000 + c * 0x100 + d, a, b, c, d)
  {
    var w := a * 0x100_0000 + b * 0x1_0000 + c * 0x100 + d;
    var rest := b * 0x1_0000 + c * 0x100 + d;
    RemainderIs(w, a / 64, a % 64 * 0x100_0000 + rest, 0x4000_0000);
    ShiftedLeft(a, rest);
  }

  lemma ShiftedLeft(a: nat, rest: nat)
    requires a < 256 && rest < 0x100_0000
    ensures Bit((a * 0x100_0000 + rest) * 32 % WORD, 0x4000_0000) <==> a / 2 % 2 == 1
  {
    var low := a % 8;
    var shifted := low * 0x2000_0000 + rest * 32;
    RemainderIs((a * 0x100_0000 + rest) * 32, a / 8, shifted, WORD);
    RemainderIs(shifted, low / 2, low % 2 * 0x2000_0000 + rest * 32, 0x4000_0000);
  }

  lemma WordRead(data: seq<byte>, at: nat)
    requires 4 <= at <= |data|
    ensures var b := FourRead(data, at);
      Tells(BigWord(data, at), b[0] as nat, b[1] as nat, b[2] as nat, b[3] as nat)
  {
    hide Tells, FourRead;
    var b := FourRead(data, at);
    FirstByte(b[0] as nat, b[1] as nat, b[2] as nat, b[3] as nat);
  }

  /** The flags recorded for a frame say what its bytes say. */
  lemma FlagsMean(data: seq<byte>, at: nat, codec: Codec)
    requires 4 <= at && at + 4 <= |data|
    ensures FrameFlags(data, at, codec) == if BeginsKeyframe(data, at, codec) then AVIIF_KEYFRAME else 0
  {
    hide BigWord, Bit;
    WordRead(data, at);
    WordRead(data, at + 4);
    FourBytesAre(data, at);
    FourReadAre(data, at);
    hide FourRead;
  }

  lemma FourReadAre(data: seq<byte>, at: nat)
    requires 4 <= at && at + 4 <= |data|
    ensures FourRead(data, at) == data[at..at + 4]
    ensures FourRead(data, at + 4)[0] == if at + 4 < |data| then data[at + 4] else data[at]
  {
  }

  lemma FourBytesAre(data: seq<byte>, at: nat)
    requires at + 4 <= |data|
    ensures data[at..at + 4] == [0x00, 0x00, 0x01, 0xB6]
       <==> data[at] as nat == 0 && data[at + 1] as nat == 0 && data[at + 2] as nat == 1 && data[at + 3] as nat == 0xB6
  {
    assert data[at..at + 4] == [data[at], data[at + 1], data[at + 2], data[at + 3]];
  }

  /** A chunk of the video stream whose first four bytes are there. */
  predicate FrameAt(data: seq<byte>, at: nat, f: Format)
    requires |f.videoTag| == 2
  {
    && Readable(data, at) && !IsList(data, at) && at + 12 <= |data|
    && data[at] == f.videoTag[0] && data[at + 1] == f.videoTag[1]
  }

  /** The frame that stands there, if there is one, and nothing else was entered: with its length and its kind. */
  ghost predicate Entered(data: seq<byte>, at: nat, f: Format, before: seq<VideoEntry>, after: seq<VideoEntry>)
    requires |f.videoTag| == 2
  {
    if FrameAt(data, at, f) then
      |after| == |before| + 1 && after[..|before|] == before && after[|before|].len == Long(LengthAt(data, at))
      && (after[|before|].Keyframe() <==> BeginsKeyframe(data, at + 8, f.codec))
    else after == before
  }

  /** Each turn of the scan enters the frame it comes to. */
  lemma FrameEntered(data: seq<byte>, s: Scan, f: Format, k: nat)
    requires |f.videoTag| == 2 && Tags(s.audio) && k > 0
    ensures Entered(data, TagAfter(data, s.next, k - 1), f, ScanAfter(data, s, f, k - 1).video,
                    ScanAfter(data, s, f, k).video)
  {
    hide Entered, Turn, TagAfter;
    TurnEnters(data, ScanAfter(data, s, f, k - 1), f);
  }

  lemma TurnEnters(data: seq<byte>, s: Scan, f: Format)
    requires |f.videoTag| == 2 && Tags(s.audio)
    ensures Entered(data, s.next, f, s.video, Turn(data, s, f).video)
  {
    hide BeginsKeyframe, FrameFlags, IsList, Heard, Padded, LengthAt, Long;
    if Readable(data, s.next) {
      var id := data[s.next..s.next + 8];
      assert id[0] == data[s.next] && id[1] == data[s.next + 1];
      if FrameAt(data, s.next, f) {
        FlagsMean(data, s.next + 8, f.codec);
      }
    }
  }

  /** Frame `i` of the index is the one that stands at `at`, and is marked as a keyframe exactly if its bytes say so. */
  ghost predicate Marked(data: seq<byte>, at: nat, f: Format, video: seq<VideoEntry>, i: nat)
    requires |f.videoTag| == 2
  {
    i < |video| && FrameAt(data, at, f) && (video[i].Keyframe() <==> BeginsKeyframe(data, at + 8, f.codec))
  }

  lemma EnteredLast(data: seq<byte>, at: nat, f: Format, before: seq<VideoEntry>, after: seq<VideoEntry>, i: nat,
                    of: nat)
    requires |f.videoTag| == 2 && Entered(data, at, f, before, after) && i < |after|
    ensures if i < |before| then Marked(data, of, f, before, i) ==> Marked(data, of, f, after, i)
            else i == |before| && Marked(data, at, f, after, i)
  {
    hide BeginsKeyframe, LengthAt, Long, IsList;
    assert i < |before| ==> after[..|before|][i] == after[i];
  }

  /** Every frame of the index was entered by some turn of the scan, and its mark is right. */
  lemma {:induction false} KeyframesAreTold(data: seq<byte>, s: Scan, f: Format, k: nat, i: nat) returns (m: nat)
    requires |f.videoTag| == 2 && Tags(s.audio) && |s.video| <= i < |ScanAfter(data, s, f, k).video|
    ensures m < k && |ScanAfter(data, s, f, m).video| == i
    ensures Marked(data, TagAfter(data, s.next, m), f, ScanAfter(data, s, f, k).video, i)
  {
    hide Marked, Entered, TagAfter, Turn;
    if k > 0 {
      FrameEntered(data, s, f, k);
      var at, before, after := TagAfter(data, s.next, k - 1), ScanAfter(data, s, f, k - 1).video,
                               ScanAfter(data, s, f, k).video;
      if i < |before| {
        m := KeyframesAreTold(data, s, f, k - 1, i);
        EnteredLast(data, at, f, before, after, i, TagAfter(data, s.next, m));
      } else {
        m := k - 1;
        EnteredLast(data, at, f, before, after, i, 0);
      }
    }
  }

  // ----- concrete frames -----

  /** A file of one chunk with the tag 00dc. */
  function OneFrame(n: byte, frame: seq<byte>): seq<byte> {
    [0x30, 0x30, 0x64, 0x63, n, 0, 0, 0] + frame
  }

  ghost predicate Told(n: byte, frame: seq<byte>, codec: Codec, flags: int) {
    ScanAfter(OneFrame(n, frame), Scan(0, 0, [], []), Format([0x30, 0x30], codec), 1).video
      == [VideoEntry(8, |frame|, flags)]
  }

  lemma HeaderOfFrame(n: byte, frame: seq<byte>)
    ensures var data := OneFrame(n, frame);
      && |data| == 8 + |frame| && data[8..] == frame
      && data[0] == 0x30 && data[1] == 0x30 && data[4] == n && data[5] == 0 && data[6] == 0 && data[7] == 0
  {
  }

  lemma ChunkOf(data: seq<byte>, n: byte)
    requires |data| >= 8
    requires data[0] == 0x30 && data[4] == n && data[5] == 0 && data[6] == 0 && data[7] == 0
    ensures !IsList(data, 0) && LengthAt(data, 0) == n as nat
  {
    assert Lower(data[0 + 0]) != LIST[0] && Lower(data[0 + 0]) != RIFF[0];
    hide LittleEndian, Lower;
    assert data[0 + 4..0 + 8] == [n, 0, 0, 0];
    Spelled(n, 0, 0, 0);
  }

  lemma FrameIsTold(n: byte, frame: seq<byte>, codec: Codec)
    requires 4 <= |frame| == n as nat
    ensures Told(n, frame, codec, if BeginsKeyframe(frame, 0, codec) then 0x10 else 0)
  {
    var data := OneFrame(n, frame);
    HeaderOfFrame(n, frame);
    ChunkOf(data, n);
    FlagsMean(data, 8, codec);
    SameKind(data, frame, codec);
    hide OneFrame, LengthAt, FrameFlags, BeginsKeyframe, IsList, Turn;
    var s, f := Scan(0, 0, [], []), Format([0x30, 0x30], codec);
    assert ScanAfter(data, s, f, 0) == s;
    assert ScanAfter(data, s, f, 1) == Turn(data, s, f);
    FirstTurn(data, n, codec);
  }

  lemma FirstTurn(data: seq<byte>, n: byte, codec: Codec)
    requires |data| == 8 + n as nat >= 12 && !IsList(data, 0) && LengthAt(data, 0) == n as nat
    requires data[0] == 0x30 && data[1] == 0x30
    ensures Turn(data, Scan(0, 0, [], []), Format([0x30, 0x30], codec)).video
         == [VideoEntry(8, n as int, FrameFlags(data, 8, codec))]
  {
    hide LengthAt, FrameFlags, IsList, Padded, Heard;
    assert data[0..8][0] == data[0] && data[0..8][1] == data[1];
  }

  lemma SameKind(data: seq<byte>, frame: seq<byte>, codec: Codec)
    requires |data| == 8 + |frame| && data[8..] == frame && |frame| >= 4
    ensures BeginsKeyframe(data, 8, codec) <==> BeginsKeyframe(frame, 0, codec)
  {
    forall i | 0 <= i < |frame|
      ensures data[8 + i] == frame[i]
    {
      assert data[8..][i] == data[8 + i];
    }
    assert data[8..8 + 4] == frame[0..0 + 4];
  }

  /** One frame of each kind, with 0x10 for a keyframe. */
  lemma KeyframeExamples()
    ensures Told(4, [0x00, 0, 0, 0], MsMpeg4V3, 0x10) && Told(4, [0x40, 0, 0, 0], MsMpeg4V3, 0)
    ensures Told(4, [0xBF, 0, 0, 0], MsMpeg4V2, 0x10) && Told(4, [0xC0, 0, 0, 0], MsMpeg4V2, 0)
    ensures Told(5, [0xFF, 0, 0, 0, 0xFD], MsMpeg4V1, 0x10) && Told(5, [0, 0, 0, 0, 0x02], MsMpeg4V1, 0)
    ensures Told(4, [0xFD, 0, 0, 0], MsMpeg4V1, 0x10) && Told(4, [0x02, 0, 0, 0], MsMpeg4V1, 0)
    ensures Told(4, [0, 0, 1, 0xB6], Other, 0x10)
  {
    hide Told;
    FrameIsTold(4, [0x00, 0, 0, 0], MsMpeg4V3);
    FrameIsTold(4, [0x40, 0, 0, 0], MsMpeg4V3);
    FrameIsTold(4, [0xBF, 0, 0, 0], MsMpeg4V2);
    FrameIsTold(4, [0xC0, 0, 0, 0], MsMpeg4V2);
    FrameIsTold(5, [0xFF, 0, 0, 0, 0xFD], MsMpeg4V1);
    FrameIsTold(5, [0, 0, 0, 0, 0x02], MsMpeg4V1);
    FrameIsTold(4, [0xFD, 0, 0, 0], MsMpeg4V1);
    FrameIsTold(4, [0x02, 0, 0, 0], MsMpeg4V1);
    FrameIsTold(4, [0, 0, 1, 0xB6], Other);
  }

  lemma Mpeg4Examples(codec: Codec)
    requires codec == DivX5 || codec == Mpeg4 || codec == Xvid
    ensures Told(4, [0, 0, 1, 0xB5], codec, 0x10) && Told(4, [0, 0, 1, 0xB6], codec, 0)
  {
    hide Told;
    var key: seq<byte>, delta: seq<byte> := [0, 0, 1, 0xB5], [0, 0, 1, 0xB6];
    FrameIsTold(4, key, codec);
    FrameIsTold(4, delta, codec);
    assert key[0..0 + 4] == key && delta[0..0 + 4] == delta && key[3] != delta[3];
  }
}
