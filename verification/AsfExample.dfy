/** One ASF packet from literal bytes: what is read of its header and of its payloads, a fragment and a group of two
    objects (src/demuxers/demux_asf.c:975-1486; section 5.2 of the ASF Specification). */
module AsfExample {
  import opened AsfDealing
  import opened AsfFragments
  import opened AsfPackets
  import opened AsfStream
  import opened Bytes

  /** Error correction data, flags, property flags, a length of two bytes, a sequence of one, padding of four, time and
      duration, and payload flags: two payloads with lengths of two bytes. */
  const HEADER: seq<byte> :=
    [0x82, 0, 0, 0x5B, 0x5D, 100, 0, 9, 0, 0, 0, 0, 1, 2, 3, 4, 5, 6, 0x82]

  /** Stream 1, a keyframe: number 7, offset 0, an object header of eight bytes with size 3 and time 1000, and three
      bytes of data. */
  const FRAGMENT: seq<byte> :=
    [0x81, 7, 0, 0, 0, 0, 8, 3, 0, 0, 0, 0xE8, 3, 0, 0, 3, 0, 0xAA, 0xBB, 0xCC]

  /** Stream 2: number 5, time 500, and objects of two bytes and of one. */
  const GROUP: seq<byte> :=
    [2, 5, 0xF4, 1, 0, 0, 1, 40, 5, 0, 2, 0xD1, 0xD2, 1, 0xE1]

  /** The bytes stand there. */
  ghost predicate There(data: seq<byte>, at: nat, bytes: seq<byte>) {
    at + |bytes| <= |data| && forall i :: 0 <= i < |bytes| ==> data[at + i] == bytes[i]
  }

  lemma OneByte(data: seq<byte>, at: nat, v: nat)
    requires at < |data|
    ensures StandsAt(data, at, 1, v) <==> v == data[at] as nat
  {
    assert data[at..at + 1] == [data[at]];
  }

  lemma TwoBytes(data: seq<byte>, at: nat, v: nat)
    requires at + 2 <= |data|
    ensures StandsAt(data, at, 2, v) <==> v == data[at] as nat + 256 * data[at + 1] as nat
  {
    assert data[at..at + 2] == [data[at], data[at + 1]];
    assert [data[at], data[at + 1]][1..] == [data[at + 1]];
    assert LittleEndian([data[at + 1]]) == data[at + 1] as nat;
  }

  lemma FourBytes(data: seq<byte>, at: nat, v: nat)
    requires at + 4 <= |data|
    ensures StandsAt(data, at, 4, v)
       <==> v == data[at] as nat + 256 * (data[at + 1] as nat + 256 * (data[at + 2] as nat + 256 * data[at + 3] as nat))
  {
    hide LittleEndian;
    var a, b, c, d := data[at], data[at + 1], data[at + 2], data[at + 3];
    assert data[at..at + 4] == [a, b, c, d];
    Spelled(a, b, c, d);
  }

  /** The header says what its bytes say. */
  lemma HeaderRead(d: Demuxer, start: nat)
    requires d.packetSize == 100 && There(d.input.data, start, HEADER) && d.HeaderAt(start)
    ensures d.packetFlags == 0x5B && d.segtype == 0x5D && d.dataSize == 100 && d.frameFlag == 0x82 && d.nbFrames == 2
    ensures d.FieldsFrom(start) + d.FieldsWidth() == start + 19
  {
    hide StandsAt, Width, Code;
    FlagsRead(d, start);
    Widths();
    var data, at := d.input.data, start + 3;
    var size, padding :| d.FieldsAt(at, size, padding);
    TwoBytes(data, at + 2, size);
    OneByte(data, at + 15, d.frameFlag);
    assert data[at + 2] == HEADER[5] && data[at + 3] == HEADER[6] && data[at + 15] == HEADER[18];
  }

  lemma FlagsRead(d: Demuxer, start: nat)
    requires There(d.input.data, start, HEADER) && d.HeaderAt(start)
    ensures d.FieldsFrom(start) == start + 3 && d.packetFlags == 0x5B && d.segtype == 0x5D
  {
    hide StandsAt, Width, Code;
    var data := d.input.data;
    assert data[start] == HEADER[0] && data[start + 3] == HEADER[3] && data[start + 4] == HEADER[4];
    var size, padding :| d.FieldsAt(d.FieldsFrom(start), size, padding);
    OneByte(data, start + 3, d.packetFlags);
    OneByte(data, start + 4, d.segtype);
  }

  /** The widths that the flags of this packet give. */
  lemma Widths()
    ensures Code(0x5B, 32) == 2 && Code(0x5B, 2) == 1 && Code(0x5B, 8) == 3
    ensures Code(0x82, 0x40) == 2 && Code(2, 0x40) == 0
    ensures Code(0x5D, 16) == 1 && Code(0x5D, 4) == 3 && Code(0x5D, 1) == 1
    ensures Width(0) == 0 && Width(1) == 1 && Width(2) == 2 && Width(3) == 4
  {
  }

  /** A payload as it was visited, which was not refused, in a file that was read without a short read. */
  ghost predicate Parsed(d: Demuxer, v: Visit)
    reads d
  {
    d.VisitRight(v, false) && !d.IsRefused(v)
  }

  /** Numbers of a payload header with the widths of this packet. */
  lemma CommonRead(d: Demuxer, at: nat, seqNo: nat, fragOffset: nat, rlen: nat)
    requires d.segtype == 0x5D && d.CommonAt(at, seqNo, fragOffset, rlen) && at + 6 <= |d.input.data|
    ensures var data := d.input.data;
      && seqNo == data[at] as nat && rlen == data[at + 5] as nat
      && StandsAt(data, at + 1, 4, fragOffset)
    ensures d.CommonWidth() == 6
  {
    Widths();
    hide StandsAt, Width, Code;
    OneByte(d.input.data, at, seqNo);
    OneByte(d.input.data, at + 5, rlen);
  }

  /** The length of a payload takes two bytes, whether the frame flags say so or do not say anything. */
  lemma LengthRead(d: Demuxer, h: Header, at: nat, left: nat, length: nat)
    requires d.packetFlags == 0x5B && (d.frameFlag == 0x82 || d.frameFlag == 2) && d.LengthAt(h, at, left, length)
    ensures d.LengthWidth() == 2 && StandsAt(d.input.data, at + if h.rlen == 1 then 1 else h.rlen, 2, length)
  {
    Widths();
    hide StandsAt, Width, Code;
    assert 0x5B % 2 == 1;
  }

  /** The flags byte that begins a packet is taken for valid if it announces no more than error correction data, or
      looks like the first byte of a header. */
  lemma ValidFlags(b: nat)
    requires b < 256
    ensures !FlagsInvalid(b) <==> b < 0x10 || 0x80 <= b < 0x90 || b == 0x30
  {
    var high, low := b / 0x10, b % 0x10;
    assert b == 0x10 * high + low && high < 16;
  }

  /** A payload is for the first stream with its number, if that is the one of the audio or video stream being played,
      and otherwise for none. */
  lemma PayloadIsFor(d: Demuxer, v: Visit)
    requires d.VisitRight(v, false)
    ensures if v.h.stream == null
      then v.rawId % 0x80 !in [d.audioStreamId, d.videoStreamId]
           || forall k :: 0 <= k < |d.streams| ==> d.streams[k].streamId != v.rawId % 0x80
      else v.rawId % 0x80 in [d.audioStreamId, d.videoStreamId]
           && exists k :: 0 <= k < |d.streams| && d.streams[k] == v.h.stream && d.streams[k].streamId == v.rawId % 0x80
                          && forall j :: 0 <= j < k ==> d.streams[j].streamId != v.rawId % 0x80
  {
    hide Demuxer.Holds, Demuxer.IsRefused, Demuxer.LengthAt, Demuxer.CommonAt, StandsAt;
    IsForMeans(d, v.h.stream, v.rawId % 0x80);
  }

  lemma IsForMeans(d: Demuxer, stream: Stream?, id: nat)
    requires d.IsFor(stream, id)
    ensures if stream == null
      then id !in [d.audioStreamId, d.videoStreamId] || forall k :: 0 <= k < |d.streams| ==> d.streams[k].streamId != id
      else id in [d.audioStreamId, d.videoStreamId]
           && exists k :: 0 <= k < |d.streams| && d.streams[k] == stream && d.streams[k].streamId == id
                          && forall j :: 0 <= j < k ==> d.streams[j].streamId != id
  {
    assert id in [d.audioStreamId, d.videoStreamId] <==> id == d.audioStreamId || id == d.videoStreamId;
    if stream == null {
      assert forall k :: 0 <= k < |d.streams| ==> !d.Selected(d.streams[k], id);
    } else {
      var k :| 0 <= k < |d.streams| && d.streams[k] == stream && d.IsFirst(k, id);
      assert forall j :: 0 <= j < k ==> !d.Selected(d.streams[j], id);
    }
  }

  /** The fragment: numbers, object size, time and length are those that stand there, and the next payload comes right
      behind. */
  lemma FragmentRead(d: Demuxer, v: Visit)
    requires d.packetFlags == 0x5B && d.segtype == 0x5D && (d.frameFlag == 0x82 || d.frameFlag == 2)
    requires There(d.input.data, v.at, FRAGMENT) && Parsed(d, v)
    ensures v.rawId == 0x81 && v.h.seqNo == 7 && v.h.fragOffset == 0 && v.h.rlen == 8 && v.length == 3
    ensures |v.offers| == 1 && |v.offers[0].data| == 3
    ensures v.offers[0] == Fragment(0, 7, 1000, v.offers[0].data, 3, v.at + 17)
    ensures v.next + v.missed == v.at + 20
  {
    var at := v.at;
    FragmentNumbers(d, v);
    FragmentLength(d, v);
    assert |v.offers| == 1 && d.FragmentOf(v.offers[0], v.h, at + 7, 3, false);
    hide Demuxer.VisitRight, Demuxer.FragmentOf, Demuxer.IsRefused, There;
    ObjectRead(d, v.offers[0], v.h, at + 7);
  }

  lemma FragmentLength(d: Demuxer, v: Visit)
    requires d.packetFlags == 0x5B && d.segtype == 0x5D && (d.frameFlag == 0x82 || d.frameFlag == 2)
    requires There(d.input.data, v.at, FRAGMENT) && Parsed(d, v) && v.h.rlen == 8 && d.CommonWidth() == 6
    ensures v.length == 3 && d.LengthWidth() == 2
  {
    hide StandsAt, Width, Code, Demuxer.Holds, Demuxer.CommonAt, Demuxer.CommonWidth;
    var data, at := d.input.data, v.at;
    LengthRead(d, v.h, at + 7, U32(v.left - 6), v.length);
    TwoBytes(data, at + 15, v.length);
    assert data[at + 15] == FRAGMENT[15] && data[at + 16] == FRAGMENT[16];
  }

  lemma ObjectRead(d: Demuxer, f: Fragment, h: Header, at: nat)
    requires h.seqNo == 7 && h.fragOffset == 0 && h.rlen == 8 && d.LengthWidth() == 2
    requires d.NumberAt(at) == 3 && d.NumberAt(at + 4) == 1000 && d.FragmentOf(f, h, at, 3, false)
    ensures f == Fragment(0, 7, 1000, f.data, 3, at + 10) && |f.data| == 3
  {
    hide Demuxer.NumberAt, Demuxer.LengthWidth;
  }

  lemma FragmentNumbers(d: Demuxer, v: Visit)
    requires d.packetFlags == 0x5B && d.segtype == 0x5D && (d.frameFlag == 0x82 || d.frameFlag == 2)
    requires There(d.input.data, v.at, FRAGMENT) && Parsed(d, v)
    ensures v.rawId == 0x81 && v.h.seqNo == 7 && v.h.fragOffset == 0 && v.h.rlen == 8 && d.CommonWidth() == 6
    ensures d.NumberAt(v.at + 7) == 3 && d.NumberAt(v.at + 11) == 1000
  {
    hide StandsAt, LittleEndian, There;
    var data, at := d.input.data, v.at;
    FragmentBytes(data, at);
    OneByte(data, at, v.rawId);
    CommonRead(d, at + 1, v.h.seqNo, v.h.fragOffset, v.h.rlen);
    FourBytes(data, at + 2, v.h.fragOffset);
    NumberRead(d, at + 7, 3, 0);
    NumberRead(d, at + 11, 0xE8, 3);
  }

  lemma FragmentBytes(data: seq<byte>, at: nat)
    requires There(data, at, FRAGMENT)
    ensures at + 20 <= |data| && data[at] as nat == 0x81 && data[at + 1] as nat == 7 && data[at + 6] as nat == 8
    ensures data[at + 2] as nat == 0 && data[at + 3] as nat == 0 && data[at + 4] as nat == 0 && data[at + 5] as nat == 0
    ensures data[at + 7] as nat == 3 && data[at + 8] as nat == 0
    ensures data[at + 9] as nat == 0 && data[at + 10] as nat == 0
    ensures data[at + 11] as nat == 0xE8 && data[at + 12] as nat == 3
    ensures data[at + 13] as nat == 0 && data[at + 14] as nat == 0
  {
    assert data[at + 0] == FRAGMENT[0] && data[at + 1] == FRAGMENT[1] && data[at + 6] == FRAGMENT[6];
    assert data[at + 2] == FRAGMENT[2] && data[at + 3] == FRAGMENT[3];
    assert data[at + 4] == FRAGMENT[4] && data[at + 5] == FRAGMENT[5];
    assert data[at + 7] == FRAGMENT[7] && data[at + 8] == FRAGMENT[8];
    assert data[at + 9] == FRAGMENT[9] && data[at + 10] == FRAGMENT[10];
    assert data[at + 11] == FRAGMENT[11] && data[at + 12] == FRAGMENT[12];
    assert data[at + 13] == FRAGMENT[13] && data[at + 14] == FRAGMENT[14];
  }

  lemma NumberRead(d: Demuxer, at: nat, low: nat, high: nat)
    requires at + 4 <= |d.input.data| && d.input.data[at] as nat == low && d.input.data[at + 1] as nat == high
    requires d.input.data[at + 2] as nat == 0 && d.input.data[at + 3] as nat == 0
    ensures d.NumberAt(at) == low + 256 * high
  {
    hide LittleEndian;
    FourBytesSpell(d.input.data, at, low, high);
  }

  lemma FourBytesSpell(data: seq<byte>, at: nat, low: nat, high: nat)
    requires at + 4 <= |data| && data[at] as nat == low && data[at + 1] as nat == high
    requires data[at + 2] as nat == 0 && data[at + 3] as nat == 0
    ensures LittleEndian(data[at..at + 4]) == low + 256 * high
  {
    hide LittleEndian;
    Spelled(data[at], data[at + 1], data[at + 2], data[at + 3]);
    assert data[at..at + 4] == [data[at], data[at + 1], data[at + 2], data[at + 3]];
  }

  lemma GroupNumbers(d: Demuxer, v: Visit)
    requires d.packetFlags == 0x5B && d.segtype == 0x5D && (d.frameFlag == 0x82 || d.frameFlag == 2)
    requires There(d.input.data, v.at, GROUP) && Parsed(d, v)
    ensures v.rawId == 2 && v.h.seqNo == 5 && v.h.fragOffset == 500 && v.h.rlen == 1 && d.CommonWidth() == 6
  {
    hide StandsAt, LittleEndian;
    var data, at := d.input.data, v.at;
    assert data[at] == GROUP[0] && data[at + 1] == GROUP[1] && data[at + 6] == GROUP[6];
    assert data[at + 2] == GROUP[2] && data[at + 3] == GROUP[3];
    assert data[at + 4] == GROUP[4] && data[at + 5] == GROUP[5];
    OneByte(data, at, v.rawId);
    CommonRead(d, at + 1, v.h.seqNo, v.h.fragOffset, v.h.rlen);
    FourBytes(data, at + 2, v.h.fragOffset);
  }

  /** The group: both objects whole, with numbers 5 and 6, and the time on the first only. */
  lemma GroupRead(d: Demuxer, v: Visit)
    requires d.packetFlags == 0x5B && d.segtype == 0x5D && (d.frameFlag == 0x82 || d.frameFlag == 2)
    requires There(d.input.data, v.at, GROUP) && Parsed(d, v)
    ensures v.rawId == 2 && v.h.seqNo == 5 && v.h.rlen == 1 && v.length == 5
    ensures |v.offers| == 2 && |v.offers[0].data| == 2 && |v.offers[1].data| == 1
    ensures v.offers[0] == Fragment(0, 5, 500, v.offers[0].data, 2, v.at + 11)
    ensures v.offers[1] == Fragment(0, 6, 0, v.offers[1].data, 1, v.at + 14)
    ensures v.next + v.missed == v.at + 15
  {
    hide StandsAt, Width, Code;
    var data, at := d.input.data, v.at;
    GroupNumbers(d, v);
    LengthRead(d, v.h, at + 7, U32(v.left - 6), v.length);
    TwoBytes(data, at + 8, v.length);
    assert data[at + 8] == GROUP[8] && data[at + 9] == GROUP[9];
    assert d.Exhausts(v.offers, 5) && d.AllLaid(v.offers, 5, 500, at + 10, false);
    ObjectsRead(d, at, v.offers);
  }

  lemma ObjectsRead(d: Demuxer, at: nat, offers: seq<Fragment>)
    requires There(d.input.data, at, GROUP)
    requires d.Exhausts(offers, 5) && d.AllLaid(offers, 5, 500, at + 10, false)
    ensures |offers| == 2 && |offers[0].data| == 2 && |offers[1].data| == 1 && d.Spanned(offers) == 5
    ensures offers[0] == Fragment(0, 5, 500, offers[0].data, 2, at + 11)
    ensures offers[1] == Fragment(0, 6, 0, offers[1].data, 1, at + 14)
  {
    var data := d.input.data;
    assert data[at + 10] == GROUP[10] && data[at + 13] == GROUP[13];
    assert d.Spanned([]) == 0;
    hide StandsAt, U32, Signed, There;
    assert offers != [];
    assert offers[..0] == [] && offers[..|offers|] == offers;
    FirstObject(d, at, offers);
    SpannedOf(d, offers, 1);
    assert |offers| > 1;
    SecondObject(d, at, offers);
    SpannedOf(d, offers, 2);
    if |offers| > 2 {
      SpannedGrows(d, offers, 2, |offers| - 1);
    }
  }

  lemma FirstObject(d: Demuxer, at: nat, offers: seq<Fragment>)
    requires |offers| > 0 && d.Laid(offers, 0, 5, 500, at + 10, false)
    requires at + 15 <= |d.input.data| && d.input.data[at + 10] as nat == 2 && d.Spanned(offers[..0]) == 0
    ensures |offers[0].data| == 2 && offers[0] == Fragment(0, 5, 500, offers[0].data, 2, at + 11)
  {
    hide StandsAt;
    OneByte(d.input.data, at + 10, |offers[0].data|);
  }

  lemma SecondObject(d: Demuxer, at: nat, offers: seq<Fragment>)
    requires |offers| > 1 && d.Laid(offers, 1, 5, 500, at + 10, false)
    requires at + 15 <= |d.input.data| && d.input.data[at + 13] as nat == 1 && d.Spanned(offers[..1]) == 3
    ensures |offers[1].data| == 1 && offers[1] == Fragment(0, 6, 0, offers[1].data, 1, at + 14)
  {
    hide StandsAt;
    OneByte(d.input.data, at + 13, |offers[1].data|);
  }

  lemma SpannedOf(d: Demuxer, offers: seq<Fragment>, n: nat)
    requires 0 < n <= |offers|
    ensures d.Spanned(offers[..n]) == d.Spanned(offers[..n - 1]) + |offers[n - 1].data| + 1
  {
    assert offers[..n][..n - 1] == offers[..n - 1];
  }

  lemma {:induction false} SpannedGrows(d: Demuxer, offers: seq<Fragment>, k: nat, n: nat)
    requires k <= n <= |offers|
    ensures d.Spanned(offers[..k]) <= d.Spanned(offers[..n])
    decreases n
  {
    if k < n {
      SpannedGrows(d, offers, k, n - 1);
      SpannedOf(d, offers, n);
    }
  }
}
