/** Packets and payloads of an ASF file (src/demuxers/demux_asf.c:975-1486, 1787-1799): where packet headers are
    parsed, and that the bytes taken from the input are the bytes taken from the packet. */
module AsfPackets {
  import opened Arithmetic
  import opened Bytes
  import opened AsfDealing
  import opened AsfFragments
  import opened AsfJournal
  import opened AsfStream

  // ----- alignment -----

  /** The first packet start at or after `pos`. */
  function NextStart(pos: nat, first: nat, size: nat): nat
    requires size > 0 && first <= pos
  {
    var mod := (pos - first) % size;
    pos + if mod != 0 then size - mod else 0
  }

  predicate Aligned(pos: int, first: int, size: nat)
    requires size > 0
  {
    (pos - first) % size == 0
  }

  lemma NextStartIsNext(pos: nat, first: nat, size: nat)
    requires size > 0 && first <= pos
    ensures var s := NextStart(pos, first, size);
      Aligned(s, first, size) && pos <= s < pos + size && forall p :: pos <= p < s ==> !Aligned(p, first, size)
  {
    var d, q := pos - first, (pos - first) / size;
    var s := NextStart(pos, first, size);
    assert d == q * size + d % size && (q + 1) * size == q * size + size;
    RemainderIs(s - first, if d % size != 0 then q + 1 else q, 0, size);
    forall p | pos <= p < s
      ensures !Aligned(p, first, size)
    {
      RemainderIs(p - first, q, d % size + (p - pos), size);
    }
  }

  lemma NoneBetween(start: int, p: int, first: int, size: nat)
    requires size > 0 && Aligned(start, first, size) && start < p < start + size
    ensures !Aligned(p, first, size)
  {
    var q := (start - first) / size;
    assert start - first == q * size;
    RemainderIs(p - first, q, p - start, size);
  }

  /** Skipping the rest of a packet of which `taken` bytes were read lands on the next start, exactly unless more was
      read than the packet is long: then the unsigned difference wraps around. */
  lemma SkipLands(start: int, first: int, size: nat, taken: nat)
    requires 0 < size < WORD && taken <= 16
    ensures Aligned(start, first, size) ==>
      (Aligned(start + taken + U32(size - taken), first, size) <==> taken <= size || WORD % size == 0)
    ensures taken <= size ==> start + taken + U32(size - taken) == start + size
  {
    AddMultiple(start - first, 1, size);
    if taken <= size {
      RemainderIs(size - taken, 0, size - taken, WORD);
    } else {
      RemainderIs(size - taken, -1, size - taken + WORD, WORD);
      if Aligned(start, first, size) {
        AddRemainders(start + size - first, WORD, size);
      }
    }
  }

  /** A packet shorter than what was read of it, after which the search goes on off the grid. */
  lemma SkipMisses()
    ensures Aligned(0, 0, 3) && !Aligned(0 + 16 + U32(3 - 16), 0, 3)
  {
    RemainderIs(3 - 16, -1, 3 - 16 + WORD, WORD);
  }

  // ----- accounting -----

  /** The quantity that parsing keeps: the position plus the bytes left in the packet, modulo the word size. */
  function Balance(pos: nat, left: nat): nat {
    U32(pos + left)
  }

  lemma BalanceKept(pos: nat, left: nat, n: nat)
    ensures Balance(pos + n, U32(left - n)) == Balance(pos, left)
  {
  }

  lemma BalanceMoved(p: nat, l: nat, p': nat, l': nat, n: nat)
    ensures Balance(p, l) == Balance(p', l') ==> Balance(p + n, l) == Balance(p' + n, l')
  {
  }

  lemma HeaderBalance(start: nat, size: nat, hdr: nat, slack: nat)
    ensures Balance(start + hdr + slack, U32(size - hdr)) == U32(start + size + slack)
  {
  }

  // ----- the parser -----

  /** `Parsed` is the source's 0, `Refused` its 1. `NewHeader`: a whole ASF header stands where a packet was expected,
      and the source starts over with it. `TooLong`: a length of 2 GiB or more, which the source would pass on as a
      negative number. */
  datatype Outcome = Parsed | Refused | NewHeader | TooLong

  /** The number of `n` bytes at a position. */
  ghost predicate StandsAt(data: seq<byte>, at: nat, n: nat, v: nat) {
    if n == 0 then v == 0 else at + n <= |data| && v == LittleEndian(data[at..at + n])
  }

  const HEADER_GUID: seq<byte> :=
    [0x30, 0x26, 0xB2, 0x75, 0x8E, 0x66, 0xCF, 0x11, 0xA6, 0xD9, 0x00, 0xAA, 0x00, 0x62, 0xCE, 0x6C]

  /** The flags byte of a packet that is to be skipped. */
  predicate FlagsInvalid(b: nat) {
    b != 0x30 && b / 0x10 % 8 != 0
  }

  /** What follows the first byte of a whole header. */
  predicate BeginsHeader(guid: seq<byte>) {
    [0x30] + guid == HEADER_GUID
  }

  class Demuxer {
    const input: Input
    var streams: seq<Stream>
    var audioStreamId: int
    var videoStreamId: int
    var packetSize: nat
    var firstPacketPos: nat
    var packetFlags: nat
    var segtype: nat
    var dataSize: nat
    var packetPadsize: nat
    var frameFlag: nat
    var nbFrames: nat
    var packetSizeLeft: nat
    var keyframeTs: int
    var sendNewpts: bool
    var finished: bool
    /** all fragments that were handed to streams, in order */
    ghost var journal: seq<Event>

    ghost predicate Valid()
      reads this, input, streams
    {
      Sound() && StreamsValid()
    }

    ghost predicate Sound()
      reads this, input
    {
      && 0 < packetSize < 0x8000_0000 && firstPacketPos <= input.pos && input.Honest()
      && packetSizeLeft < WORD && packetFlags < 256 && segtype < 256 && frameFlag < 256
      && dataSize < WORD && packetPadsize < WORD
    }

    ghost predicate StreamsValid()
      reads this`streams, Members()`fragOffset
    {
      && (forall s :: s in streams ==> s.Valid())
      && (forall s, t :: s in streams && t in streams && s != t ==> s.buffer != t.buffer)
    }

    /** Every stream holds what the run over the fragments in the journal gives, these have the bytes of the file, and
        on every fifo is exactly what the streams sent for them. */
    ghost predicate AllFaithful()
      requires StreamsValid()
      reads this`streams, this`journal, Members()`fragOffset, Members()`seqNo, Members()`timestamp
      reads Members()`history, Members()`frames, Members()`sent, Buffers(), Fifos()`out
    {
      (forall s :: s in streams ==> s.Faithful()) && OnRecord()
    }

    ghost predicate OnRecord()
      reads this`streams, this`journal, Members()`history, Fifos()`out
    {
      && AllSendable(journal) && AllFromFile(input.data, journal)
      && (forall k :: 0 <= k < |journal| ==> journal[k].stream in streams)
      && (forall s :: s in streams ==> s.history == HistoryOf(journal, s))
      && (forall fifo :: fifo in Fifos() ==> fifo.out == Wire(journal, fifo))
    }

    /** The record is right but for one stream, which had the fragments `before`, and its fifo, on which was `out`. */
    ghost predicate OnRecordBut(stream: Stream, before: seq<Fragment>, out: seq<Buf>)
      requires stream.fifo != null
      reads this`streams, this`journal, (Members() - {stream})`history, (Fifos() - {stream.fifo})`out
    {
      && AllSendable(journal) && AllFromFile(input.data, journal)
      && (forall k :: 0 <= k < |journal| ==> journal[k].stream in streams)
      && (forall s :: s in Members() - {stream} ==> s.history == HistoryOf(journal, s))
      && (forall fifo :: fifo in Fifos() - {stream.fifo} ==> fifo.out == Wire(journal, fifo))
      && before == HistoryOf(journal, stream) && out == Wire(journal, stream.fifo)
    }

    /** A fragment that was given to a stream enters the record. */
    ghost method Enter(stream: Stream, f: Fragment, before: seq<Fragment>, out: seq<Buf>)
      requires stream in streams && Sendable(stream) && FromFile(input.data, f)
      requires stream.history == before + [f]
      modifies this`journal
      ensures journal == old(journal) + [Event(stream, f)]
      ensures old(OnRecordBut(stream, before, out)) && stream.fifo.out == out + Sends(stream, before, f) ==> OnRecord()
    {
      hide Sends, HistoryOf, Wire, FromFile;
      ghost var j, e := journal, Event(stream, f);
      if OnRecordBut(stream, before, out) && stream.fifo.out == out + Sends(stream, before, f) {
        journal := journal + [e];
        forall s | s in streams
          ensures s.history == HistoryOf(journal, s)
        {
          OneMoreGiven(j, e, s);
          assert s != stream ==> s in Members() - {stream};
        }
        forall fifo | fifo in Fifos()
          ensures AllSendable(journal) && fifo.out == Wire(journal, fifo)
        {
          OneMoreOnWire(j, e, fifo);
          assert fifo != stream.fifo ==> fifo in Fifos() - {stream.fifo};
        }
      } else {
        journal := journal + [e];
      }
    }

    /** New in the journal is what stands in the file from `from` on. */
    ghost predicate GivenFrom(before: seq<Event>, after: seq<Event>, from: nat) {
      before <= after && forall k :: |before| <= k < |after| ==> from <= after[k].f.at
    }

    /** The status of a stream, and what goes with it. */
    ghost function StatusOf(s: Stream): Status
      reads s`firstSeq, s`skip, s`resync, s`seqNo, s`fragOffset
    {
      Status(s.firstSeq, s.skip, s.resync, s.seqNo, s.fragOffset)
    }

    ghost function DealOf(stream: Stream?): Deal
      reads this`keyframeTs, this`journal
      reads Only(stream)`firstSeq, Only(stream)`skip, Only(stream)`resync, Only(stream)`seqNo, Only(stream)`fragOffset
    {
      Deal(if stream == null then Status(false, false, false, 0, 0) else StatusOf(stream), keyframeTs, journal)
    }

    ghost function Only(stream: Stream?): set<Stream> {
      if stream == null then {} else {stream}
    }

    ghost function Members(): set<Stream>
      reads this`streams
    {
      set s | s in streams
    }

    ghost function Fifos(): set<Fifo>
      reads this`streams
    {
      set s | s in streams && s.fifo != null :: s.fifo
    }

    ghost function Buffers(): set<array<byte>>
      reads this`streams
    {
      set s | s in streams :: s.buffer
    }

    constructor (input: Input, streams: seq<Stream>, audioStreamId: int, videoStreamId: int, packetSize: nat)
      requires 0 < packetSize < 0x8000_0000 && input.Honest()
      requires forall s :: s in streams ==> s.Valid()
      requires forall s, t :: s in streams && t in streams && s != t ==> s.buffer != t.buffer
      ensures Valid() && this.input == input && this.streams == streams && this.packetSize == packetSize
      ensures firstPacketPos == input.pos && !finished && journal == []
      ensures (forall s :: s in streams ==> s.Unused()) ==> AllFaithful()
    {
      this.input := input;
      this.streams := streams;
      this.audioStreamId := audioStreamId;
      this.videoStreamId := videoStreamId;
      this.packetSize := packetSize;
      firstPacketPos := input.pos;
      packetFlags, segtype, dataSize, packetPadsize, frameFlag, nbFrames, packetSizeLeft := 0, 0, 0, 0, 0, 0, 0;
      keyframeTs := 0;
      sendNewpts := false;
      finished := false;
      journal := [];
    }

    /** `get_byte` */
    method GetByte() returns (v: nat)
      modifies input, this`finished
      ensures v < 0x100 && old(input.pos) <= input.pos
      ensures (old(input.cut) ==> input.cut) && (old(input.Honest()) ==> input.Honest())
      ensures !input.cut ==> input.pos == old(input.pos) + 1
      ensures finished || (old(input.pos) < |input.data| && v == input.data[old(input.pos)] as nat)
      ensures !finished ==> input.pos == old(input.pos) + 1
      ensures finished <==> old(finished) || old(input.pos) + 1 > |input.data|
    {
      if input.pos + 1 > |input.data| {
        finished := true;
      }
      var buf := input.Fetch(1);
      v := buf[0] as nat;
    }

    /** `get_byte`, `get_le16`, `get_le32`, or nothing at all: a number of `n` bytes. */
    method GetLe(n: nat) returns (v: nat)
      requires n == 0 || n == 1 || n == 2 || n == 4
      modifies input, this`finished
      ensures v < WORD && (n == 1 ==> v < 0x100) && old(input.pos) <= input.pos
      ensures (old(input.cut) ==> input.cut) && (old(input.Honest()) ==> input.Honest())
      ensures !input.cut ==> input.pos == old(input.pos) + n
      ensures input.cut || StandsAt(input.data, old(input.pos), n, v)
    {
      if n > 0 && input.pos + n > |input.data| {
        finished := true;
      }
      var buf := input.Fetch(n);
      v := LittleEndian(buf);
    }

    /** One byte, between packets' fields. */
    method GetNumber() returns (v: nat)
      requires Sound()
      modifies input, this`finished
      ensures Sound() && v < 0x100 && old(input.pos) <= input.pos
      ensures old(input.cut) ==> input.cut
      ensures !input.cut ==> input.pos == old(input.pos) + 1
      ensures input.cut || StandsAt(input.data, old(input.pos), 1, v)
    {
      v := GetLe(1);
    }

    /** The start of the next packet is looked for: invalid packets and packets with error correction data are passed
        over (lines 985-1046). `hdr` bytes of the header are accounted for, `slack` bytes are not. */
    method FindPacket() returns (r: Outcome, hdr: nat, ghost start: nat, ghost slack: nat)
      requires Sound()
      modifies input, this`packetSizeLeft, this`finished
      ensures Sound() && hdr <= 16 && packetSizeLeft == 0 && start <= input.pos
      ensures ReachedFrom(NextStart(old(input.pos), firstPacketPos, packetSize), start, input.cut)
      ensures old(input.cut) ==> input.cut
      ensures r.Parsed? && !input.cut ==> input.pos == start + hdr + slack && start < |input.data|
      ensures r.Parsed? && !input.cut ==> !FlagsInvalid(input.data[start] as nat)
      ensures r.Refused? ==> old(finished) || start + 16 > |input.data|
      ensures r.Parsed? && !input.cut ==> slack == if input.data[start] == 0x30 then 15 else 0
      ensures r.Parsed? && !input.cut ==> input.pos == FieldsFrom(start)
    {
      hide NextStart, Aligned, U32, FlagsInvalid, ReachedFrom, BeginsHeader;
      SkipToStart();
      ghost var first := input.pos;
      start := input.pos;
      slack := 0;
      ReachedAtOnce(first, input.cut);
      while true
        invariant Sound() && packetSizeLeft == 0 && slack == 0
        invariant start == input.pos && ReachedFrom(first, start, input.cut) && finished == old(finished)
        invariant old(input.cut) ==> input.cut
        decreases |input.data| - input.pos
      {
        ghost var cut := input.cut;
        var invalid;
        r, hdr, invalid, slack := TryPacket();
        ReachedMore(first, start, hdr, cut, input.cut);
        if !invalid {
          return;
        }
        input.Skip(U32(packetSize - hdr));
        start := input.pos;
      }
    }

    /** Where the fields of a packet's header begin: behind its first byte and error correction data, or behind as many
        bytes as a whole ASF header would begin with. */
    ghost function FieldsFrom(start: nat): nat
      requires start < |input.data|
    {
      var b := input.data[start] as nat;
      start + 1 + if b == 0x30 then 15 else if b >= 0x80 then b % 0x10 else 0
    }

    /** What is left of the packet that was read last is passed over. */
    method SkipToStart()
      requires Sound()
      modifies input`pos, this`packetSizeLeft
      ensures Sound() && packetSizeLeft == 0 && input.pos == NextStart(old(input.pos), firstPacketPos, packetSize)
      ensures Aligned(input.pos, firstPacketPos, packetSize)
    {
      var mod := (input.pos - firstPacketPos) % packetSize;
      packetSizeLeft := if mod != 0 then packetSize - mod else 0;
      NextStartIsNext(input.pos, firstPacketPos, packetSize);
      if packetSizeLeft != 0 {
        input.Skip(packetSizeLeft);
      }
      packetSizeLeft := 0;
    }

    /** From packet start `first` the search has come to `start`: over no packet but such as are to be skipped. */
    ghost predicate ReachedFrom(first: nat, start: nat, cut: bool)
      requires packetSize > 0
      reads this`packetSize, this`firstPacketPos
    {
      && first <= start
      && (packetSize >= 16 || WORD % packetSize == 0 ==> Aligned(start, firstPacketPos, packetSize))
      && (cut || start == first || (first < |input.data| && FlagsInvalid(input.data[first] as nat)))
      && (packetSize >= 16 ==> cut || AllInvalid(first, start))
    }

    lemma ReachedAtOnce(first: nat, cut: bool)
      requires packetSize > 0 && Aligned(first, firstPacketPos, packetSize)
      ensures ReachedFrom(first, first, cut)
    {
      hide FlagsInvalid, Aligned;
    }

    lemma ReachedMore(first: nat, start: nat, hdr: nat, cut: bool, cutNow: bool)
      requires 0 < packetSize < WORD && ReachedFrom(first, start, cut) && (cut ==> cutNow) && hdr <= 16
      ensures ReachedFrom(first, start, cutNow)
      ensures cutNow || (start < |input.data| && FlagsInvalid(input.data[start] as nat)) ==>
        ReachedFrom(first, start + hdr + U32(packetSize - hdr), cutNow)
    {
      SkipLands(start, firstPacketPos, packetSize, hdr);
      hide FlagsInvalid, Aligned, AllInvalid, U32;
      if packetSize >= 16 && !cutNow {
        OneMoreInvalid(first, start);
      }
    }

    /** Every packet that starts between the two places is one to be skipped. */
    ghost predicate AllInvalid(from: nat, to: nat)
      requires packetSize > 0
      reads this`packetSize, this`firstPacketPos
    {
      forall p: nat :: from <= p < to && Aligned(p, firstPacketPos, packetSize) ==>
        p < |input.data| && FlagsInvalid(input.data[p] as nat)
    }

    lemma OneMoreInvalid(from: nat, at: nat)
      requires packetSize > 0 && AllInvalid(from, at) && Aligned(at, firstPacketPos, packetSize)
      ensures at < |input.data| && FlagsInvalid(input.data[at] as nat) ==> AllInvalid(from, at + packetSize)
    {
      hide FlagsInvalid, Aligned;
      forall p | at < p < at + packetSize
        ensures !Aligned(p, firstPacketPos, packetSize)
      {
        NoneBetween(at, p, firstPacketPos, packetSize);
      }
    }

    /** One candidate for a packet: the flags byte, a whole header, error correction data. */
    method TryPacket() returns (r: Outcome, hdr: nat, invalid: bool, ghost slack: nat)
      modifies input, this`finished
      ensures 0 < hdr <= 16 && old(input.pos) <= input.pos
      ensures (old(input.cut) ==> input.cut) && (old(input.Honest()) ==> input.Honest())
      ensures invalid ==> r.Parsed? && input.pos == old(input.pos) + hdr && slack == 0 && old(input.pos) < |input.data|
      ensures r.Parsed? && !input.cut ==> input.pos == old(input.pos) + hdr + slack && old(input.pos) < |input.data|
      ensures r.Parsed? && !input.cut ==> slack == if input.data[old(input.pos)] == 0x30 then 15 else 0
      ensures r.Refused? ==> old(finished) || old(input.pos) + 16 > |input.data|
      ensures r.NewHeader? && !input.cut ==>
        old(input.pos) + 16 <= |input.data| && input.data[old(input.pos)] == 0x30
        && BeginsHeader(input.data[old(input.pos) + 1..old(input.pos) + 16])
      ensures r.Parsed? || r.Refused? || r.NewHeader?
      ensures invalid ==> finished == old(finished)
      ensures r.Parsed? && !input.cut ==> var b := input.data[old(input.pos)] as nat;
        invalid == FlagsInvalid(b) && hdr == 1 + if b != 0x30 && b >= 0x80 then b % 0x10 else 0
    {
      hide BeginsHeader, FlagsInvalid;
      slack, hdr, invalid := 0, 1, false;
      ghost var start := input.pos;
      var ecdFlags := GetByte();
      if finished {
        return Refused, hdr, invalid, slack;
      }
      if ecdFlags == 0x30 {
        slack := 15;
        if input.pos + 15 > |input.data| {
          finished := true;
        }
        var guid := input.Fetch(15);
        assert input.cut || guid == input.data[start + 1..start + 16];
        NoHeaderIsInvalid();
        return if BeginsHeader(guid) then NewHeader else Parsed, hdr, invalid, slack;
      }
      r, hdr, invalid := ErrorCorrection(ecdFlags);
    }

    lemma NoHeaderIsInvalid()
      ensures !FlagsInvalid(0x30)
    {
    }

    /** Error correction data is read, and the kind of packet that is to be skipped recognised. */
    method ErrorCorrection(ecdFlags: nat) returns (r: Outcome, hdr: nat, invalid: bool)
      requires ecdFlags < 0x100 && ecdFlags != 0x30
      modifies input, this`finished
      ensures 0 < hdr <= 16 && old(input.pos) <= input.pos && (r.Parsed? || r.Refused?)
      ensures hdr == 1 + if r.Parsed? && ecdFlags >= 0x80 then ecdFlags % 0x10 else 0
      ensures invalid <==> r.Parsed? && FlagsInvalid(ecdFlags)
      ensures old(input.Honest()) ==> input.Honest()
      ensures (old(input.cut) ==> input.cut) && (r.Parsed? ==> input.cut == old(input.cut))
      ensures r.Parsed? ==> input.pos == old(input.pos) + hdr - 1 && finished == old(finished)
      ensures r.Refused? ==> old(input.pos) + 15 > |input.data|
    {
      hdr, invalid := 1, false;
      if ecdFlags >= 0x80 {
        var size := ecdFlags % 0x10;
        if input.pos + size > |input.data| {
          finished := true;
          var _ := input.Fetch(size);
          return Refused, hdr, invalid;
        }
        var _ := input.Fetch(size);
        hdr := hdr + size;
      }
      invalid := ecdFlags / 0x10 % 8 != 0;
      r := Parsed;
    }

    /** `asf_parse_packet_header`: the packet starts at `start`, on the grid of packets whatever the position was, and
        what is left of it is what was not read. A packet whose first byte is that of a whole header, but which is
        none, has `slack` bytes more read than accounted for. */
    method ParsePacketHeader() returns (r: Outcome, ghost start: nat, ghost slack: nat)
      requires Valid()
      modifies input, this`packetSizeLeft, this`packetFlags, this`segtype, this`dataSize, this`packetPadsize,
               this`frameFlag, this`nbFrames, this`finished
      ensures Valid()
      ensures ReachedFrom(NextStart(old(input.pos), firstPacketPos, packetSize), start, input.cut)
      ensures old(input.cut) ==> input.cut
      ensures r.Parsed? ==> dataSize <= packetSize && (packetFlags % 2 == 0 ==> nbFrames == 1)
      ensures r.Parsed? && !input.cut ==> Balance(input.pos, packetSizeLeft) == U32(start + dataSize + slack)
      ensures r.Parsed? && !input.cut ==> start < |input.data| && slack == if input.data[start] == 0x30 then 15 else 0
      ensures start <= input.pos
      ensures r.Parsed? && !input.cut ==> HeaderAt(start) && input.pos == FieldsFrom(start) + FieldsWidth()
      ensures r.Refused? ==> old(finished) || start + 16 > |input.data| || packetPadsize > packetSize
    {
      hide Aligned, NextStart, U32, Balance, LengthsAt, Code, AllInvalid, FlagsInvalid, FieldsWidth, FieldsFrom,
           FieldsAt;
      var hdr;
      ghost var first := NextStart(input.pos, firstPacketPos, packetSize);
      r, hdr, start, slack := FindPacket();
      ghost var cut := input.cut;
      if !r.Parsed? {
        return;
      }
      ghost var pos := input.pos;
      var more;
      ghost var size, padding;
      r, more, size, padding := ReadFields();
      if r.Parsed? {
        packetSizeLeft := U32(dataSize - (hdr + more));
        HeaderBalance(start, dataSize, hdr + more, slack);
      }
    }

    /** The header of the packet that starts here is the one that was parsed. */
    ghost predicate HeaderAt(start: nat)
      requires start < |input.data|
      reads this`packetSize, this`packetFlags, this`segtype, this`dataSize, this`frameFlag, this`nbFrames
    {
      exists size, padding :: FieldsAt(FieldsFrom(start), size, padding)
    }

    /** The fields, which stand here. */
    ghost predicate FieldsAt(at: nat, size: nat, padding: nat)
      reads this`packetSize, this`packetFlags, this`segtype, this`dataSize, this`frameFlag, this`nbFrames
    {
      && LengthsAt(at, size, padding)
      && (dataSize == if Code(packetFlags, 32) != 0 then size else packetSize - padding)
      && if packetFlags % 2 == 0 then frameFlag == 0 && nbFrames == 1
         else StandsAt(input.data, at + FieldsWidth() - 1, 1, frameFlag) && nbFrames == frameFlag % 0x40
    }

    function FieldsWidth(): (w: nat)
      reads this`packetFlags
      ensures w > 0
    {
      Width(Code(packetFlags, 32)) + Width(Code(packetFlags, 2)) + Width(Code(packetFlags, 8)) + 8 + packetFlags % 2
    }

    /** The fields of the header and the checks on them (lines 1048-1122), all but `packet_size_left`; `hdr` is their
        length. */
    method ReadFields() returns (r: Outcome, hdr: nat, ghost size: nat, ghost padding: nat)
      requires Sound()
      modifies input, this`packetFlags, this`segtype, this`dataSize, this`packetPadsize, this`frameFlag, this`nbFrames,
               this`finished
      ensures Sound() && old(input.pos) <= input.pos
      ensures old(input.cut) ==> input.cut
      ensures !input.cut ==> input.pos == old(input.pos) + hdr
      ensures (r == Parsed || r == Refused) && (r.Refused? <==> packetPadsize > packetSize)
      ensures r.Parsed? ==> dataSize <= packetSize && (packetFlags % 2 == 0 ==> nbFrames == 1)
      ensures r.Parsed? ==> packetPadsize + dataSize == packetSize
      ensures r.Parsed? ==> hdr == FieldsWidth() && (input.cut || FieldsAt(old(input.pos), size, padding))
    {
      hide StandsAt, Width, Code;
      hdr := ReadLengths();
      size, padding := dataSize, packetPadsize;
      if Code(packetFlags, 32) != 0 {
        packetPadsize := U32(packetSize - dataSize);
      } else {
        dataSize := U32(packetSize - packetPadsize);
      }
      if packetPadsize > packetSize {
        return Refused, hdr, size, padding;
      }
      if packetFlags % 2 == 1 {
        frameFlag := GetLe(1);
        hdr := hdr + 1;
        nbFrames := frameFlag % 0x40;
      } else {
        frameFlag := 0;
        nbFrames := 1;
      }
      r := Parsed;
    }

    /** The flags and the three lengths of a packet header as they stand in the file. */
    ghost predicate LengthsAt(at: nat, size: nat, padding: nat)
      reads this`packetFlags, this`segtype
    {
      var w, x, y := Width(Code(packetFlags, 32)), Width(Code(packetFlags, 2)), Width(Code(packetFlags, 8));
      && StandsAt(input.data, at, 1, packetFlags) && StandsAt(input.data, at + 1, 1, segtype)
      && StandsAt(input.data, at + 2, w, size) && StandsAt(input.data, at + 2 + w + x, y, padding)
    }

    /** The flags, the lengths, the time stamp and the duration. */
    method ReadLengths() returns (hdr: nat)
      requires Sound()
      modifies input, this`packetFlags, this`segtype, this`dataSize, this`packetPadsize, this`finished
      ensures Sound() && old(input.pos) <= input.pos
      ensures old(input.cut) ==> input.cut
      ensures !input.cut ==> input.pos == old(input.pos) + hdr
      ensures hdr == FieldsWidth() - packetFlags % 2
      ensures input.cut || LengthsAt(old(input.pos), dataSize, packetPadsize)
    {
      hide StandsAt, Width, Code;
      packetFlags := GetLe(1);
      segtype := GetLe(1);
      hdr := 2;
      var w := Width(Code(packetFlags, 32));
      dataSize := GetLe(w);
      hdr := hdr + w;
      w := Width(Code(packetFlags, 2));
      var _ := GetLe(w);
      hdr := hdr + w;
      w := Width(Code(packetFlags, 8));
      packetPadsize := GetLe(w);
      hdr := hdr + w;
      var _ := GetLe(4);
      var _ := GetLe(2);
      hdr := hdr + 6;
    }

    /** The three numbers of a payload header as they stand in the file. */
    ghost predicate CommonAt(at: nat, seqNo: nat, fragOffset: nat, rlen: nat)
      reads this`segtype
    {
      var w, x, y := Width(Code(segtype, 16)), Width(Code(segtype, 4)), Width(Code(segtype, 1));
      && StandsAt(input.data, at, w, seqNo) && StandsAt(input.data, at + w, x, fragOffset)
      && StandsAt(input.data, at + w + x, y, rlen)
    }

    /** The width of these numbers. */
    function CommonWidth(): nat
      reads this`segtype
    {
      Width(Code(segtype, 16)) + Width(Code(segtype, 4)) + Width(Code(segtype, 1))
    }

    /** `asf_parse_packet_payload_common`: the header all payloads have. */
    method ParsePayloadCommon(rawId: nat)
      returns (r: Outcome, stream: Stream?, fragOffset: nat, rlen: nat, seqNo: nat, ghost gap: bool)
      requires Valid()
      modifies input, this`finished, this`packetSizeLeft, this`keyframeTs, this`sendNewpts
      modifies Members()`firstSeq, Members()`skip, Members()`resync, Fifos()`resets
      ensures Valid() && (old(AllFaithful()) ==> AllFaithful())
      ensures (stream != null ==> stream in streams) && IsFor(stream, rawId % 0x80)
      ensures r == if rlen > old(packetSizeLeft) then Refused else Parsed
      ensures r.Parsed? ==> packetSizeLeft == U32(old(packetSizeLeft) - CommonWidth())
      ensures fragOffset < WORD && rlen < WORD && seqNo < WORD
      ensures old(input.cut) ==> input.cut
      ensures r.Parsed? && !input.cut ==> Balance(input.pos, packetSizeLeft) == old(Balance(input.pos, packetSizeLeft))
      ensures input.cut || CommonAt(old(input.pos), seqNo, fragOffset, rlen)
      ensures r.Parsed? && !input.cut ==> input.pos == old(input.pos) + CommonWidth()
      ensures DealOf(stream) == Checked(stream, old(DealOf(stream)), videoStreamId, Code(segtype, 16), seqNo)
      ensures forall s :: s in streams && s != stream ==> StatusOf(s) == old(StatusOf(s))
      ensures gap == (stream != null && Gap(old(DealOf(stream)).status, Code(segtype, 16), seqNo))
      ensures sendNewpts == (old(sendNewpts) || gap)
      ensures old(input.pos) <= input.pos
    {
      hide StandsAt, Width, Code, Balance, StreamsValid, U32, Checked, Gap, IsFor, AllFaithful;
      ghost var pos := input.pos;
      stream, seqNo, gap := ReadNumber(rawId);
      assert Buffers() == old(Buffers());
      var more;
      fragOffset, rlen, more := ReadOffsets();
      if rlen > packetSizeLeft {
        return Refused, stream, fragOffset, rlen, seqNo, gap;
      }
      Take(Width(Code(segtype, 16)) + more, pos);
      r := Parsed;
    }

    /** The stream, and the check of the payload's number. */
    method ReadNumber(rawId: nat) returns (stream: Stream?, seqNo: nat, ghost gap: bool)
      requires Valid()
      modifies input, this`finished, this`keyframeTs, this`sendNewpts
      modifies Members()`firstSeq, Members()`skip, Members()`resync, Fifos()`resets
      ensures Valid() && (old(AllFaithful()) ==> AllFaithful()) && seqNo < WORD
      ensures (stream != null ==> stream in streams) && IsFor(stream, rawId % 0x80)
      ensures old(input.pos) <= input.pos && (old(input.cut) ==> input.cut)
      ensures !input.cut ==> input.pos == old(input.pos) + Width(Code(segtype, 16))
      ensures input.cut || StandsAt(input.data, old(input.pos), Width(Code(segtype, 16)), seqNo)
      ensures DealOf(stream) == Checked(stream, old(DealOf(stream)), videoStreamId, Code(segtype, 16), seqNo)
      ensures forall s :: s in streams && s != stream ==> StatusOf(s) == old(StatusOf(s))
      ensures gap == (stream != null && Gap(old(DealOf(stream)).status, Code(segtype, 16), seqNo))
      ensures sendNewpts == (old(sendNewpts) || gap)
    {
      hide StandsAt, Width, Code, StreamsValid, U32, Checked, Gap, IsFor, AllFaithful, StatusOf;
      stream := FindStream(rawId % 0x80);
      gap := false;
      var code := Code(segtype, 16);
      seqNo := GetLe(Width(code));
      if stream != null {
        gap := Gap(DealOf(stream).status, code, seqNo);
        CheckSeq(stream, code, seqNo);
      } else {
        NobodyChecked(DealOf(stream), videoStreamId, code, seqNo);
      }
      assert Buffers() == old(Buffers());
    }

    /** The offset of the fragment and the length of the payload's own header. */
    method ReadOffsets() returns (fragOffset: nat, rlen: nat, hdr: nat)
      requires Sound()
      modifies input, this`finished
      ensures Sound() && fragOffset < WORD && rlen < WORD && old(input.pos) <= input.pos
      ensures hdr == Width(Code(segtype, 4)) + Width(Code(segtype, 1))
      ensures old(input.cut) ==> input.cut
      ensures !input.cut ==> input.pos == old(input.pos) + hdr
      ensures input.cut || (StandsAt(input.data, old(input.pos), Width(Code(segtype, 4)), fragOffset)
        && StandsAt(input.data, old(input.pos) + Width(Code(segtype, 4)), Width(Code(segtype, 1)), rlen))
    {
      hide StandsAt, Width, Code;
      hdr := Width(Code(segtype, 4));
      fragOffset := GetLe(hdr);
      var w := Width(Code(segtype, 1));
      rlen := GetLe(w);
      hdr := hdr + w;
    }

    /** `n` bytes fewer are left in the packet: those that were read since `from`. */
    method Take(n: nat, ghost from: nat)
      requires Sound()
      modifies this`packetSizeLeft
      ensures Sound() && Balance(from + n, packetSizeLeft) == Balance(from, old(packetSizeLeft))
      ensures packetSizeLeft == U32(old(packetSizeLeft) - n)
    {
      BalanceKept(from, packetSizeLeft, n);
      packetSizeLeft := U32(packetSizeLeft - n);
    }

    /** The stream has the number, and it is the one chosen for audio or for video. */
    predicate Selected(s: Stream, id: nat)
      reads this`audioStreamId, this`videoStreamId
    {
      s.streamId == id && (id == audioStreamId || id == videoStreamId)
    }

    /** The first such stream, or none if there is none. */
    ghost predicate IsFor(stream: Stream?, id: nat)
      reads this`streams, this`audioStreamId, this`videoStreamId
    {
      if stream == null then forall k :: 0 <= k < |streams| ==> !Selected(streams[k], id)
      else exists k :: 0 <= k < |streams| && streams[k] == stream && IsFirst(k, id)
    }

    ghost predicate IsFirst(k: nat, id: nat)
      requires k < |streams|
      reads this`streams, this`audioStreamId, this`videoStreamId
    {
      Selected(streams[k], id) && forall j :: 0 <= j < k ==> !Selected(streams[j], id)
    }

    method FindStream(id: nat) returns (stream: Stream?)
      ensures (stream != null ==> stream in streams) && IsFor(stream, id)
    {
      stream := null;
      for i := 0 to |streams|
        invariant forall k :: 0 <= k < i ==> !Selected(streams[k], id)
      {
        if streams[i].streamId == id && (id == audioStreamId || id == videoStreamId) {
          assert IsFirst(i, id);
          return streams[i];
        }
      }
    }

    /** The check of the sequence number: after a gap, the decoder is told to start over, behind what is on the fifo,
        and a video stream is skipped up to the next keyframe. */
    method CheckSeq(stream: Stream, code: nat, seqNo: nat)
      requires stream in streams && seqNo < WORD && StreamsValid()
      modifies this`keyframeTs, this`sendNewpts, stream`firstSeq, stream`skip, stream`resync, Fifos()`resets
      ensures DealOf(stream) == Checked(stream, old(DealOf(stream)), videoStreamId, code, seqNo)
      ensures var gap := Gap(old(StatusOf(stream)), code, seqNo);
        && sendNewpts == (old(sendNewpts) || gap)
        && (forall fifo :: fifo in Fifos() ==>
              fifo.resets == if gap && fifo == stream.fifo then old(fifo.resets) + [|fifo.out|] else old(fifo.resets))
    {
      hide U32, CRem, Signed;
      var next := Signed(U32(stream.seqNo + 1));
      var expected := if code == 1 then U32(CRem(next, 0x100))
                      else if code == 2 then U32(CRem(next, 0x1_0000))
                      else if code == 3 then U32(next) else 0;
      if stream.firstSeq || stream.skip {
        expected := seqNo;
        stream.firstSeq := false;
      } else if stream.fragOffset != 0 {
        expected := U32(stream.seqNo);
      }
      if expected != seqNo {
        if stream.fifo != null {
          stream.fifo.resets := stream.fifo.resets + [|stream.fifo.out|];
        }
        if stream.streamId == videoStreamId {
          stream.resync := true;
          stream.skip := true;
          keyframeTs := 0;
        }
        sendNewpts := true;
      }
    }

    /** The keyframe that ends the skipping, where the input cannot seek. */
    method Resync(stream: Stream, rawId: nat, timestamp: int)
      modifies this`keyframeTs, stream`skip, stream`resync
      ensures old(Sound()) ==> Sound()
      ensures DealOf(stream) == Woken(old(DealOf(stream)), rawId, timestamp)
    {
      if stream.skip && rawId / 0x80 % 2 == 1 && keyframeTs == 0 {
        keyframeTs := 1;
      }
      if stream.resync && timestamp >= keyframeTs && keyframeTs != 0 {
        stream.resync := false;
        stream.skip := false;
      }
    }

    /** Sending or skipping the bytes of a fragment: it is given to its stream, if that takes data. */
    method Send(stream: Stream?, fragOffset: nat, seqNo: nat, timestamp: int, fragLen: nat, payload: nat)
      returns (r: Outcome, ghost missed: nat, ghost f: Fragment)
      requires Valid() && Only(stream) <= Members()
      requires fragOffset < WORD && seqNo < WORD && fragLen < WORD && payload < WORD
      modifies input, Only(stream)`seqNo, Only(stream)`fragOffset, Only(stream)`timestamp
      modifies Only(stream)`history, Only(stream)`frames, Only(stream)`sent, Buffers(), Fifos()`out, this`journal
      ensures Valid() && (old(AllFaithful()) ==> AllFaithful())
      ensures r == if Takes(stream, old(DealOf(stream))) && fragLen >= 0x8000_0000 then TooLong else Parsed
      ensures old(input.cut) ==> input.cut
      ensures old(input.pos) <= input.pos
      ensures r.Parsed? && !input.cut ==> input.pos + missed == old(input.pos) + fragLen
      ensures missed == if r.Parsed? then MissedOf(stream, old(DealOf(stream)), f) else 0
      ensures f == Fragment(Signed(fragOffset), Signed(seqNo), timestamp, f.data, Signed(payload), old(input.pos))
      ensures |f.data| == fragLen
      ensures DealOf(stream) == if r.Parsed? then Handed(stream, old(DealOf(stream)), f) else old(DealOf(stream))
    {
      hide Fed, TooBig, AllFaithful;
      missed := 0;
      r := Parsed;
      f := Fragment(Signed(fragOffset), Signed(seqNo), timestamp, Standing(input.data, input.pos, fragLen),
                    Signed(payload), input.pos);
      if stream == null || stream.fifo == null || stream.skip {
        input.Skip(fragLen);
        return;
      }
      if fragLen >= 0x8000_0000 {
        return TooLong, 0, f;
      }
      missed, f := Give(stream, Signed(fragOffset), Signed(seqNo), timestamp, fragLen, Signed(payload));
    }

    /** Which of the two routines sends the bytes is a matter of the stream. */
    method Give(stream: Stream, fragOffset: int, seqNo: int, timestamp: int, fragLen: nat, payload: int)
      returns (ghost missed: nat, ghost f: Fragment)
      requires Valid() && stream in streams && stream.fifo != null
      modifies input, stream`seqNo, stream`fragOffset, stream`timestamp
      modifies stream`history, stream`frames, stream`sent, stream.buffer, stream.fifo`out, this`journal
      ensures Valid() && (old(AllFaithful()) ==> AllFaithful())
      ensures old(input.cut) ==> input.cut
      ensures old(input.pos) <= input.pos
      ensures !input.cut ==> input.pos + missed == old(input.pos) + fragLen
      ensures missed == if stream.defrag && TooBig(old(stream.fragOffset), old(stream.seqNo), f) then fragLen else 0
      ensures stream.history == old(stream.history) + [f] && |f.data| == fragLen
      ensures f == Fragment(fragOffset, seqNo, timestamp, f.data, payload, old(input.pos))
      ensures StatusOf(stream) == Fed(stream, old(StatusOf(stream)), f)
      ensures journal == old(journal) + [Event(stream, f)]
    {
      hide AllFaithful, DirectStep, Settled, TooBig;
      missed := 0;
      if stream.defrag {
        missed, f := GiveFrames(stream, fragOffset, seqNo, timestamp, fragLen, payload);
      } else {
        f := GivePieces(stream, fragOffset, seqNo, timestamp, fragLen, payload);
      }
    }

    /** To a stream that puts frames together. */
    method GiveFrames(stream: Stream, fragOffset: int, seqNo: int, timestamp: int, fragLen: nat, payload: int)
      returns (ghost missed: nat, ghost f: Fragment)
      requires Valid() && stream in streams && stream.fifo != null && stream.defrag
      modifies input, stream`seqNo, stream`fragOffset, stream`timestamp
      modifies stream`history, stream`frames, stream`sent, stream.buffer, stream.fifo`out, this`journal
      ensures Valid() && (old(AllFaithful()) ==> AllFaithful())
      ensures old(input.cut) ==> input.cut
      ensures old(input.pos) <= input.pos
      ensures !input.cut ==> input.pos + missed == old(input.pos) + fragLen
      ensures missed == if TooBig(old(stream.fragOffset), old(stream.seqNo), f) then fragLen else 0
      ensures Position(stream.fragOffset, stream.seqNo) == Settled(old(stream.fragOffset), old(stream.seqNo), f)
      ensures stream.history == old(stream.history) + [f] && |f.data| == fragLen
      ensures f == Fragment(fragOffset, seqNo, timestamp, f.data, payload, old(input.pos))
      ensures journal == old(journal) + [Event(stream, f)]
    {
      hide Step, Run, CutAll, OnRecord, Overflows, Sends, Settled, TooBig;
      ghost var before, out, state := stream.history, stream.fifo.out, stream.Held();
      RecordBefore(stream);
      ghost var overflow;
      f, overflow := stream.SendBufferDefrag(input, fragOffset, seqNo, timestamp, fragLen, payload);
      SettledIsStep(state, f, stream.shape);
      missed := if overflow then fragLen else 0;
      SendsThere(stream, before, f, state, stream.Place());
      Enter(stream, f, before, out);
    }

    /** To a stream that sends directly. */
    method GivePieces(stream: Stream, fragOffset: int, seqNo: int, timestamp: int, fragLen: nat, payload: int)
      returns (ghost f: Fragment)
      requires Valid() && stream in streams && stream.fifo != null && !stream.defrag
      modifies input, stream`seqNo, stream`fragOffset, stream`timestamp
      modifies stream`history, stream`frames, stream`sent, stream.buffer, stream.fifo`out, this`journal
      ensures Valid() && (old(AllFaithful()) ==> AllFaithful())
      ensures old(input.cut) ==> input.cut
      ensures old(input.pos) <= input.pos
      ensures !input.cut ==> input.pos == old(input.pos) + fragLen
      ensures stream.Place() == DirectStep(old(stream.Place()), f, stream.fifo.pool).0
      ensures stream.history == old(stream.history) + [f] && |f.data| == fragLen
      ensures f == Fragment(fragOffset, seqNo, timestamp, f.data, payload, old(input.pos))
      ensures journal == old(journal) + [Event(stream, f)]
    {
      hide DirectRun, DirectStep, OnRecord, Sends;
      ghost var before, out, place := stream.history, stream.fifo.out, stream.Place();
      RecordBefore(stream);
      f := stream.SendBufferNodefrag(input, fragOffset, seqNo, timestamp, fragLen, payload);
      SendsThere(stream, before, f, Assembly([], 0, 0), place);
      Enter(stream, f, before, out);
    }

    lemma RecordBefore(stream: Stream)
      requires stream in streams && stream.fifo != null
      ensures OnRecord() ==> OnRecordBut(stream, stream.history, stream.fifo.out)
    {
      hide AllFromFile, AllSendable, Wire, HistoryOf;
    }

    /** The width of the length field of a payload, which only a packet of several payloads has. */
    function LengthWidth(): nat
      reads this`packetFlags, this`frameFlag
    {
      if packetFlags % 2 == 0 then 0 else if Code(frameFlag, 0x40) == 0 then 2 else Width(Code(frameFlag, 0x40))
    }

    /** The length of the payload's data: a field whose width the frame flags give, or the rest of the packet. */
    method ReadLength(hdr: nat) returns (length: nat, hdr': nat)
      requires Sound() && hdr < WORD
      modifies input, this`finished
      ensures Sound() && length < WORD
      ensures old(input.cut) ==> input.cut
      ensures old(input.pos) <= input.pos
      ensures hdr' == hdr + LengthWidth() && (!input.cut ==> input.pos == old(input.pos) + LengthWidth())
      ensures packetFlags % 2 == 0 ==> length == U32(packetSizeLeft - hdr)
      ensures input.cut || packetFlags % 2 == 0 || StandsAt(input.data, old(input.pos), LengthWidth(), length)
    {
      hide StandsAt, U32;
      hdr' := hdr;
      if packetFlags % 2 == 1 {
        var w := if Code(frameFlag, 0x40) == 0 then 2 else Width(Code(frameFlag, 0x40));
        length := GetLe(w);
        hdr' := hdr + w;
      } else {
        length := U32(packetSizeLeft - hdr);
      }
    }

    /** `asf_parse_packet_payload_single`: a payload of several small objects, each offered to its stream whole. */
    method ParsePayloadSingle(stream: Stream?, rawId: nat, fragOffset: nat, seqNo: nat)
      returns (r: Outcome, timestamp: int, ghost offers: seq<Fragment>, length: nat)
      requires Valid() && Only(stream) <= Members() && fragOffset < WORD && seqNo < WORD
      modifies input, this`finished, this`packetSizeLeft, this`keyframeTs
      modifies Only(stream)`skip, Only(stream)`resync
      modifies Only(stream)`seqNo, Only(stream)`fragOffset, Only(stream)`timestamp
      modifies Only(stream)`history, Only(stream)`frames, Only(stream)`sent, Buffers(), Fifos()`out, this`journal
      ensures Valid() && (old(AllFaithful()) ==> AllFaithful()) && old(input.pos) <= input.pos
      ensures old(input.cut) ==> input.cut
      ensures r.Parsed? && !input.cut ==> Balance(input.pos, packetSizeLeft) == old(Balance(input.pos, packetSizeLeft))
      ensures r == if length > old(packetSizeLeft) then Refused else if length >= 0x8000_0000 then TooLong else Parsed
      ensures packetFlags % 2 == 0 ==> length == U32(old(packetSizeLeft) - 1)
      ensures input.cut || packetFlags % 2 == 0
        || StandsAt(input.data, old(input.pos) + 1, LengthWidth(), length)
      ensures r.Parsed? ==>
        var at := old(input.pos) + 1 + LengthWidth();
        Exhausts(offers, length) && AllLaid(offers, seqNo, fragOffset, at, input.cut)
        && (input.cut || input.pos == at + Spanned(offers))
      ensures AllFrom(offers, old(input.pos)) && (!r.Parsed? ==> offers == [])
      ensures DealOf(stream) == OfferedAll(stream, old(DealOf(stream)), rawId, offers)
    {
      hide StandsAt, Balance, U32, Code, Width, StreamsValid, AllFaithful, LengthWidth, Exhausts, AllLaid, OfferedAll;
      offers := [];
      NothingOffered(stream, DealOf(stream), rawId);
      timestamp := fragOffset;
      var ok;
      ok, length := ReadGroupHeader();
      if !ok {
        return Refused, timestamp, offers, length;
      }
      if length >= 0x8000_0000 {
        return TooLong, timestamp, offers, length;
      }
      ghost var from := input.pos;
      offers := SendObjects(stream, rawId, seqNo, timestamp, length);
      LaidElsewhere(offers, seqNo, fragOffset, from, old(input.pos) + 1 + LengthWidth(), input.cut, input.cut);
      r, timestamp := Parsed, 0;
    }

    /** What stands before the objects; the length must fit into what is left of the packet. */
    method ReadGroupHeader() returns (ok: bool, length: nat)
      requires Sound()
      modifies input, this`finished, this`packetSizeLeft
      ensures Sound() && length < WORD && old(input.pos) <= input.pos && (old(input.cut) ==> input.cut)
      ensures ok <==> length <= old(packetSizeLeft)
      ensures ok && !input.cut ==> Balance(input.pos, packetSizeLeft) == old(Balance(input.pos, packetSizeLeft))
      ensures ok && !input.cut ==> input.pos == old(input.pos) + 1 + LengthWidth()
      ensures packetFlags % 2 == 0 ==> length == U32(old(packetSizeLeft) - 1)
      ensures input.cut || packetFlags % 2 == 0
        || StandsAt(input.data, old(input.pos) + 1, LengthWidth(), length)
    {
      hide StandsAt, Balance, U32, Code, Width, LengthWidth;
      var _ := GetLe(1);
      var hdr;
      length, hdr := ReadLength(1);
      ok := length <= packetSizeLeft;
      if ok {
        Take(hdr, old(input.pos));
      }
    }

    /** The loop over the objects of a payload with `length` bytes. */
    method SendObjects(stream: Stream?, rawId: nat, seqNo: nat, timestamp: int, length: nat)
      returns (ghost offers: seq<Fragment>)
      requires Valid() && Only(stream) <= Members() && seqNo < WORD
      modifies input, this`finished, this`packetSizeLeft, this`keyframeTs
      modifies Only(stream)`skip, Only(stream)`resync
      modifies Only(stream)`seqNo, Only(stream)`fragOffset, Only(stream)`timestamp
      modifies Only(stream)`history, Only(stream)`frames, Only(stream)`sent, Buffers(), Fifos()`out, this`journal
      ensures Valid() && (old(AllFaithful()) ==> AllFaithful()) && old(input.pos) <= input.pos
      ensures old(input.cut) ==> input.cut
      ensures !input.cut ==> Balance(input.pos, packetSizeLeft) == old(Balance(input.pos, packetSizeLeft))
      ensures Exhausts(offers, length) && AllLaid(offers, seqNo, timestamp, old(input.pos), input.cut)
      ensures (input.cut || input.pos == old(input.pos) + Spanned(offers)) && AllFrom(offers, old(input.pos))
      ensures DealOf(stream) == OfferedAll(stream, old(DealOf(stream)), rawId, offers)
    {
      hide Sound, StandsAt, Balance, U32, StreamsValid, AllFaithful, AllLaid, Spanned, OfferedAll, Offered, Signed;
      NothingLaid(seqNo, timestamp, input.pos, input.cut);
      NothingOffered(stream, DealOf(stream), rawId);
      offers := [];
      var number: nat, sent := seqNo, 0;
      var stamp := timestamp;
      while sent < length
        invariant Valid() && number < WORD && (old(AllFaithful()) ==> AllFaithful())
        invariant old(input.cut) ==> input.cut
        invariant old(input.pos) <= input.pos && (input.cut || input.pos == old(input.pos) + sent)
        invariant !input.cut ==> Balance(input.pos, packetSizeLeft) == old(Balance(input.pos, packetSizeLeft))
        invariant number == U32(seqNo + |offers|) && stamp == if |offers| == 0 then timestamp else 0
        invariant AllLaid(offers, seqNo, timestamp, old(input.pos), input.cut) && AllFrom(offers, old(input.pos))
        invariant sent == Spanned(offers) && (offers == [] || Spanned(offers[..|offers| - 1]) < length)
        invariant DealOf(stream) == OfferedAll(stream, old(DealOf(stream)), rawId, offers)
      {
        ghost var f, cut, pos := Fragment(0, 0, 0, [], 0, 0), input.cut, input.pos;
        var n;
        n, f := SendObject(stream, rawId, number, stamp);
        MoreLaid(offers, f, seqNo, timestamp, old(input.pos), cut, input.cut);
        OfferedOneMore(stream, old(DealOf(stream)), rawId, offers, f);
        NextNumber(seqNo, |offers|);
        offers := offers + [f];
        number := U32(number + 1);
        sent := sent + n;
        stamp := 0;
      }
    }

    /** All of them stand at `from` or behind. */
    ghost predicate AllFrom(offers: seq<Fragment>, from: nat) {
      forall f :: f in offers ==> from <= f.at
    }

    /** What the objects take up in the payload, each with its length in front of it. */
    ghost function Spanned(objects: seq<Fragment>): nat {
      if objects == [] then 0 else Spanned(objects[..|objects| - 1]) + |objects[|objects| - 1].data| + 1
    }

    /** All objects that begin within the payload's length. */
    ghost predicate Exhausts(objects: seq<Fragment>, length: nat) {
      Spanned(objects) >= length && (objects == [] || Spanned(objects[..|objects| - 1]) < length)
    }

    /** Object `i`: a whole frame, with a number behind that of the one before, and a time stamp only if it is the
        first; it stands behind the one before it, and its length, a byte, in front of it. */
    ghost predicate Laid(objects: seq<Fragment>, i: nat, seqNo: nat, timestamp: int, at: nat, cut: bool)
      requires i < |objects|
    {
      var f := objects[i];
      && f == Fragment(0, Signed(U32(seqNo + i)), if i == 0 then timestamp else 0, f.data, |f.data|, f.at)
      && |f.data| < 0x100
      && (cut || (f.at == at + Spanned(objects[..i]) + 1 && StandsAt(input.data, f.at - 1, 1, |f.data|)))
    }

    ghost predicate AllLaid(objects: seq<Fragment>, seqNo: nat, timestamp: int, at: nat, cut: bool) {
      forall i :: 0 <= i < |objects| ==> Laid(objects, i, seqNo, timestamp, at, cut)
    }

    lemma NothingLaid(seqNo: nat, timestamp: int, at: nat, cut: bool)
      ensures AllLaid([], seqNo, timestamp, at, cut) && Spanned([]) == 0
      ensures seqNo < WORD ==> U32(seqNo + 0) == seqNo
    {
    }

    lemma MoreLaid(objects: seq<Fragment>, f: Fragment, seqNo: nat, timestamp: int, at: nat, cut: bool, cutNow: bool)
      requires AllLaid(objects, seqNo, timestamp, at, cut) && (cut ==> cutNow)
      requires var i := |objects|;
        f == Fragment(0, Signed(U32(seqNo + i)), if i == 0 then timestamp else 0, f.data, |f.data|, f.at)
      requires |f.data| < 0x100
      requires cutNow || (f.at == at + Spanned(objects) + 1 && StandsAt(input.data, f.at - 1, 1, |f.data|))
      ensures AllLaid(objects + [f], seqNo, timestamp, at, cutNow)
      ensures Spanned(objects + [f]) == Spanned(objects) + |f.data| + 1
      ensures (objects + [f])[..|objects + [f]| - 1] == objects
    {
      var all := objects + [f];
      assert all[..|objects|] == objects;
      hide U32, Signed, Spanned, StandsAt;
      forall i | 0 <= i < |all|
        ensures Laid(all, i, seqNo, timestamp, at, cutNow)
      {
        if i < |objects| {
          assert Laid(objects, i, seqNo, timestamp, at, cut);
          assert all[i] == objects[i] && all[..i] == objects[..i];
        }
      }
    }

    /** After a short read nothing is known of places. */
    lemma LaidElsewhere(objects: seq<Fragment>, seqNo: nat, timestamp: int, at: nat, at': nat, cut: bool, cut': bool)
      requires AllLaid(objects, seqNo, timestamp, at, cut) && (cut ==> cut') && (at == at' || cut')
      ensures AllLaid(objects, seqNo, timestamp, at', cut')
    {
      hide U32, Signed, Spanned, StandsAt;
      forall i | 0 <= i < |objects|
        ensures Laid(objects, i, seqNo, timestamp, at', cut')
      {
        assert Laid(objects, i, seqNo, timestamp, at, cut);
      }
    }

    lemma NextNumber(seqNo: nat, n: nat)
      ensures U32(U32(seqNo + n) + 1) == U32(seqNo + (n + 1))
    {
      BalanceKept(1, seqNo + n, 0);
    }

    /** One object of a payload, its length in front of it. */
    method SendObject(stream: Stream?, rawId: nat, seqNo: nat, timestamp: int) returns (n: nat, ghost f: Fragment)
      requires Valid() && Only(stream) <= Members() && seqNo < WORD
      modifies input, this`finished, this`packetSizeLeft, this`keyframeTs
      modifies Only(stream)`skip, Only(stream)`resync
      modifies Only(stream)`seqNo, Only(stream)`fragOffset, Only(stream)`timestamp
      modifies Only(stream)`history, Only(stream)`frames, Only(stream)`sent, Buffers(), Fifos()`out, this`journal
      ensures Valid() && 0 < n <= 0x100 && (old(AllFaithful()) ==> AllFaithful())
      ensures old(input.pos) <= input.pos && (old(input.cut) ==> input.cut)
      ensures !input.cut ==> Balance(input.pos, packetSizeLeft) == old(Balance(input.pos, packetSizeLeft))
      ensures !input.cut ==> input.pos == old(input.pos) + n && StandsAt(input.data, old(input.pos), 1, n - 1)
      ensures f == Fragment(0, Signed(seqNo), timestamp, f.data, n - 1, f.at) && |f.data| == n - 1
      ensures old(input.pos) <= f.at && (input.cut || f.at == old(input.pos) + 1)
      ensures DealOf(stream) == Offered(stream, old(DealOf(stream)), rawId, f)
    {
      hide StandsAt, Balance, U32, StreamsValid, AllFaithful, Offered, Takes, Roused, MissedOf, StatusOf, DealOf;
      ghost var pos := input.pos;
      var objectLength := GetNumber();
      var r;
      ghost var missed, d := 0, Roused(stream, DealOf(stream), rawId, 0, timestamp);
      r, missed, f := ResyncAndSend(stream, rawId, 0, seqNo, timestamp, objectLength, objectLength);
      SmallIsNotMissed(stream, d, f);
      n := objectLength + 1;
      Take(n, pos);
    }

    /** What both parsers do with the bytes of a fragment: with the first one of an object, look for the keyframe that
        ends the skipping; and send or skip. */
    method ResyncAndSend(stream: Stream?, rawId: nat, fragOffset: nat, seqNo: nat, timestamp: int, fragLen: nat,
                         payload: nat)
      returns (r: Outcome, ghost missed: nat, ghost f: Fragment)
      requires Valid() && Only(stream) <= Members()
      requires fragOffset < WORD && seqNo < WORD && fragLen < WORD && payload < WORD
      modifies input, this`keyframeTs
      modifies Only(stream)`skip, Only(stream)`resync
      modifies Only(stream)`seqNo, Only(stream)`fragOffset, Only(stream)`timestamp
      modifies Only(stream)`history, Only(stream)`frames, Only(stream)`sent, Buffers(), Fifos()`out, this`journal
      ensures Valid() && (old(AllFaithful()) ==> AllFaithful())
      ensures old(input.pos) <= input.pos && (old(input.cut) ==> input.cut)
      ensures var d := Roused(stream, old(DealOf(stream)), rawId, Signed(fragOffset), timestamp);
        && r == (if Takes(stream, d) && fragLen >= 0x8000_0000 then TooLong else Parsed)
        && missed == if r.Parsed? then MissedOf(stream, d, f) else 0
      ensures r.Parsed? && !input.cut ==> input.pos + missed == old(input.pos) + fragLen
      ensures f == Fragment(Signed(fragOffset), Signed(seqNo), timestamp, f.data, Signed(payload), old(input.pos))
      ensures |f.data| == fragLen
      ensures r.Parsed? ==> DealOf(stream) == Offered(stream, old(DealOf(stream)), rawId, f)
      ensures !r.Parsed? ==> journal == old(journal)
    {
      hide Sound, StreamsValid, AllFaithful, U32, Woken, Handed, MissedOf, Takes;
      WokenKeeps(DealOf(stream), rawId, timestamp);
      WithFifo(stream);
      if stream != null && stream.fifo != null && fragOffset == 0 {
        Resync(stream, rawId, timestamp);
      }
      r, missed, f := Send(stream, fragOffset, seqNo, timestamp, fragLen, payload);
    }

    lemma WithFifo(stream: Stream?)
      requires StreamsValid() && Only(stream) <= Members()
      ensures stream != null ==> (Sendable(stream) <==> stream.fifo != null)
    {
      assert stream in Only(stream) || stream == null;
    }

    /** The number of four bytes at a place, or 0 beyond the end. */
    ghost function NumberAt(at: nat): (v: nat)
      ensures v < WORD
    {
      if at + 4 <= |input.data| then LittleEndian(input.data[at..at + 4]) else 0
    }

    lemma NumberThere(at: nat, v: nat)
      requires StandsAt(input.data, at, 4, v)
      ensures v == NumberAt(at)
    {
    }

    /** The fragment of a payload whose header ends at `at`: offset and number are those of the header; size of the
        object and time stamp stand at `at`, unless less than eight bytes are there for them, and a size of 0 stands for
        the length of the fragment. */
    ghost predicate FragmentOf(f: Fragment, h: Header, at: nat, length: nat, cut: bool)
      reads this`packetFlags, this`frameFlag
    {
      && f.offset == Signed(U32(h.fragOffset)) && f.seqNo == Signed(U32(h.seqNo))
      && |f.data| == length && (cut || f.at == at + h.rlen + LengthWidth())
      && (h.rlen < 8 ==> ObjectIs(f, length, 0))
      && (cut || h.rlen < 8 || ObjectIs(f, if NumberAt(at) == 0 then length else NumberAt(at), NumberAt(at + 4)))
    }

    ghost predicate ObjectIs(f: Fragment, size: nat, timestamp: nat) {
      f.payload == Signed(U32(size)) && f.timestamp == timestamp
    }

    /** `asf_parse_packet_payload_multiple`: a fragment of one object. `missed` bytes of it are left unread where they
        do not fit into the buffer. */
    method ParsePayloadMultiple(stream: Stream?, rawId: nat, fragOffset: nat, rlen: nat, seqNo: nat)
      returns (r: Outcome, timestamp: nat, ghost missed: nat, ghost f: Fragment, ghost length: nat)
      requires Valid() && Only(stream) <= Members() && fragOffset < WORD && rlen < WORD && seqNo < WORD
      modifies input, this`finished, this`packetSizeLeft, this`keyframeTs
      modifies Only(stream)`skip, Only(stream)`resync
      modifies Only(stream)`seqNo, Only(stream)`fragOffset, Only(stream)`timestamp
      modifies Only(stream)`history, Only(stream)`frames, Only(stream)`sent, Buffers(), Fifos()`out, this`journal
      ensures Valid() && (old(AllFaithful()) ==> AllFaithful())
      ensures old(input.pos) <= input.pos && (old(input.cut) ==> input.cut)
      ensures r.Parsed? && !input.cut ==>
        Balance(input.pos + missed, packetSizeLeft) == old(Balance(input.pos, packetSizeLeft))
      ensures r.Refused? <==> length > old(packetSizeLeft)
      ensures r.Parsed? || r.Refused? || (r.TooLong? && length >= 0x8000_0000)
      ensures packetFlags % 2 == 0 ==> length == U32(old(packetSizeLeft) - rlen)
      ensures input.cut || packetFlags % 2 == 0
        || StandsAt(input.data, old(input.pos) + rlen, LengthWidth(), length)
      ensures r.Parsed? ==> FragmentOf(f, Header(stream, fragOffset, rlen, seqNo), old(input.pos), length, input.cut)
      ensures r.Parsed? && !input.cut ==> input.pos + missed == f.at + |f.data|
      ensures r.Parsed? ==> old(input.pos) <= f.at
      ensures r.Parsed? ==>
        DealOf(stream) == Offered(stream, old(DealOf(stream)), rawId, f)
        && missed == MissedOf(stream, Roused(stream, old(DealOf(stream)), rawId, f.offset, f.timestamp), f)
      ensures (!r.Parsed? ==> missed == 0) && (r.Refused? ==> DealOf(stream) == old(DealOf(stream)))
      ensures !r.Parsed? ==> journal == old(journal)
    {
      hide StandsAt, Balance, U32, StreamsValid, AllFaithful, LengthWidth, Offered, Roused, MissedOf, Takes, Signed,
           NumberAt, StatusOf, FragmentOf, DealOf;
      f := Fragment(0, 0, 0, [], 0, 0);
      missed := 0;
      var ok, payload, fragLen;
      ok, payload, timestamp, fragLen := ReadFragmentHeader(rlen);
      length := fragLen;
      if !ok {
        return Refused, timestamp, 0, f, length;
      }
      ghost var pos := input.pos;
      r, missed, f := ResyncAndSend(stream, rawId, fragOffset, seqNo, timestamp, fragLen, payload);
      if r.Parsed? {
        IsFragment(f, Header(stream, fragOffset, rlen, seqNo), old(input.pos), payload, timestamp, input.cut);
      }
      Take(fragLen, pos);
    }

    lemma IsFragment(f: Fragment, h: Header, at: nat, payload: nat, timestamp: nat, cut: bool)
      requires h.fragOffset < WORD && h.seqNo < WORD && payload < WORD
      requires f == Fragment(Signed(h.fragOffset), Signed(h.seqNo), timestamp, f.data, Signed(payload), f.at)
      requires cut || f.at == at + h.rlen + LengthWidth()
      requires h.rlen < 8 ==> timestamp == 0 && payload == |f.data| < WORD
      requires cut || h.rlen < 8
        || (timestamp == NumberAt(at + 4) && payload == if NumberAt(at) == 0 then |f.data| else NumberAt(at))
      ensures FragmentOf(f, h, at, |f.data|, cut)
    {
      hide Signed, NumberAt, LengthWidth;
    }

    /** All that stands before the bytes of the fragment. */
    method ReadFragmentHeader(rlen: nat) returns (ok: bool, payload: nat, timestamp: nat, fragLen: nat)
      requires Valid() && rlen < WORD
      modifies input, this`finished, this`packetSizeLeft
      ensures Valid() && (old(AllFaithful()) ==> AllFaithful())
      ensures payload < WORD && fragLen < WORD && old(input.pos) <= input.pos
      ensures old(input.cut) ==> input.cut
      ensures ok && !input.cut ==> Balance(input.pos, packetSizeLeft) == old(Balance(input.pos, packetSizeLeft))
      ensures rlen < 8 ==> timestamp == 0 && (ok ==> payload == fragLen)
      ensures input.cut || rlen < 8 || StandsAt(input.data, old(input.pos) + 4, 4, timestamp)
      ensures input.cut || rlen < 8 || timestamp == NumberAt(old(input.pos) + 4)
      ensures input.cut || rlen < 8 || StandsAt(input.data, old(input.pos), 4, NumberAt(old(input.pos)))
      ensures input.cut || rlen < 8 || !ok
        || payload == if NumberAt(old(input.pos)) == 0 then fragLen else NumberAt(old(input.pos))
      ensures ok <==> fragLen <= old(packetSizeLeft)
      ensures ok && !input.cut ==> input.pos == old(input.pos) + rlen + LengthWidth()
      ensures packetFlags % 2 == 0 ==> fragLen == U32(old(packetSizeLeft) - rlen)
      ensures input.cut || packetFlags % 2 == 0
        || StandsAt(input.data, old(input.pos) + rlen, LengthWidth(), fragLen)
    {
      hide StandsAt, Balance, U32, Code, Width, LengthWidth, NumberAt, Wire, HistoryOf, AllFromFile, AllSendable,
           Stream.Faithful;
      payload, timestamp := ReadObjectHeader(rlen);
      if !input.cut && rlen >= 8 {
        NumberThere(old(input.pos), payload);
        NumberThere(old(input.pos) + 4, timestamp);
      }
      var hdr;
      fragLen, hdr := ReadLength(rlen);
      ok := fragLen <= packetSizeLeft;
      if ok {
        payload := if payload == 0 then fragLen else payload;
        Take(hdr, old(input.pos));
      }
    }

    /** The size of the object and its time stamp, and more that is passed over. */
    method ReadObjectHeader(rlen: nat) returns (payload: nat, timestamp: nat)
      requires Sound() && rlen < WORD
      modifies input, this`finished
      ensures Sound() && payload < WORD && old(input.pos) <= input.pos
      ensures old(input.cut) ==> input.cut
      ensures !input.cut ==> input.pos == old(input.pos) + rlen
      ensures rlen < 8 ==> payload == 0 && timestamp == 0
      ensures input.cut || rlen < 8
        || (StandsAt(input.data, old(input.pos), 4, payload) && StandsAt(input.data, old(input.pos) + 4, 4, timestamp))
    {
      hide StandsAt;
      if rlen >= 8 {
        payload := GetLe(4);
        timestamp := GetLe(4);
        input.Skip(rlen - 8);
      } else {
        timestamp := 0;
        payload := 0;
        input.Skip(rlen);
      }
    }

    /** One payload (lines 1790-1798): its sequence number is checked, and what it holds is offered to its stream. */
    method SendPayload(rawId: nat)
      returns (r: Outcome, ghost missed: nat, ghost h: Header, ghost offers: seq<Fragment>, ghost length: nat)
      requires Valid()
      modifies input, this`finished, this`packetSizeLeft, this`keyframeTs, this`sendNewpts
      modifies Members()`firstSeq, Members()`skip, Members()`resync, Fifos()`resets
      modifies Members()`seqNo, Members()`fragOffset, Members()`timestamp
      modifies Members()`history, Members()`frames, Members()`sent, Buffers(), Fifos()`out, this`journal
      ensures Valid() && (old(AllFaithful()) ==> AllFaithful())
      ensures old(input.pos) <= input.pos && (old(input.cut) ==> input.cut)
      ensures r.Parsed? && !input.cut ==>
        Balance(input.pos + missed, packetSizeLeft) == old(Balance(input.pos, packetSizeLeft))
      ensures (h.stream != null ==> h.stream in streams) && IsFor(h.stream, rawId % 0x80)
      ensures input.cut || CommonAt(old(input.pos), h.seqNo, h.fragOffset, h.rlen)
      ensures r.Refused? <==> h.rlen > old(packetSizeLeft) || length > U32(old(packetSizeLeft) - CommonWidth())
      ensures input.cut || h.rlen > old(packetSizeLeft)
        || LengthAt(h, old(input.pos) + CommonWidth(), U32(old(packetSizeLeft) - CommonWidth()), length)
      ensures r.Parsed? ==>
        Holds(h, offers, length, old(input.pos) + CommonWidth(), input.pos + missed, input.cut)
      ensures AllFrom(offers, old(input.pos)) && (r.Refused? ==> offers == [] && missed == 0)
      ensures var d := Checked(h.stream, old(DealOf(h.stream)), videoStreamId, Code(segtype, 16), h.seqNo);
        !r.TooLong? ==> DealOf(h.stream) == OfferedAll(h.stream, d, rawId, offers)
                        && missed == MissedFirst(h, d, rawId, offers)
      ensures r.TooLong? ==> journal == old(journal)
      ensures r.Parsed? || r.Refused? || r.TooLong?
      ensures forall s :: s in streams && s != h.stream ==> StatusOf(s) == old(StatusOf(s))
      ensures var before := old(DealOf(h.stream)).status;
        sendNewpts == (old(sendNewpts) || (h.stream != null && Gap(before, Code(segtype, 16), h.seqNo)))
    {
      hide Balance, AllFaithful, StreamsValid, CommonAt, U32, CommonWidth, Holds, IsFor, Code, Sound, LengthAt,
           OfferedAll, MissedFirst, Checked, AllFrom, StatusOf, DealOf, Gap;
      missed, offers, length := 0, [], 0;
      var stream, fragOffset, rlen, seqNo;
      ghost var gap;
      r, stream, fragOffset, rlen, seqNo, gap := ParsePayloadCommon(rawId);
      h := Header(stream, fragOffset, rlen, seqNo);
      ghost var d := Checked(stream, old(DealOf(stream)), videoStreamId, Code(segtype, 16), seqNo);
      NothingHeld(h, d, rawId, old(input.pos));
      if !r.Parsed? {
        return;
      }
      ghost var from := input.pos;
      r, missed, offers, length := SendData(h, stream, rawId, fragOffset, rlen, seqNo);
      if r.Parsed? {
        HoldsAnywhere(h, offers, length, from, old(input.pos) + CommonWidth(), input.pos + missed, input.cut);
      }
      FromBefore(offers, old(input.pos), from);
    }

    lemma NothingHeld(h: Header, d: Deal, rawId: nat, from: nat)
      ensures OfferedAll(h.stream, d, rawId, []) == d && MissedFirst(h, d, rawId, []) == 0 && AllFrom([], from)
    {
    }

    lemma FromBefore(offers: seq<Fragment>, from: nat, later: nat)
      requires AllFrom(offers, later) && from <= later
      ensures AllFrom(offers, from)
    {
    }

    lemma CheckedKeeps(s: Stream?, d: Deal, video: int, code: nat, seqNo: nat)
      ensures Checked(s, d, video, code, seqNo).journal == d.journal
    {
    }

    /** What a payload whose header ends at `at` holds; and, where nothing was missed, where it ends. */
    ghost predicate Holds(h: Header, offers: seq<Fragment>, length: nat, at: nat, end: nat, cut: bool)
      reads this`packetFlags, this`frameFlag
    {
      if h.rlen == 1
      then
        && Exhausts(offers, length) && AllLaid(offers, h.seqNo, h.fragOffset, at + 1 + LengthWidth(), cut)
        && (cut || end == at + 1 + LengthWidth() + Spanned(offers))
      else
        |offers| == 1 && FragmentOf(offers[0], h, at, length, cut)
        && (cut || end == offers[0].at + |offers[0].data|)
    }

    /** The length of the payload's data: a field behind the header, or the rest of the packet. */
    ghost predicate LengthAt(h: Header, at: nat, left: nat, length: nat)
      reads this`packetFlags, this`frameFlag
    {
      var hdr := if h.rlen == 1 then 1 else h.rlen;
      if packetFlags % 2 == 0 then length == U32(left - hdr)
      else StandsAt(input.data, at + hdr, LengthWidth(), length)
    }

    lemma HoldsAnywhere(h: Header, offers: seq<Fragment>, length: nat, at: nat, at': nat, end: nat, cut: bool)
      requires Holds(h, offers, length, at, end, cut) && (at == at' || cut)
      ensures Holds(h, offers, length, at', end, cut)
    {
      hide Exhausts, AllLaid, LengthWidth, NumberAt, ObjectIs;
      if h.rlen == 1 {
        LaidElsewhere(offers, h.seqNo, h.fragOffset, at + 1 + LengthWidth(), at' + 1 + LengthWidth(), cut, cut);
      }
    }

    /** What follows the header of a payload. */
    method SendData(ghost h: Header, stream: Stream?, rawId: nat, fragOffset: nat, rlen: nat, seqNo: nat)
      returns (r: Outcome, ghost missed: nat, ghost offers: seq<Fragment>, ghost length: nat)
      requires Valid() && Only(stream) <= Members() && fragOffset < WORD && rlen < WORD && seqNo < WORD
      requires h == Header(stream, fragOffset, rlen, seqNo)
      modifies input, this`finished, this`packetSizeLeft, this`keyframeTs
      modifies Only(stream)`skip, Only(stream)`resync
      modifies Only(stream)`seqNo, Only(stream)`fragOffset, Only(stream)`timestamp
      modifies Only(stream)`history, Only(stream)`frames, Only(stream)`sent, Buffers(), Fifos()`out, this`journal
      ensures Valid() && (old(AllFaithful()) ==> AllFaithful())
      ensures old(input.pos) <= input.pos && (old(input.cut) ==> input.cut)
      ensures r.Parsed? && !input.cut ==>
        Balance(input.pos + missed, packetSizeLeft) == old(Balance(input.pos, packetSizeLeft))
      ensures r.Refused? <==> length > old(packetSizeLeft)
      ensures r.Parsed? || r.Refused? || r.TooLong?
      ensures input.cut || LengthAt(h, old(input.pos), old(packetSizeLeft), length)
      ensures r.Parsed? ==> Holds(h, offers, length, old(input.pos), input.pos + missed, input.cut)
      ensures AllFrom(offers, old(input.pos)) && (!r.Parsed? ==> offers == [] && missed == 0)
      ensures !r.TooLong? ==>
        DealOf(stream) == OfferedAll(stream, old(DealOf(stream)), rawId, offers)
        && missed == MissedFirst(h, old(DealOf(stream)), rawId, offers)
      ensures r.TooLong? ==> journal == old(journal)
    {
      hide Balance, AllFaithful, StreamsValid, StandsAt, LengthWidth, Exhausts, AllLaid, FragmentOf, OfferedAll,
           Offered, Roused, MissedOf, Sound;
      NothingHeld(h, DealOf(stream), rawId, input.pos);
      missed, offers, length := 0, [], 0;
      var timestamp;
      if rlen == 1 {
        r, timestamp, offers, length := ParsePayloadSingle(stream, rawId, fragOffset, seqNo);
      } else {
        ghost var f;
        r, timestamp, missed, f, length := ParsePayloadMultiple(stream, rawId, fragOffset, rlen, seqNo);
        if r.Parsed? {
          OfferedOne(stream, old(DealOf(stream)), rawId, f);
          offers := [f];
        }
      }
    }

    /** `demux_asf_send_chunk`, for files that are not reference lists. Whatever the position was, the header is parsed
        at a packet start, and the payloads of the packet are visited, all of them or up to the first that is refused.
        What was found in them decides what every stream is given, and which of them wait. If all were parsed, what the
        input advanced since the header is what the packet has lost, but for `slack` bytes of the header and the bytes
        of fragments too big for their buffer. */
    method SendChunk() returns (r: Outcome, ghost start: nat, ghost slack: nat, ghost visits: seq<Visit>)
      requires Valid()
      modifies this, input, Members(), Buffers(), Fifos()
      ensures Valid() && streams == old(streams) && (old(AllFaithful()) ==> AllFaithful())
      ensures packetSize == old(packetSize) && firstPacketPos == old(firstPacketPos)
      ensures audioStreamId == old(audioStreamId) && videoStreamId == old(videoStreamId)
      ensures ReachedFrom(NextStart(old(input.pos), firstPacketPos, packetSize), start, input.cut)
      ensures GivenFrom(old(journal), journal, start) && (old(input.cut) ==> input.cut)
      ensures r.Parsed? ==> |visits| == nbFrames % 0x40
      ensures AllVisited(visits, input.cut) && (r.Parsed? ==> NoneRefused(visits))
      ensures !r.TooLong? ==> SceneOf() == VisitedAll(old(SceneOf()), videoStreamId, Code(segtype, 16), visits)
      ensures journal == VisitedAll(old(SceneOf()), videoStreamId, Code(segtype, 16), visits).journal
      ensures MissedRight(old(SceneOf()), videoStreamId, Code(segtype, 16), visits)
      ensures visits != [] && !input.cut ==>
        Balance(visits[0].at + 1, visits[0].left) == U32(start + dataSize + slack)
      ensures r.Parsed? && !input.cut ==>
        Balance(input.pos + TotalMissed(visits), packetSizeLeft) == U32(start + dataSize + slack)
      ensures r.Parsed? && !input.cut ==> start < |input.data| && slack == if input.data[start] == 0x30 then 15 else 0
      ensures visits != [] && !input.cut ==>
        start < |input.data| && HeaderAt(start) && visits[0].at == FieldsFrom(start) + FieldsWidth()
    {
      hide HeaderAt, FieldsFrom, FieldsWidth;
      hide Aligned, NextStart, U32, Balance, StandsAt, AllFaithful, AllInvalid, FlagsInvalid, AllVisited, VisitedAll,
           StreamsValid, TotalMissed, MissedRight, NoneRefused, Code, SceneOf, GivenFrom;
      visits := [];
      ghost var j := journal;
      r, start, slack := ParsePacketHeader();
      if !r.Parsed? {
        finished := true;
        NothingVisited(SceneOf(), videoStreamId, Code(segtype, 16), input.cut);
        NothingGiven(journal, start);
        JournalIn();
        return;
      }
      ghost var pos := input.pos;
      r, visits := SendPayloads(nbFrames % 0x40);
      NothingGiven(j, start);
      GivenFurther(j, j, journal, start, pos);
    }

    /** The status of all streams, and what goes with it. */
    ghost function SceneOf(): Scene
      reads this`streams, this`keyframeTs, this`sendNewpts, this`journal
      reads Members()`firstSeq, Members()`skip, Members()`resync, Members()`seqNo, Members()`fragOffset
    {
      Scene(map s | s in streams :: StatusOf(s), keyframeTs, sendNewpts, journal)
    }

    /** The payload does not fit into what is left of its packet. */
    predicate IsRefused(v: Visit)
      reads this`segtype
    {
      v.h.rlen > v.left || v.length > U32(v.left - CommonWidth())
    }

    /** What is recorded of a payload is what stands in the file. */
    ghost predicate VisitRight(v: Visit, cut: bool)
      reads this`streams, this`audioStreamId, this`videoStreamId, this`segtype, this`packetFlags, this`frameFlag
    {
      var at := v.at + 1 + CommonWidth();
      && (cut || (StandsAt(input.data, v.at, 1, v.rawId) && CommonAt(v.at + 1, v.h.seqNo, v.h.fragOffset, v.h.rlen)))
      && (v.h.stream != null ==> v.h.stream in streams) && IsFor(v.h.stream, v.rawId % 0x80)
      && (cut || v.h.rlen > v.left || LengthAt(v.h, at, U32(v.left - CommonWidth()), v.length))
      && if IsRefused(v) then v.offers == [] else Holds(v.h, v.offers, v.length, at, v.next + v.missed, cut)
    }

    /** Every payload is right; each stands where the input came to with the one before, and what is left of the packet
        is what that one left of it. Only the last can be one that was refused. */
    ghost predicate AllVisited(visits: seq<Visit>, cut: bool)
      reads this`streams, this`audioStreamId, this`videoStreamId, this`segtype, this`packetFlags, this`frameFlag
    {
      && (forall k :: 0 <= k < |visits| ==> VisitRight(visits[k], cut))
      && forall k :: 0 < k < |visits| ==> Behind(visits[k - 1], visits[k], cut)
    }

    ghost predicate Behind(v: Visit, w: Visit, cut: bool)
      reads this`segtype
    {
      && !IsRefused(v)
      && (cut || (w.at == v.next && Balance(w.at + 1 + v.missed, w.left) == Balance(v.at + 1, v.left)))
    }

    ghost predicate NoneRefused(visits: seq<Visit>)
      reads this`segtype
    {
      forall v :: v in visits ==> !IsRefused(v)
    }

    lemma NothingVisited(sc: Scene, video: int, code: nat, cut: bool)
      ensures AllVisited([], cut) && NoneRefused([]) && TotalMissed([]) == 0
      ensures VisitedAll(sc, video, code, []) == sc && MissedRight(sc, video, code, [])
    {
    }

    lemma VisitStays(v: Visit, cut: bool, cutNow: bool)
      requires VisitRight(v, cut) && (cut ==> cutNow)
      ensures VisitRight(v, cutNow)
    {
      hide StandsAt, CommonAt, IsFor, Exhausts, CommonWidth, LengthWidth, U32, Signed, Spanned, AllLaid, IsRefused,
           NumberAt, ObjectIs, LengthAt;
      if !IsRefused(v) && v.h.rlen == 1 {
        var at := v.at + 1 + CommonWidth() + 1 + LengthWidth();
        LaidElsewhere(v.offers, v.h.seqNo, v.h.fragOffset, at, at, cut, cutNow);
      }
    }

    lemma AllStay(visits: seq<Visit>, cut: bool, cutNow: bool)
      requires AllVisited(visits, cut) && (cut ==> cutNow)
      ensures AllVisited(visits, cutNow)
    {
      hide VisitRight, Balance, IsRefused;
      forall k | 0 <= k < |visits|
        ensures VisitRight(visits[k], cutNow)
      {
        VisitStays(visits[k], cut, cutNow);
      }
      forall k | 0 < k < |visits|
        ensures Behind(visits[k - 1], visits[k], cutNow)
      {
        assert Behind(visits[k - 1], visits[k], cut);
      }
    }

    /** One more payload, behind those visited. */
    lemma OneMoreVisit(visits: seq<Visit>, v: Visit, cut: bool, cutNow: bool)
      requires AllVisited(visits, cut) && NoneRefused(visits) && (cut ==> cutNow) && VisitRight(v, cutNow)
      requires visits != [] ==> Behind(visits[|visits| - 1], v, cutNow)
      ensures AllVisited(visits + [v], cutNow) && (!IsRefused(v) ==> NoneRefused(visits + [v]))
    {
      AllStay(visits, cut, cutNow);
      var all := visits + [v];
      hide VisitRight, Behind, IsRefused;
      forall k | 0 <= k < |all|
        ensures VisitRight(all[k], cutNow)
      {
        assert k < |visits| ==> all[k] == visits[k];
      }
      forall k | 0 < k < |all|
        ensures Behind(all[k - 1], all[k], cutNow)
      {
        assert all[k - 1] == visits[k - 1] && (k < |visits| ==> all[k] == visits[k]);
      }
    }

    /** The loop over the payloads of a packet. */
    method SendPayloads(frames: nat) returns (r: Outcome, ghost visits: seq<Visit>)
      requires Valid()
      modifies input, this`finished, this`packetSizeLeft, this`keyframeTs, this`sendNewpts
      modifies Members(), Buffers(), Fifos(), this`journal
      ensures Valid() && (old(AllFaithful()) ==> AllFaithful()) && GivenFrom(old(journal), journal, old(input.pos))
      ensures old(input.cut) ==> input.cut
      ensures r.Parsed? ==> |visits| == frames
      ensures AllVisited(visits, input.cut) && (r.Parsed? ==> NoneRefused(visits))
      ensures !r.TooLong? ==> SceneOf() == VisitedAll(old(SceneOf()), videoStreamId, Code(segtype, 16), visits)
      ensures journal == VisitedAll(old(SceneOf()), videoStreamId, Code(segtype, 16), visits).journal
      ensures MissedRight(old(SceneOf()), videoStreamId, Code(segtype, 16), visits)
      ensures visits != [] && !input.cut ==>
        visits[0].at == old(input.pos)
        && Balance(visits[0].at + 1, visits[0].left) == old(Balance(input.pos, packetSizeLeft))
      ensures r.Parsed? && !input.cut ==>
        Balance(input.pos + TotalMissed(visits), packetSizeLeft) == old(Balance(input.pos, packetSizeLeft))
    {
      hide Sound, StreamsValid, Balance, AllFaithful, AllVisited, VisitRight, Behind, VisitedAll, Visited, TotalMissed,
           MissedRight, NoneRefused, IsRefused, GivenFrom, Code, SceneOf, Along;
      r, visits := Parsed, [];
      ghost var sc, code, total, start := SceneOf(), Code(segtype, 16), Balance(input.pos, packetSizeLeft), input.pos;
      NothingVisited(sc, videoStreamId, code, input.cut);
      NothingGiven(journal, start);
      AlongNone(total, input.pos, packetSizeLeft);
      for frame := 0 to frames
        invariant Valid() && (old(AllFaithful()) ==> AllFaithful()) && r.Parsed?
        invariant GivenFrom(old(journal), journal, start) && start <= input.pos
        invariant |visits| == frame && AllVisited(visits, input.cut) && NoneRefused(visits)
        invariant SceneOf() == VisitedAll(sc, videoStreamId, code, visits)
        invariant MissedRight(sc, videoStreamId, code, visits)
        invariant (old(input.cut) ==> input.cut) && (input.cut || Along(visits, total, input.pos, packetSizeLeft))
        invariant if visits == [] then input.pos == start else visits[0].at == start
      {
        ghost var pos, left, cut, j := input.pos, packetSizeLeft, input.cut, journal;
        ghost var v;
        JournalIn();
        r, v := NextPayload();
        GivenFurther(old(journal), j, journal, start, pos);
        if r.TooLong? {
          AllStay(visits, cut, input.cut);
          AlongMeans(visits, total, pos, left);
          return;
        }
        VisitedOneMore(sc, videoStreamId, code, visits, v);
        FoundBehind(visits, v, total, pos, left, input.cut);
        OneMoreVisit(visits, v, cut, input.cut);
        if r.Refused? {
          visits := visits + [v];
          JournalIn();
          return;
        }
        if !input.cut {
          AlongOneMore(visits, v, total, pos, left, input.pos, packetSizeLeft);
        }
        visits := visits + [v];
      }
      JournalIn();
      AlongMeans(visits, total, input.pos, packetSizeLeft);
    }

    lemma JournalIn()
      ensures SceneOf().journal == journal
    {
    }


    /** The input has come to the end of the payloads visited, and what the packet has lost is what they took up. */
    ghost predicate Along(visits: seq<Visit>, total: nat, pos: nat, left: nat) {
      && Balance(pos + TotalMissed(visits), left) == total
      && (visits == [] || (Balance(visits[0].at + 1, visits[0].left) == total && UpTo(visits[|visits| - 1], pos, left)))
    }

    ghost predicate UpTo(v: Visit, pos: nat, left: nat) {
      v.next == pos && Balance(pos + v.missed, left) == Balance(v.at + 1, v.left)
    }

    lemma AlongNone(total: nat, pos: nat, left: nat)
      requires total == Balance(pos, left)
      ensures Along([], total, pos, left)
    {
    }

    lemma AlongMeans(visits: seq<Visit>, total: nat, pos: nat, left: nat)
      ensures Along(visits, total, pos, left) ==>
        Balance(pos + TotalMissed(visits), left) == total
        && (visits != [] ==> Balance(visits[0].at + 1, visits[0].left) == total)
    {
    }

    lemma FoundBehind(visits: seq<Visit>, v: Visit, total: nat, pos: nat, left: nat, cut: bool)
      requires cut || (Along(visits, total, pos, left) && Balance(v.at + 1, v.left) == Balance(pos, left))
      requires NoneRefused(visits) && v.at == pos
      ensures cut || Balance((visits + [v])[0].at + 1, (visits + [v])[0].left) == total
      ensures visits != [] ==> Behind(visits[|visits| - 1], v, cut)
    {
      hide Balance, IsRefused, TotalMissed;
      if visits == [] {
        NothingVisited(Scene(map[], 0, false, []), 0, 0, false);
      } else if !cut {
        BalanceMoved(pos + 1, v.left, pos, left, visits[|visits| - 1].missed);
      }
    }

    lemma AlongOneMore(visits: seq<Visit>, v: Visit, total: nat, pos: nat, left: nat, pos': nat, left': nat)
      requires Along(visits, total, pos, left) && v.at == pos && Balance(v.at + 1, v.left) == Balance(pos, left)
      requires v.next == pos' && Balance(pos' + v.missed, left') == Balance(pos, left)
      ensures Along(visits + [v], total, pos', left')
    {
      var all := visits + [v];
      assert all[..|all| - 1] == visits;
      hide Balance;
      BalanceMoved(pos' + v.missed, left', pos, left, TotalMissed(visits));
      assert pos' + v.missed + TotalMissed(visits) == pos' + TotalMissed(all);
    }

    lemma NothingGiven(j: seq<Event>, from: nat)
      ensures GivenFrom(j, j, from)
    {
    }

    lemma GivenFurther(j: seq<Event>, k: seq<Event>, l: seq<Event>, from: nat, later: nat)
      requires GivenFrom(j, k, from) && GivenFrom(k, l, later) && from <= later
      ensures GivenFrom(j, l, from)
    {
    }

    /** One turn of it: the number of the stream is read, and the payload sent. */
    method NextPayload() returns (r: Outcome, ghost v: Visit)
      requires Valid()
      modifies input, this`finished, this`packetSizeLeft, this`keyframeTs, this`sendNewpts
      modifies Members(), Buffers(), Fifos(), this`journal
      ensures Valid() && (old(AllFaithful()) ==> AllFaithful())
      ensures old(input.pos) <= input.pos && (old(input.cut) ==> input.cut)
      ensures GivenFrom(old(journal), journal, old(input.pos))
      ensures r.Parsed? || r.Refused? || r.TooLong?
      ensures r.TooLong? ==> journal == old(journal)
      ensures !r.TooLong? ==>
        SceneOf() == Visited(old(SceneOf()), videoStreamId, Code(segtype, 16), v)
        && v.missed == MissedBy(old(SceneOf()), videoStreamId, Code(segtype, 16), v)
      ensures !r.TooLong? ==> VisitRight(v, input.cut) && (r.Refused? <==> IsRefused(v))
      ensures v.at == old(input.pos) && v.next == input.pos
      ensures !input.cut ==> Balance(v.at + 1, v.left) == old(Balance(input.pos, packetSizeLeft))
      ensures r.Parsed? && !input.cut ==>
        Balance(input.pos + v.missed, packetSizeLeft) == old(Balance(input.pos, packetSizeLeft))
    {
      hide Sound, StreamsValid, Balance, StandsAt, AllFaithful, GivenFrom, Code, SceneOf, Visited, VisitRight,
           IsRefused, MissedBy;
      ghost var pos := input.pos;
      var rawId := TakeNumber();
      r, v := VisitPayload(rawId, pos);
    }

    /** What comes behind the number of the stream, which stands at `at`. */
    method VisitPayload(rawId: nat, ghost at: nat) returns (r: Outcome, ghost v: Visit)
      requires Valid() && at <= input.pos
      requires input.cut || (StandsAt(input.data, at, 1, rawId) && input.pos == at + 1)
      modifies input, this`finished, this`packetSizeLeft, this`keyframeTs, this`sendNewpts
      modifies Members(), Buffers(), Fifos(), this`journal
      ensures Valid() && (old(AllFaithful()) ==> AllFaithful())
      ensures old(input.pos) <= input.pos && (old(input.cut) ==> input.cut)
      ensures GivenFrom(old(journal), journal, at)
      ensures r.Parsed? || r.Refused? || r.TooLong?
      ensures r.TooLong? ==> journal == old(journal)
      ensures !r.TooLong? ==>
        SceneOf() == Visited(old(SceneOf()), videoStreamId, Code(segtype, 16), v)
        && v.missed == MissedBy(old(SceneOf()), videoStreamId, Code(segtype, 16), v)
      ensures !r.TooLong? ==> VisitRight(v, input.cut) && (r.Refused? <==> IsRefused(v))
      ensures v.at == at && v.next == input.pos && v.left == old(packetSizeLeft)
      ensures r.Parsed? && !input.cut ==>
        Balance(input.pos + v.missed, packetSizeLeft) == old(Balance(input.pos, packetSizeLeft))
    {
      hide Sound, StreamsValid, U32, Balance, StandsAt, AllFaithful, Holds, CommonAt, IsFor, Gap, CommonWidth,
           GivenFrom, Code, LengthAt, OfferedAll, Checked, MissedFirst, AllFrom, Grown, StatusOf, SceneOf, Visited,
           VisitRight, IsRefused, DealOf;
      ghost var from, left, sc := input.pos, packetSizeLeft, SceneOf();
      InScene();
      ghost var missed, h, offers, length;
      r, missed, h, offers, length := SendPayload(rawId);
      v := Visit(at, left, rawId, h, offers, length, missed, input.pos);
      if !r.TooLong? {
        RecordRight(v, from, r, input.cut);
        InScene();
        SceneMoved(sc, SceneOf(), videoStreamId, Code(segtype, 16), v);
        GrownFrom(DealIn(sc, h.stream), journal, videoStreamId, Code(segtype, 16), v, from, at);
      } else {
        NothingGiven(journal, at);
      }
    }

    lemma RecordRight(v: Visit, from: nat, r: Outcome, cut: bool)
      requires cut || (StandsAt(input.data, v.at, 1, v.rawId) && from == v.at + 1)
      requires cut || CommonAt(from, v.h.seqNo, v.h.fragOffset, v.h.rlen)
      requires (v.h.stream != null ==> v.h.stream in streams) && IsFor(v.h.stream, v.rawId % 0x80)
      requires r.Refused? <==> v.h.rlen > v.left || v.length > U32(v.left - CommonWidth())
      requires cut || v.h.rlen > v.left
        || LengthAt(v.h, from + CommonWidth(), U32(v.left - CommonWidth()), v.length)
      requires if r.Parsed? then Holds(v.h, v.offers, v.length, from + CommonWidth(), v.next + v.missed, cut)
               else r.Refused? && v.offers == []
      ensures VisitRight(v, cut) && (r.Refused? <==> IsRefused(v))
    {
      hide StandsAt, CommonAt, IsFor, U32, CommonWidth, LengthAt, Holds;
      if r.Parsed? {
        HoldsAnywhere(v.h, v.offers, v.length, from + CommonWidth(), v.at + 1 + CommonWidth(), v.next + v.missed, cut);
      }
    }

    lemma InScene()
      ensures SceneOf().status.Keys == Members()
      ensures forall s :: s in streams ==> SceneOf().status[s] == StatusOf(s) && DealIn(SceneOf(), s) == DealOf(s)
      ensures DealIn(SceneOf(), null) == DealOf(null)
      ensures SceneOf().newpts == sendNewpts && SceneOf().journal == journal
    {
    }

    lemma GrownFrom(d: Deal, after: seq<Event>, video: int, code: nat, v: Visit, later: nat, from: nat)
      requires var checked := Checked(v.h.stream, d, video, code, v.h.seqNo);
        after == OfferedAll(v.h.stream, checked, v.rawId, v.offers).journal
      requires AllFrom(v.offers, later) && from <= later
      ensures GivenFrom(d.journal, after, from)
    {
      CheckedKeeps(v.h.stream, d, video, code, v.h.seqNo);
      OnlyOffersGiven(v.h.stream, Checked(v.h.stream, d, video, code, v.h.seqNo), v.rawId, v.offers);
      hide Checked, OfferedAll;
    }

    /** The byte is one of the packet's. */
    method TakeNumber() returns (v: nat)
      requires Valid()
      modifies input, this`finished, this`packetSizeLeft
      ensures Valid() && v < 0x100 && old(input.pos) <= input.pos && (old(AllFaithful()) ==> AllFaithful())
      ensures old(input.cut) ==> input.cut
      ensures !input.cut ==> input.pos == old(input.pos) + 1
      ensures !input.cut ==> Balance(input.pos, packetSizeLeft) == old(Balance(input.pos, packetSizeLeft))
      ensures input.cut || StandsAt(input.data, old(input.pos), 1, v)
    {
      hide Sound, Balance, StandsAt, Wire, HistoryOf, AllFromFile, AllSendable, Stream.Faithful;
      ghost var pos := input.pos;
      v := GetNumber();
      Take(1, pos);
    }

    /** Whatever the packets held, and whatever was lost: every buffer on a fifo belongs to the buffers that some
        fragment made a stream send there, one after the other; and these are either one frame, put together from
        bytes that the file has at the places of that stream's fragments, or the fragment's own bytes. */
    lemma EveryBufferIsOfFile(fifo: Fifo, i: nat) returns (k: nat, parts: seq<nat>)
      requires Valid() && AllFaithful() && fifo in Fifos() && i < |fifo.out|
      ensures AllSendable(journal) && k < |journal| && journal[k].stream in streams && journal[k].stream.fifo == fifo
      ensures var at, bufs := |Wire(journal[..k], fifo)|, SentAt(journal, k);
        at <= i < at + |bufs| <= |fifo.out| && fifo.out[at..at + |bufs|] == bufs
      ensures journal[k].stream.defrag ==> FrameOfFile(input.data, journal, k, parts)
      ensures !journal[k].stream.defrag ==> Contents(SentAt(journal, k)) == journal[k].f.data
      ensures FromFile(input.data, journal[k].f)
    {
      hide Stream.Faithful, SentAt, Wire, FrameOfFile, HistoryOf, FromFile, StreamsValid, Sound;
      k := BufferFound(journal, fifo, i);
      SentStays(journal, fifo, k);
      if journal[k].stream.defrag {
        parts := FramesAreOfFile(input.data, journal, k);
      } else {
        parts := [];
        PiecesAreWhole(journal, k);
      }
    }
  }

  /** What a stream sends is what the run over its fragments sends. */
  lemma SendsThere(s: Stream, before: seq<Fragment>, f: Fragment, held: Assembly, place: Position)
    requires Sendable(s)
    ensures s.defrag && Run(Assembly([], 0, 0), before, |before|, s.shape).state == held ==>
      Sends(s, before, f) == CutAll(Step(held, f, s.shape).frames, s.fifo.pool)
    ensures !s.defrag && DirectRun(Position(0, 0), before, |before|, s.fifo.pool).0 == place ==>
      Sends(s, before, f) == DirectStep(place, f, s.fifo.pool).1
  {
    hide Run, DirectRun, Step, DirectStep, CutAll;
  }

  /** Two bits of a flags byte. */
  function Code(flags: nat, at: nat): nat
    requires at > 0
  {
    flags / at % 4
  }

  /** The width of a field by its two-bit code. */
  function Width(code: nat): (w: nat)
    ensures w == 0 || w == 1 || w == 2 || w == 4
  {
    if code == 1 then 1 else if code == 2 then 2 else if code == 3 then 4 else 0
  }
}
