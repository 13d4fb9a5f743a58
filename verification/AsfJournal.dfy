/** What an ASF demultiplexer puts on the decoders' fifos, as a function of the fragments its streams were given
    (src/demuxers/demux_asf.c:768-972): every buffer on a fifo, and the bytes of the file it is made of. */
module AsfJournal {
  import opened Bytes
  import opened AsfFragments
  import opened AsfStream

  /** A stream was given a fragment. */
  datatype Event = Event(stream: Stream, f: Fragment)

  ghost predicate Sendable(s: Stream) {
    s.fifo != null && s.fifo.pool > 0 && s.shape.Valid()
  }

  ghost predicate AllSendable(j: seq<Event>) {
    forall k :: 0 <= k < |j| ==> Sendable(j[k].stream)
  }

  /** The fragments a stream was given. */
  ghost function HistoryOf(j: seq<Event>, s: Stream): seq<Fragment> {
    if j == [] then []
    else HistoryOf(j[..|j| - 1], s) + if j[|j| - 1].stream == s then [j[|j| - 1].f] else []
  }

  /** The buffers a stream sends for one more fragment. */
  ghost function Sends(s: Stream, history: seq<Fragment>, f: Fragment): seq<Buf>
    requires Sendable(s)
  {
    if s.defrag
    then CutAll(Step(Run(Assembly([], 0, 0), history, |history|, s.shape).state, f, s.shape).frames, s.fifo.pool)
    else DirectStep(DirectRun(Position(0, 0), history, |history|, s.fifo.pool).0, f, s.fifo.pool).1
  }

  /** The buffers that event `k` put on the fifo of its stream. */
  ghost function SentAt(j: seq<Event>, k: nat): seq<Buf>
    requires AllSendable(j) && k < |j|
  {
    Sends(j[k].stream, HistoryOf(j[..k], j[k].stream), j[k].f)
  }

  /** All that is on a fifo. */
  ghost function Wire(j: seq<Event>, fifo: Fifo): seq<Buf>
    requires AllSendable(j)
  {
    if j == [] then []
    else
      var n := |j| - 1;
      Wire(j[..n], fifo)
        + if j[n].stream.fifo == fifo then Sends(j[n].stream, HistoryOf(j[..n], j[n].stream), j[n].f) else []
  }

  lemma OneMoreGiven(j: seq<Event>, e: Event, s: Stream)
    ensures HistoryOf(j + [e], s) == HistoryOf(j, s) + if e.stream == s then [e.f] else []
  {
    assert (j + [e])[..|j|] == j;
  }

  lemma OneMoreOnWire(j: seq<Event>, e: Event, fifo: Fifo)
    requires AllSendable(j) && Sendable(e.stream)
    ensures AllSendable(j + [e])
    ensures Wire(j + [e], fifo)
         == Wire(j, fifo) + if e.stream.fifo == fifo then Sends(e.stream, HistoryOf(j, e.stream), e.f) else []
  {
    hide Sends;
    assert (j + [e])[..|j|] == j;
  }

  /** What an event put on a fifo stays there, between what was there before and what came after. */
  lemma {:induction false} SentStays(j: seq<Event>, fifo: Fifo, k: nat)
    requires AllSendable(j) && k < |j| && j[k].stream.fifo == fifo
    ensures Wire(j[..k], fifo) + SentAt(j, k) <= Wire(j, fifo)
    decreases |j|
  {
    hide Sends, HistoryOf;
    var n := |j| - 1;
    if k < n {
      assert j[..n][..k] == j[..k];
      SentStays(j[..n], fifo, k);
    }
  }

  /** Every buffer on a fifo is one of those that some event put there. */
  lemma {:induction false} BufferFound(j: seq<Event>, fifo: Fifo, i: nat) returns (k: nat)
    requires AllSendable(j) && i < |Wire(j, fifo)|
    ensures k < |j| && j[k].stream.fifo == fifo
    ensures |Wire(j[..k], fifo)| <= i < |Wire(j[..k], fifo)| + |SentAt(j, k)|
    ensures Wire(j, fifo)[i] == SentAt(j, k)[i - |Wire(j[..k], fifo)|]
    decreases |j|
  {
    hide Sends, HistoryOf;
    var n := |j| - 1;
    if i < |Wire(j[..n], fifo)| {
      k := BufferFound(j[..n], fifo, i);
      assert j[..n][..k] == j[..k];
    } else {
      k := n;
    }
  }

  ghost predicate AllFromFile(file: seq<byte>, j: seq<Event>) {
    forall k :: 0 <= k < |j| ==> FromFile(file, j[k].f)
  }

  lemma {:induction false} HistoryFromFile(file: seq<byte>, j: seq<Event>, s: Stream)
    requires AllFromFile(file, j)
    ensures forall f :: f in HistoryOf(j, s) ==> FromFile(file, f)
  {
    if j != [] {
      HistoryFromFile(file, j[..|j| - 1], s);
    }
  }

  /** What event `k` of a stream that puts frames together put on the fifo is one frame in pieces, or nothing: the bytes
      that stand in the file at the places of fragments with one sequence number, whose offsets abut from 0, none of
      which went into an earlier frame. */
  ghost predicate FrameOfFile(file: seq<byte>, j: seq<Event>, k: nat, parts: seq<nat>)
    requires AllSendable(j) && k < |j|
  {
    var given := HistoryOf(j[..k + 1], j[k].stream);
    FrameOf(given, parts, SentAt(j, k), j[k].stream.shape) && AsInFile(file, given, parts)
  }

  /** The buffers sent when the last of the fragments came are one frame made of the listed ones. */
  ghost predicate FrameOf(given: seq<Fragment>, parts: seq<nat>, bufs: seq<Buf>, shape: Shape)
    requires shape.Valid()
  {
    && given != []
    && (var n := |given| - 1;
        Abutting(given, parts, LastFlush(Assembly([], 0, 0), given, n, shape), n + 1, given[n].seqNo))
    && Contents(bufs) == Shaped(BytesOf(given, parts), shape)
    && (bufs == [] || LastEndsFrame(bufs))
  }

  /** If the file has all their bytes, they are what it has at their places. */
  ghost predicate AsInFile(file: seq<byte>, given: seq<Fragment>, parts: seq<nat>) {
    && (forall i :: 0 <= i < |parts| ==> parts[i] < |given|)
    && ((forall i :: 0 <= i < |parts| ==> InFile(file, given[parts[i]])) ==>
          BytesOf(given, parts) == Spans(file, given, parts))
  }

  lemma FramesAreOfFile(file: seq<byte>, j: seq<Event>, k: nat) returns (parts: seq<nat>)
    requires AllSendable(j) && AllFromFile(file, j) && k < |j| && j[k].stream.defrag
    ensures FrameOfFile(file, j, k, parts)
  {
    var s := j[k].stream;
    var given := HistoryOf(j[..k + 1], s);
    assert j[..k + 1] == j[..k] + [j[k]];
    OneMoreGiven(j[..k], j[k], s);
    HistoryFromFile(file, j[..k + 1], s);
    hide HistoryOf, FrameOf, AsInFile, SentAt, FromFile;
    parts := FrameSent(j, k, given);
    PartsAsInFile(file, given, parts, SentAt(j, k), s.shape);
  }

  lemma PartsAsInFile(file: seq<byte>, given: seq<Fragment>, parts: seq<nat>, bufs: seq<Buf>, shape: Shape)
    requires shape.Valid() && FrameOf(given, parts, bufs, shape) && forall f :: f in given ==> FromFile(file, f)
    ensures AsInFile(file, given, parts)
  {
    hide LastFlush, Shaped, BytesOf, Spans, FromFile, InFile, LastEndsFrame, Contents;
    if forall i :: 0 <= i < |parts| ==> InFile(file, given[parts[i]]) {
      BytesAreSpans(file, given, parts);
    }
  }

  lemma FrameSent(j: seq<Event>, k: nat, given: seq<Fragment>) returns (parts: seq<nat>)
    requires AllSendable(j) && k < |j| && j[k].stream.defrag && given == HistoryOf(j[..k], j[k].stream) + [j[k].f]
    ensures FrameOf(given, parts, SentAt(j, k), j[k].stream.shape)
  {
    var s, before, f := j[k].stream, HistoryOf(j[..k], j[k].stream), j[k].f;
    hide HistoryOf, Abutting, LastFlush, Shaped, Run, Step, CutAll, BytesOf, LastEndsFrame, Contents;
    var a := Assembly([], 0, 0);
    RunPrefix(a, before, given, |before|, s.shape);
    var state := Run(a, before, |before|, s.shape).state;
    var frames := Step(state, f, s.shape).frames;
    if frames == [] {
      parts := [];
      NothingSent(given, s, LastFlush(a, given, |before|, s.shape), f.seqNo);
    } else {
      parts := FrameIsGenuine(a, given, |before|, s.shape);
      AtMostOneFrame(state, f, s.shape);
      assert frames == [frames[0]];
      OneFrameSent(frames[0], s.fifo.pool);
    }
  }

  lemma NothingSent(given: seq<Fragment>, s: Stream, from: nat, seqNo: int)
    requires Sendable(s)
    ensures Abutting(given, [], from, |given|, seqNo)
    ensures CutAll([], s.fifo.pool) == [] && Contents([]) == Shaped(BytesOf(given, []), s.shape)
  {
  }

  lemma AtMostOneFrame(a: Assembly, f: Fragment, shape: Shape)
    requires shape.Valid()
    ensures |Step(a, f, shape).frames| <= 1
  {
    hide Shaped;
  }

  lemma OneFrameSent(frame: Frame, pool: nat)
    requires pool > 0
    ensures Contents(CutAll([frame], pool)) == frame.bytes
    ensures CutAll([frame], pool) == [] || LastEndsFrame(CutAll([frame], pool))
  {
    OneFrame(frame.bytes, frame.timestamp, pool);
    CutMeaning(frame.bytes, frame.timestamp * 90, pool);
  }

  /** No fragment goes into two frames. */
  lemma FramesApart(file: seq<byte>, j: seq<Event>, k: nat, m: nat, parts: seq<nat>, later: seq<nat>)
    requires AllSendable(j) && k < m < |j| && j[k].stream == j[m].stream && j[k].stream.defrag && SentAt(j, k) != []
    requires FrameOfFile(file, j, k, parts) && FrameOfFile(file, j, m, later)
    ensures forall x, y :: x in parts && y in later ==> x < y
  {
    hide *;
    var s := j[k].stream;
    PartsBetween(file, j, k, parts);
    PartsBetween(file, j, m, later);
    Flushing(j, k);
    GivenTwice(j, k, m, s);
    FlushSeparates(Assembly([], 0, 0), HistoryOf(j[..k], s), j[k].f, HistoryOf(j[..m + 1], s), s.shape);
  }

  lemma GivenTwice(j: seq<Event>, k: nat, m: nat, s: Stream)
    requires k < m < |j| && j[k].stream == j[m].stream == s
    ensures HistoryOf(j[..k + 1], s) == HistoryOf(j[..k], s) + [j[k].f]
    ensures HistoryOf(j[..k + 1], s) < HistoryOf(j[..m + 1], s)
  {
    hide HistoryOf;
    assert j[..k + 1] == j[..k] + [j[k]] && j[..m + 1] == j[..m] + [j[m]];
    OneMoreGiven(j[..k], j[k], s);
    OneMoreGiven(j[..m], j[m], s);
    HistoryGrows(j, k + 1, m, s);
  }

  lemma PartsBetween(file: seq<byte>, j: seq<Event>, k: nat, parts: seq<nat>)
    requires AllSendable(j) && k < |j| && FrameOfFile(file, j, k, parts)
    ensures var s := j[k].stream;
            var given := HistoryOf(j[..k + 1], s);
      given != []
      && forall x :: x in parts ==> LastFlush(Assembly([], 0, 0), given, |given| - 1, s.shape) <= x < |given|
  {
    hide HistoryOf, LastFlush, SentAt, Spans, BytesOf, Shaped;
  }

  lemma Flushing(j: seq<Event>, k: nat)
    requires AllSendable(j) && k < |j| && j[k].stream.defrag && SentAt(j, k) != []
    ensures var s, before := j[k].stream, HistoryOf(j[..k], j[k].stream);
      s.shape.Valid() && Step(Run(Assembly([], 0, 0), before, |before|, s.shape).state, j[k].f, s.shape).frames != []
  {
    hide HistoryOf, Run, Step;
  }

  lemma {:induction false} HistoryGrows(j: seq<Event>, k: nat, m: nat, s: Stream)
    requires k <= m <= |j|
    ensures HistoryOf(j[..k], s) <= HistoryOf(j[..m], s)
    decreases m
  {
    if k < m {
      HistoryGrows(j, k, m - 1, s);
      assert j[..m] == j[..m - 1] + [j[m - 1]];
      OneMoreGiven(j[..m - 1], j[m - 1], s);
    }
  }

  /** What event `k` of a stream that sends directly put on the fifo are the bytes of its fragment, or nothing where the
      fragment does not fit. */
  lemma PiecesAreWhole(j: seq<Event>, k: nat)
    requires AllSendable(j) && k < |j| && !j[k].stream.defrag
    ensures var before := HistoryOf(j[..k], j[k].stream);
            var p := DirectRun(Position(0, 0), before, |before|, j[k].stream.fifo.pool).0;
            var f := j[k].f;
      Contents(SentAt(j, k)) == if FitOf(p.fill, p.seqNo, f).Dropped? then [] else f.data
    ensures SentAt(j, k) != [] ==> Contents(SentAt(j, k)) == j[k].f.data
    ensures forall i :: 0 <= i < |SentAt(j, k)| ==> SentAt(j, k)[i].pts == if i == 0 then 90 * j[k].f.timestamp else 0
  {
    var s, before, f := j[k].stream, HistoryOf(j[..k], j[k].stream), j[k].f;
    hide HistoryOf, Direct, DirectRun;
    var p := DirectRun(Position(0, 0), before, |before|, s.fifo.pool).0;
    var fill := if FitOf(p.fill, p.seqNo, f).Continues? then p.fill else 0;
    DirectContents(fill, f.data, f.timestamp * 90, f.payload, s.fifo.pool);
  }

  /** A whole frame in one fragment, given to an idle stream that puts frames together, goes out at once; all its
      buffers have the time stamp in units of a 90 kHz clock. */
  lemma WholeFrameStamped(j: seq<Event>, k: nat)
    requires AllSendable(j) && k < |j| && j[k].stream.defrag
    requires j[k].f.offset == 0 && 0 < |j[k].f.data| == j[k].f.payload <= DEFRAG_BUFSIZE
    requires var before := HistoryOf(j[..k], j[k].stream);
      Run(Assembly([], 0, 0), before, |before|, j[k].stream.shape).state.held == []
    ensures SentAt(j, k) != [] && forall b :: b in SentAt(j, k) ==> b.pts == 90 * j[k].f.timestamp
  {
    var s, before, f := j[k].stream, HistoryOf(j[..k], j[k].stream), j[k].f;
    hide HistoryOf, Run, Shaped, Cut;
    var a := Run(Assembly([], 0, 0), before, |before|, s.shape).state;
    var frames := Step(a, f, s.shape).frames;
    assert [] + f.data == f.data;
    assert |frames| == 1 && frames[0].timestamp == f.timestamp && |frames[0].bytes| == |f.data|;
    CutMeaning(frames[0].bytes, f.timestamp * 90, s.fifo.pool);
    assert frames[1..] == [];
    assert CutAll([], s.fifo.pool) == [];
    assert SentAt(j, k) == CutAll(frames, s.fifo.pool);
    assert CutAll(frames, s.fifo.pool) == Cut(frames[0].bytes, f.timestamp * 90, s.fifo.pool);
  }
}
