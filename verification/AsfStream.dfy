/** The two routines that pass a fragment on to the decoder (src/demuxers/demux_asf.c:768-972), on the stream record
    and its buffer, refining the steps of `AsfFragments`. */
module AsfStream {
  import opened Bytes
  import opened AsfFragments
  import AsfReorder
  import Arithmetic

  /** The input plugin: a file that does not change, and a position with the semantics of lseek. */
  class Input {
    const data: seq<byte>
    var pos: nat
    /** some read came out short */
    ghost var cut: bool

    constructor (data: seq<byte>)
      ensures this.data == data && pos == 0 && !cut
    {
      this.data := data;
      pos := 0;
      cut := false;
    }

    /** A read comes out short only where the file ends, and the position never goes back. */
    ghost predicate Honest()
      reads this
    {
      cut ==> |data| <= pos
    }

    /** What a buffer of `n` bytes holds after reading into it; of the part that a short read leaves, nothing is
        known. */
    method Fetch(n: nat) returns (s: seq<byte>)
      modifies this
      ensures |s| == n
      ensures cut == (old(cut) || (n > 0 && old(pos) + n > |data|))
      ensures old(pos) <= pos
      ensures n == 0 || old(pos) + n <= |data| ==> pos == old(pos) + n
      ensures 0 < n && old(pos) + n <= |data| ==> s == data[old(pos)..pos]
      ensures old(Honest()) ==> Honest()
    {
      if n == 0 || pos + n <= |data| {
        s := if n == 0 then [] else data[pos..pos + n];
        pos := pos + n;
      } else {
        s := seq(n, _ => 0);
        pos := if pos < |data| then |data| else pos;
        cut := true;
      }
    }

    /** seek by SEEK_CUR */
    method Skip(n: nat)
      modifies this`pos
      ensures pos == old(pos) + n
    {
      pos := pos + n;
    }
  }

  class Fifo {
    const pool: nat
    var out: seq<Buf>
    /** how many buffers stood before each order to the decoder to start over */
    var resets: seq<nat>

    constructor (pool: nat)
      requires pool > 0
      ensures this.pool == pool && out == [] && resets == []
    {
      this.pool := pool;
      out := [];
      resets := [];
    }

    method Put(b: Buf)
      modifies this`out
      ensures out == old(out) + [b]
    {
      out := out + [b];
    }
  }

  /** All frames of a step, cut into buffers. */
  function CutAll(frames: seq<Frame>, pool: nat): seq<Buf>
    requires pool > 0
  {
    if frames == [] then []
    else Cut(frames[0].bytes, frames[0].timestamp * 90, pool) + CutAll(frames[1..], pool)
  }

  /** `asf_stream_t`, with the interleaving parameters that apply to the stream. */
  class Stream {
    const streamId: int
    const fifo: Fifo?
    const defrag: bool
    const shape: Shape
    const buffer: array<byte>
    var seqNo: int
    var fragOffset: nat
    var timestamp: int
    var skip: bool
    var resync: bool
    var firstSeq: bool
    /** all fragments that were handed to the stream, and the frames, or the buffers, it sent for them */
    ghost var history: seq<Fragment>
    ghost var frames: seq<Frame>
    ghost var sent: seq<Buf>

    constructor (streamId: int, fifo: Fifo?, defrag: bool, shape: Shape)
      requires shape.Valid() && (fifo != null ==> fifo.pool > 0)
      ensures Valid() && this.streamId == streamId && this.fifo == fifo && this.defrag == defrag && this.shape == shape
      ensures fragOffset == 0 && fresh(buffer) && (fifo != null && fifo.out == [] ==> Unused())
    {
      this.streamId := streamId;
      this.fifo := fifo;
      this.defrag := defrag;
      this.shape := shape;
      buffer := new byte[DEFRAG_BUFSIZE];
      seqNo := 0;
      fragOffset := 0;
      timestamp := 0;
      skip := false;
      resync := false;
      firstSeq := true;
      history := [];
      frames := [];
      sent := [];
    }

    ghost predicate Valid()
      reads this`fragOffset
    {
      && shape.Valid() && buffer.Length == DEFRAG_BUFSIZE
      && (defrag ==> fragOffset <= DEFRAG_BUFSIZE)
      && (fifo != null ==> fifo.pool > 0)
    }

    ghost function Held(): Assembly
      requires Valid() && defrag
      reads this`fragOffset, this`seqNo, this`timestamp, buffer
    {
      Assembly(buffer[..fragOffset], seqNo, timestamp)
    }

    ghost function Place(): Position
      reads this`fragOffset, this`seqNo
    {
      Position(fragOffset, seqNo)
    }

    /** What the stream holds and has sent is what the run over all its fragments gives: so every frame sent is one
        of `EveryFrameIsGenuine`. */
    ghost predicate Faithful()
      requires Valid()
      reads this`fragOffset, this`seqNo, this`timestamp, this`history, this`frames, this`sent, buffer
    {
      if defrag then Run(Assembly([], 0, 0), history, |history|, shape) == Progress(Held(), frames)
      else fifo == null || DirectRun(Position(0, 0), history, |history|, fifo.pool) == (Place(), sent)
    }

    /** Nothing was handed to the stream, and nothing is on its fifo. */
    ghost predicate Unused()
      requires Valid()
      reads this`fragOffset, this`seqNo, this`timestamp, this`history, this`frames, this`sent, buffer
      reads if fifo == null then {} else {fifo}
    {
      Faithful() && history == [] && (fifo != null ==> fifo.out == [])
    }

    /** `asf_send_buffer_defrag`; `f` is the fragment with the bytes that were read for it. */
    method SendBufferDefrag(input: Input, offset: int, seqNo: int, timestamp: int, fragLen: nat, payload: int)
      returns (ghost f: Fragment, ghost overflow: bool)
      requires Valid() && defrag && fifo != null
      modifies this`seqNo, this`fragOffset, this`timestamp, this`history, this`frames, buffer, fifo`out, input
      ensures Valid() && |f.data| == fragLen && FromFile(input.data, f)
      ensures f == Fragment(offset, seqNo, timestamp, f.data, payload, old(input.pos))
      ensures Held() == Step(old(Held()), f, shape).state
      ensures history == old(history) + [f] && frames == old(frames) + Step(old(Held()), f, shape).frames
      ensures old(Faithful()) ==> Faithful()
      ensures fifo.out == old(fifo.out) + CutAll(Step(old(Held()), f, shape).frames, fifo.pool)
      ensures overflow <==> Overflows(old(Held()), f)
      ensures (old(input.cut) ==> input.cut) && (old(input.Honest()) ==> input.Honest())
      ensures old(input.pos) <= input.pos
      ensures overflow ==> input.pos == old(input.pos)
      ensures !overflow && !input.cut ==> input.pos == old(input.pos) + fragLen
    {
      hide Flushed, Cut, CutAll, Shaped;
      overflow := false;
      ghost var before := Held();
      f := Fragment(offset, seqNo, timestamp, Standing(input.data, input.pos, fragLen), payload, input.pos);
      if fragOffset == 0 && offset == 0 {
        this.seqNo := seqNo;
        this.timestamp := timestamp;
      } else if seqNo == this.seqNo && offset == fragOffset {
      } else if offset != 0 {
        input.Skip(fragLen);
        NoFrames(fifo.pool);
        Record(f, before);
        return;
      } else {
        this.seqNo := seqNo;
        fragOffset := 0;
      }
      assert Held() == Begun(before, f);
      ghost var data;
      data, overflow := StoreAndFlush(input, fragLen, payload);
      BegunAlike(before, f, data);
      f := f.(data := data);
      Record(f, before);
    }

    ghost method Record(f: Fragment, before: Assembly)
      requires Valid() && defrag && Held() == Step(before, f, shape).state
      modifies this`history, this`frames
      ensures Valid() && history == old(history) + [f] && frames == old(frames) + Step(before, f, shape).frames
      ensures Run(Assembly([], 0, 0), old(history), |old(history)|, shape) == Progress(before, old(frames)) ==>
        Faithful()
    {
      hide Step;
      RunOneMore(Assembly([], 0, 0), history, f, shape);
      frames := frames + Step(before, f, shape).frames;
      history := history + [f];
    }

    /** The second half of `asf_send_buffer_defrag`: the bytes are read if they fit, and a complete frame is sent. */
    method StoreAndFlush(input: Input, fragLen: nat, payload: int) returns (ghost data: seq<byte>, ghost overflow: bool)
      requires Valid() && defrag && fifo != null
      modifies this`fragOffset, buffer, fifo`out, input
      ensures Valid() && |data| == fragLen
      ensures overflow <==> old(fragOffset) + fragLen > DEFRAG_BUFSIZE
      ensures Held() == SettledState(old(Held()), data, payload, shape).state
      ensures fifo.out == old(fifo.out) + CutAll(SettledState(old(Held()), data, payload, shape).frames, fifo.pool)
      ensures (old(input.cut) ==> input.cut) && (old(input.Honest()) ==> input.Honest())
      ensures old(input.pos) <= input.pos
      ensures overflow ==> input.pos == old(input.pos)
      ensures Stands(input.data, old(input.pos), data)
      ensures !overflow && !input.cut ==> input.pos == old(input.pos) + fragLen
    {
      hide Flushed, Cut, CutAll, Shaped;
      ghost var before := Held();
      if fragOffset + fragLen > DEFRAG_BUFSIZE {
        overflow := true;
        data := Standing(input.data, input.pos, fragLen);
      } else {
        overflow := false;
        var bytes := input.Fetch(fragLen);
        data := bytes;
        forall i | 0 <= i < fragLen {
          buffer[fragOffset + i] := bytes[i];
        }
        assert buffer[..fragOffset + fragLen] == before.held + bytes;
        fragOffset := fragOffset + fragLen;
      }
      NoFrames(fifo.pool);
      if fragOffset >= payload {
        Flush();
      }
    }

    /** The buffer is de-interleaved and sent in pieces of the pool's size. */
    method Flush()
      requires Valid() && defrag && fifo != null
      modifies this`fragOffset, buffer, fifo`out
      ensures Valid() && Held() == Flushed(old(Held()), shape).state
      ensures fifo.out == old(fifo.out) + CutAll(Flushed(old(Held()), shape).frames, fifo.pool)
    {
      hide Cut, AsfReorder.Reordered;
      ghost var frame := Shaped(buffer[..fragOffset], shape);
      if shape.Spread? {
        AsfReorder.Reorder(buffer, fragOffset, shape.h, shape.w, shape.b);
      }
      NoFrames(fifo.pool);
      OneFrame(frame, timestamp, fifo.pool);
      NothingToCut(timestamp * 90, fifo.pool);
      SendBuffer();
    }

    /** The loop of `asf_send_buffer_defrag` that empties the buffer. */
    method SendBuffer()
      requires Valid() && defrag && fifo != null
      modifies this`fragOffset, fifo`out
      ensures Valid() && fragOffset == 0
      ensures fifo.out == old(fifo.out) + Cut(old(buffer[..fragOffset]), timestamp * 90, fifo.pool)
    {
      hide Cut;
      ghost var frame := buffer[..fragOffset];
      ghost var pts := timestamp * 90;
      var p := 0;
      assert frame[0..] == frame && frame == buffer[..][..|frame|];
      while fragOffset != 0
        invariant p + fragOffset == |frame| <= buffer.Length && frame == buffer[..][..|frame|]
        invariant old(fifo.out) + Cut(frame, pts, fifo.pool) == fifo.out + Cut(frame[p..], pts, fifo.pool)
      {
        var bufSize := if fragOffset < fifo.pool then fragOffset else fifo.pool;
        var content := buffer[..][p..p + bufSize];
        SliceOfFront(buffer[..], |frame|, p, p + bufSize);
        NextPiece(frame[p..], pts, fifo.pool);
        PieceOf(frame, p, bufSize);
        fragOffset := fragOffset - bufSize;
        p := p + bufSize;
        fifo.Put(Buf(content, timestamp * 90, fragOffset == 0));
      }
      NothingToCut(pts, fifo.pool);
    }

    /** `asf_send_buffer_nodefrag` */
    method SendBufferNodefrag(input: Input, offset: int, seqNo: int, timestamp: int, fragLen: nat, payload: int)
      returns (ghost f: Fragment)
      requires Valid() && !defrag && fifo != null
      modifies this`seqNo, this`fragOffset, this`history, this`sent, fifo`out, input
      ensures Valid() && |f.data| == fragLen && FromFile(input.data, f)
      ensures f == Fragment(offset, seqNo, timestamp, f.data, payload, old(input.pos))
      ensures Place() == DirectStep(old(Place()), f, fifo.pool).0
      ensures history == old(history) + [f] && (old(Faithful()) ==> Faithful())
      ensures fifo.out == old(fifo.out) + DirectStep(old(Place()), f, fifo.pool).1
      ensures (old(input.cut) ==> input.cut) && (old(input.Honest()) ==> input.Honest())
      ensures old(input.pos) <= input.pos
      ensures !input.cut ==> input.pos == old(input.pos) + fragLen
    {
      hide Direct, DirectRun;
      ghost var before := Place();
      f := Fragment(offset, seqNo, timestamp, Standing(input.data, input.pos, fragLen), payload, input.pos);
      if fragOffset == 0 && offset == 0 {
        this.seqNo := seqNo;
      } else if seqNo == this.seqNo && offset == fragOffset {
      } else if offset != 0 {
        input.Skip(fragLen);
        RecordDirect(f, before);
        return;
      } else {
        this.seqNo := seqNo;
        fragOffset := 0;
      }
      ghost var data := SendPieces(input, timestamp, fragLen, payload);
      f := f.(data := data);
      RecordDirect(f, before);
    }

    ghost method RecordDirect(f: Fragment, before: Position)
      requires Valid() && !defrag && fifo != null && Place() == DirectStep(before, f, fifo.pool).0
      modifies this`history, this`sent
      ensures Valid() && history == old(history) + [f]
      ensures DirectRun(Position(0, 0), old(history), |old(history)|, fifo.pool) == (before, old(sent)) ==> Faithful()
    {
      hide DirectStep;
      DirectRunOneMore(Position(0, 0), history, f, fifo.pool);
      sent := sent + DirectStep(before, f, fifo.pool).1;
      history := history + [f];
    }

    /** The loop of `asf_send_buffer_nodefrag`: the bytes go from the input straight into buffers. */
    method SendPieces(input: Input, timestamp: int, fragLen: nat, payload: int) returns (ghost data: seq<byte>)
      requires Valid() && !defrag && fifo != null
      modifies this`fragOffset, fifo`out, input
      ensures |data| == fragLen
      ensures fragOffset == Direct(old(fragOffset), data, timestamp * 90, payload, fifo.pool).fill
      ensures fifo.out == old(fifo.out) + Direct(old(fragOffset), data, timestamp * 90, payload, fifo.pool).bufs
      ensures Stands(input.data, old(input.pos), data)
      ensures (old(input.cut) ==> input.cut) && (old(input.Honest()) ==> input.Honest())
      ensures old(input.pos) <= input.pos
      ensures !input.cut ==> input.pos == old(input.pos) + fragLen
    {
      hide Direct;
      data := [];
      var left: nat, pts := fragLen, timestamp * 90;
      ghost var sent := fifo.out;
      DirectNothing(fragOffset, pts, payload, fifo.pool);
      while left > 0
        invariant left + |data| == fragLen && (left == 0 || |data| % fifo.pool == 0)
        invariant pts == if data == [] then timestamp * 90 else 0
        invariant var done := Direct(old(fragOffset), data, timestamp * 90, payload, fifo.pool);
          fragOffset == done.fill && fifo.out == sent + done.bufs
        invariant old(input.pos) + |data| <= |input.data| ==> input.pos == old(input.pos) + |data|
        invariant Stands(input.data, old(input.pos), data)
        invariant (old(input.cut) ==> input.cut) && (old(input.Honest()) ==> input.Honest())
        invariant old(input.pos) <= input.pos
        invariant !input.cut ==> input.pos == old(input.pos) + |data|
      {
        var bufSize := if left < fifo.pool then left else fifo.pool;
        var content := input.Fetch(bufSize);
        DirectOneMore(old(fragOffset), data, content, timestamp * 90, payload, fifo.pool);
        fragOffset := fragOffset + bufSize;
        left := left - bufSize;
        var done := fragOffset >= payload;
        if done {
          fragOffset := 0;
        }
        fifo.Put(Buf(content, pts, done));
        Arithmetic.AddRemainders(|data|, fifo.pool, fifo.pool);
        Arithmetic.RemainderIs(fifo.pool, 1, 0, fifo.pool);
        data := data + content;
        pts := 0;
      }
    }
  }

  lemma DirectNothing(fill: nat, pts: int, payload: int, pool: nat)
    requires pool > 0
    ensures Direct(fill, [], pts, payload, pool) == Sending([], fill)
  {
  }

  lemma FirstPiece(fill: nat, data: seq<byte>, pts: int, payload: int, pool: nat)
    requires 0 < pool <= |data|
    ensures var done := fill + pool >= payload;
      var rest := Direct(if done then 0 else fill + pool, data[pool..], 0, payload, pool);
      Direct(fill, data, pts, payload, pool) == Sending([Buf(data[..pool], pts, done)] + rest.bufs, rest.fill)
  {
  }

  /** Full pieces first: one more piece goes out behind them. */
  lemma {:induction false} DirectOneMore(fill: nat, data: seq<byte>, more: seq<byte>, pts: int, payload: int, pool: nat)
    requires 0 < |more| <= pool && |data| % pool == 0
    ensures var before := Direct(fill, data, pts, payload, pool);
      var done := before.fill + |more| >= payload;
      Direct(fill, data + more, pts, payload, pool)
        == Sending(before.bufs + [Buf(more, if data == [] then pts else 0, done)],
                   if done then 0 else before.fill + |more|)
    decreases |data|
  {
    hide Direct;
    if data == [] {
      DirectNothing(fill, pts, payload, pool);
      OnlyPiece(fill, more, pts, payload, pool);
      assert [] + more == more;
    } else {
      WholePiece(|data|, pool);
      FirstPiece(fill, data, pts, payload, pool);
      FirstPiece(fill, data + more, pts, payload, pool);
      assert (data + more)[..pool] == data[..pool] && (data + more)[pool..] == data[pool..] + more;
      DirectOneMore(if fill + pool >= payload then 0 else fill + pool, data[pool..], more, 0, payload, pool);
    }
  }

  lemma WholePiece(n: nat, pool: nat)
    requires n > 0 && pool > 0 && n % pool == 0
    ensures n >= pool && (n - pool) % pool == 0
  {
    if n < pool {
      Arithmetic.RemainderIs(n, 0, n, pool);
    }
    Arithmetic.AddMultiple(n, -1, pool);
  }

  /** What reading and flushing do to the assembly a fragment goes into. */
  function SettledState(a: Assembly, data: seq<byte>, payload: int, shape: Shape): Progress
    requires shape.Valid()
  {
    var stored := if |a.held| + |data| > DEFRAG_BUFSIZE then a else a.(held := a.held + data);
    if |stored.held| >= payload then Flushed(stored, shape) else Progress(stored, [])
  }

  ghost predicate Overflows(a: Assembly, f: Fragment) {
    !FitOf(|a.held|, a.seqNo, f).Dropped? && |Begun(a, f).held| + |f.data| > DEFRAG_BUFSIZE
  }

  lemma BegunAlike(a: Assembly, f: Fragment, data: seq<byte>)
    requires !FitOf(|a.held|, a.seqNo, f).Dropped?
    ensures !FitOf(|a.held|, a.seqNo, f.(data := data)).Dropped? && Begun(a, f.(data := data)) == Begun(a, f)
  {
  }

  lemma NoFrames(pool: nat)
    requires pool > 0
    ensures CutAll([], pool) == []
  {
  }

  lemma OneFrame(bytes: seq<byte>, timestamp: int, pool: nat)
    requires pool > 0
    ensures CutAll([Frame(bytes, timestamp)], pool) == Cut(bytes, timestamp * 90, pool)
  {
  }

  lemma NothingToCut(pts: int, pool: nat)
    requires pool > 0
    ensures Cut([], pts, pool) == []
  {
  }

  lemma SliceOfFront(bytes: seq<byte>, n: nat, i: nat, j: nat)
    requires i <= j <= n <= |bytes|
    ensures bytes[..n][i..j] == bytes[i..j]
  {
  }

  lemma PieceOf(bytes: seq<byte>, p: nat, n: nat)
    requires p + n <= |bytes|
    ensures bytes[p..][..n] == bytes[p..p + n] && bytes[p..][n..] == bytes[p + n..]
  {
  }

  lemma NextPiece(bytes: seq<byte>, pts: int, pool: nat)
    requires pool > 0 && bytes != []
    ensures var n := if |bytes| < pool then |bytes| else pool;
      Cut(bytes, pts, pool) == [Buf(bytes[..n], pts, |bytes| == n)] + Cut(bytes[n..], pts, pool)
  {
    if |bytes| < pool {
      assert bytes[..|bytes|] == bytes && Cut(bytes[|bytes|..], pts, pool) == [];
    }
  }
}
