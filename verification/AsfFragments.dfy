/** How the ASF demultiplexer puts frames together from fragments (src/demuxers/demux_asf.c:768-972), as functions on
    values: one step per fragment, and what whole runs deliver. */
module AsfFragments {
  import opened Bytes
  import opened AsfReorder

  const DEFRAG_BUFSIZE: nat := 65536

  /** A fragment as the payload parsers hand it on; `data` are the bytes that stand at `at` in the file. */
  datatype Fragment = Fragment(offset: int, seqNo: int, timestamp: int, data: seq<byte>, payload: int, at: nat)

  /** The file has all bytes of the fragment; where it has not, nothing is known of the ones it does not have. */
  predicate InFile(file: seq<byte>, f: Fragment) {
    f.at + |f.data| <= |file|
  }

  ghost predicate FromFile(file: seq<byte>, f: Fragment) {
    Stands(file, f.at, f.data)
  }

  ghost predicate Stands(file: seq<byte>, at: nat, bytes: seq<byte>) {
    at + |bytes| <= |file| ==> bytes == file[at..at + |bytes|]
  }

  /** What stands at a place, with nothing in particular beyond the end. */
  function Standing(file: seq<byte>, at: nat, n: nat): (r: seq<byte>)
    ensures |r| == n && Stands(file, at, r)
  {
    seq(n, i requires 0 <= i < n => if at + i < |file| then file[at + i] else 0)
  }

  /** What a stream remembers between fragments; the fill level is `frag_offset`. */
  datatype Assembly = Assembly(held: seq<byte>, seqNo: int, timestamp: int)

  datatype Frame = Frame(bytes: seq<byte>, timestamp: int)

  /** A buffer on its way to the decoder. */
  datatype Buf = Buf(content: seq<byte>, pts: int, frameEnd: bool)

  /** How the bytes of a frame stand in the file: as they are, or spread over `h` packets of `w` chunks of `b` bytes. */
  datatype Shape = Plain | Spread(h: nat, w: nat, b: nat)
  {
    predicate Valid() { Spread? ==> h > 1 && w > 1 && b > 0 && h * w * b > 0 }
  }

  /** Six bytes that were spread over two packets. */
  lemma SpreadByExample()
    ensures Shaped([1, 2, 3, 4, 5, 6], Spread(2, 3, 1)) == [1, 4, 2, 5, 3, 6]
  {
    var s: seq<byte> := [1, 2, 3, 4, 5, 6];
    var t := Shaped(s, Spread(2, 3, 1));
    BlockOfSix(s);
    hide Shaped, Reordered, Block;
    CellMoved(s, t, 0, 0);
    CellMoved(s, t, 0, 1);
    CellMoved(s, t, 0, 2);
    CellMoved(s, t, 1, 0);
    CellMoved(s, t, 1, 1);
    CellMoved(s, t, 1, 2);
  }

  lemma BlockOfSix(s: seq<byte>)
    requires |s| == 6
    ensures Shaped(s, Spread(2, 3, 1)) == Block(s, 2, 3, 1)
  {
    hide Block;
    assert s[..6] == s && s[6..] == [];
    assert Reordered([], 2, 3, 1) == [];
  }

  lemma CellMoved(s: seq<byte>, t: seq<byte>, y: nat, x: nat)
    requires |s| == |t| == 6 && t == Block(s, 2, 3, 1) && y < 2 && x < 3
    ensures t[x * 2 + y] == s[y * 3 + x]
  {
    hide Block, At;
    Transposed(s, 2, 3, 1, y, x);
    assert At(t, 3, 2, 1, x, y) == [t[x * 2 + y]] by {
      TallCell(t, x, y);
    }
    assert At(s, 2, 3, 1, y, x) == [s[y * 3 + x]] by {
      WideCell(s, y, x);
    }
  }

  lemma TallCell(s: seq<byte>, y: nat, x: nat)
    requires |s| == 6 && y < 3 && x < 2
    ensures At(s, 3, 2, 1, y, x) == [s[y * 2 + x]]
  {
  }

  lemma WideCell(s: seq<byte>, y: nat, x: nat)
    requires |s| == 6 && y < 2 && x < 3
    ensures At(s, 2, 3, 1, y, x) == [s[y * 3 + x]]
  {
  }

  function Shaped(s: seq<byte>, shape: Shape): (r: seq<byte>)
    requires shape.Valid()
    ensures |r| == |s|
  {
    if shape.Plain? then s else Reordered(s, shape.h, shape.w, shape.b)
  }

  // ----- one fragment -----

  /** How a fragment fits a stream that has `fill` bytes of frame `seqNo`: it starts a frame, continues it, gives it up
      and starts another, or has to be dropped. */
  datatype Fit = Starts | Continues | Restarts | Dropped

  function FitOf(fill: nat, seqNo: int, f: Fragment): (r: Fit)
    ensures r.Dropped? <==> f.offset != 0 && !(f.seqNo == seqNo && f.offset == fill)
    ensures r.Starts? || r.Restarts? <==> f.offset == 0
  {
    if fill == 0 && f.offset == 0 then Starts
    else if f.seqNo == seqNo && f.offset == fill then Continues
    else if f.offset != 0 then Dropped
    else Restarts
  }

  /** The assembly a fragment that is not dropped goes into. */
  function Begun(a: Assembly, f: Fragment): (r: Assembly)
    requires !FitOf(|a.held|, a.seqNo, f).Dropped?
    ensures r.seqNo == f.seqNo && f.offset == |r.held|
  {
    match FitOf(|a.held|, a.seqNo, f)
    case Starts => Assembly([], f.seqNo, f.timestamp)
    case Continues => a
    case Restarts => Assembly([], f.seqNo, a.timestamp)
  }

  /** The fragment's bytes are stored, unless they would not fit. */
  function Stored(a: Assembly, f: Fragment): Assembly {
    if |a.held| + |f.data| > DEFRAG_BUFSIZE then a else a.(held := a.held + f.data)
  }

  datatype Progress = Progress(state: Assembly, frames: seq<Frame>)

  function Flushed(a: Assembly, shape: Shape): Progress
    requires shape.Valid()
  {
    Progress(a.(held := []), if a.held == [] then [] else [Frame(Shaped(a.held, shape), a.timestamp)])
  }

  function Step(a: Assembly, f: Fragment, shape: Shape): Progress
    requires shape.Valid()
  {
    if FitOf(|a.held|, a.seqNo, f).Dropped? then Progress(a, [])
    else
      var stored := Stored(Begun(a, f), f);
      if |stored.held| >= f.payload then Flushed(stored, shape) else Progress(stored, [])
  }

  /** A run over the first `n` fragments, in order of arrival. */
  function Run(a: Assembly, frags: seq<Fragment>, n: nat, shape: Shape): Progress
    requires n <= |frags| && shape.Valid()
  {
    if n == 0 then Progress(a, [])
    else
      var before := Run(a, frags, n - 1, shape);
      var step := Step(before.state, frags[n - 1], shape);
      Progress(step.state, before.frames + step.frames)
  }

  lemma {:induction false} RunPrefix(a: Assembly, frags: seq<Fragment>, more: seq<Fragment>, n: nat, shape: Shape)
    requires n <= |frags| && frags <= more && shape.Valid()
    ensures Run(a, more, n, shape) == Run(a, frags, n, shape)
    decreases n
  {
    hide Step;
    if n > 0 {
      RunPrefix(a, frags, more, n - 1, shape);
    }
  }

  lemma RunOneMore(a: Assembly, frags: seq<Fragment>, f: Fragment, shape: Shape)
    requires shape.Valid()
    ensures var before := Run(a, frags, |frags|, shape);
            var step := Step(before.state, f, shape);
      Run(a, frags + [f], |frags + [f]|, shape) == Progress(step.state, before.frames + step.frames)
  {
    hide Step;
    RunPrefix(a, frags, frags + [f], |frags|, shape);
  }

  // ----- safety: what a frame is made of -----

  /** The state after a fragment, before any flush. */
  function Placed(a: Assembly, f: Fragment): Assembly {
    if FitOf(|a.held|, a.seqNo, f).Dropped? then a else Stored(Begun(a, f), f)
  }

  predicate Flushes(a: Assembly, f: Fragment) {
    !FitOf(|a.held|, a.seqNo, f).Dropped? && |Placed(a, f).held| >= f.payload
  }

  /** The numbers of the fragments whose bytes are held after the first `n`, by the same steps. */
  ghost function Parts(a: Assembly, frags: seq<Fragment>, n: nat, shape: Shape): seq<nat>
    requires n <= |frags| && shape.Valid()
    decreases n, 1
  {
    if n == 0 || Flushes(Run(a, frags, n - 1, shape).state, frags[n - 1]) then []
    else Gathered(a, frags, n, shape)
  }

  /** The fragments whose bytes were held when fragment `n - 1` had been placed, before any flush. */
  ghost function Gathered(a: Assembly, frags: seq<Fragment>, n: nat, shape: Shape): seq<nat>
    requires 0 < n <= |frags| && shape.Valid()
    decreases n, 0
  {
    var state, f := Run(a, frags, n - 1, shape).state, frags[n - 1];
    PartsStep(state, f, Parts(a, frags, n - 1, shape), n - 1)
  }

  ghost function PartsStep(state: Assembly, f: Fragment, parts: seq<nat>, n: nat): seq<nat> {
    var fit := FitOf(|state.held|, state.seqNo, f);
    if fit.Dropped? then parts
    else
      var kept := if fit.Continues? then parts else [];
      if |Begun(state, f).held| + |f.data| > DEFRAG_BUFSIZE then kept else kept + [n]
  }

  /** The bytes of the listed fragments, one after the other. */
  ghost function BytesOf(frags: seq<Fragment>, parts: seq<nat>): seq<byte>
    requires forall i :: 0 <= i < |parts| ==> parts[i] < |frags|
  {
    if parts == [] then []
    else BytesOf(frags, parts[..|parts| - 1]) + frags[parts[|parts| - 1]].data
  }

  /** What the file has at the places of the listed fragments, one after the other. */
  ghost function Spans(file: seq<byte>, frags: seq<Fragment>, parts: seq<nat>): seq<byte>
    requires forall i :: 0 <= i < |parts| ==> parts[i] < |frags| && InFile(file, frags[parts[i]])
  {
    if parts == [] then []
    else
      var f := frags[parts[|parts| - 1]];
      assert InFile(file, f);
      Spans(file, frags, parts[..|parts| - 1]) + file[f.at..f.at + |f.data|]
  }

  lemma {:induction false} BytesAreSpans(file: seq<byte>, frags: seq<Fragment>, parts: seq<nat>)
    requires forall i :: 0 <= i < |parts| ==> parts[i] < |frags| && InFile(file, frags[parts[i]])
    requires forall i :: 0 <= i < |parts| ==> FromFile(file, frags[parts[i]])
    ensures BytesOf(frags, parts) == Spans(file, frags, parts)
  {
    if parts != [] {
      BytesAreSpans(file, frags, parts[..|parts| - 1]);
      assert FromFile(file, frags[parts[|parts| - 1]]);
    }
  }

  /** Fragments that arrived one after the other, at `from` or later and before `upto`, carry the number `seqNo`, and
      whose offsets abut from 0. */
  ghost predicate Abutting(frags: seq<Fragment>, parts: seq<nat>, from: nat, upto: nat, seqNo: int) {
    upto <= |frags| && InOrder(parts, from, upto) && forall i :: 0 <= i < |parts| ==> InPlace(frags, parts, i, seqNo)
  }

  predicate InOrder(parts: seq<nat>, from: nat, upto: nat) {
    && (forall i :: 0 <= i < |parts| ==> from <= parts[i] < upto)
    && (forall i, j :: 0 <= i < j < |parts| ==> parts[i] < parts[j])
  }

  ghost predicate InPlace(frags: seq<Fragment>, parts: seq<nat>, i: nat, seqNo: int)
    requires i < |parts| && forall j :: 0 <= j < |parts| ==> parts[j] < |frags|
  {
    frags[parts[i]].seqNo == seqNo && frags[parts[i]].offset == |BytesOf(frags, parts[..i])|
  }

  /** Where the fragments after the last flush begin. */
  ghost function LastFlush(a: Assembly, frags: seq<Fragment>, n: nat, shape: Shape): (r: nat)
    requires n <= |frags| && shape.Valid()
    ensures r <= n
  {
    if n == 0 then 0
    else if Step(Run(a, frags, n - 1, shape).state, frags[n - 1], shape).frames != [] then n
    else LastFlush(a, frags, n - 1, shape)
  }

  lemma AbuttingGrows(frags: seq<Fragment>, parts: seq<nat>, from: nat, upto: nat, seqNo: int)
    requires Abutting(frags, parts, from, upto, seqNo) && from <= upto < |frags|
    requires frags[upto].seqNo == seqNo && frags[upto].offset == |BytesOf(frags, parts)|
    ensures Abutting(frags, parts + [upto], from, upto + 1, seqNo)
    ensures BytesOf(frags, parts + [upto]) == BytesOf(frags, parts) + frags[upto].data
  {
    BytesOfOneMore(frags, parts, upto);
    InOrderGrows(parts, from, upto);
    var more := parts + [upto];
    hide InOrder, BytesOf;
    forall i | 0 <= i < |more|
      ensures InPlace(frags, more, i, seqNo)
    {
      if i < |parts| {
        assert InPlace(frags, parts, i, seqNo) && more[i] == parts[i] && more[..i] == parts[..i];
      } else {
        assert more[..i] == parts;
      }
    }
  }

  lemma InOrderGrows(parts: seq<nat>, from: nat, upto: nat)
    requires InOrder(parts, from, upto) && from <= upto
    ensures InOrder(parts + [upto], from, upto + 1)
    ensures forall i :: 0 <= i < |parts| ==> (parts + [upto])[i] < upto + 1
  {
  }

  lemma BytesOfOneMore(frags: seq<Fragment>, parts: seq<nat>, n: nat)
    requires n < |frags| && forall i :: 0 <= i < |parts| ==> parts[i] < |frags|
    ensures BytesOf(frags, parts + [n]) == BytesOf(frags, parts) + frags[n].data
  {
    var more := parts + [n];
    assert more[..|more| - 1] == parts && more[|more| - 1] == n;
  }

  lemma AbuttingStays(frags: seq<Fragment>, parts: seq<nat>, from: nat, upto: nat, seqNo: int)
    requires Abutting(frags, parts, from, upto, seqNo) && upto < |frags|
    ensures Abutting(frags, parts, from, upto + 1, seqNo)
  {
  }

  /** What is held is exactly the bytes of the listed fragments, in place. */
  ghost predicate Genuine(frags: seq<Fragment>, state: Assembly, parts: seq<nat>, from: nat, upto: nat) {
    && Abutting(frags, parts, from, upto, state.seqNo)
    && state.held == BytesOf(frags, parts) && |state.held| <= DEFRAG_BUFSIZE
  }

  lemma NothingHeld(frags: seq<Fragment>, state: Assembly, from: nat, upto: nat)
    requires upto <= |frags| && state.held == []
    ensures Genuine(frags, state, [], from, upto)
  {
  }

  /** The step before a flush. */
  lemma PlacedIsGenuine(frags: seq<Fragment>, state: Assembly, parts: seq<nat>, from: nat, n: nat)
    requires from <= n < |frags| && Genuine(frags, state, parts, from, n)
    ensures Genuine(frags, Placed(state, frags[n]), PartsStep(state, frags[n], parts, n), from, n + 1)
  {
    hide Abutting, BytesOf;
    var f := frags[n];
    var fit := FitOf(|state.held|, state.seqNo, f);
    AbuttingStays(frags, parts, from, n, state.seqNo);
    if !fit.Dropped? {
      var kept := if fit.Continues? then parts else [];
      if !fit.Continues? {
        NothingHeld(frags, Begun(state, f), from, n);
      }
      AbuttingStays(frags, kept, from, n, f.seqNo);
      AbuttingGrows(frags, kept, from, n, f.seqNo);
    }
  }

  /** At any time the buffer holds exactly the bytes of fragments of one frame, in place, none of them used before. */
  lemma {:induction false} HeldIsGenuine(a: Assembly, frags: seq<Fragment>, n: nat, shape: Shape)
    requires n <= |frags| && shape.Valid() && a.held == []
    ensures Genuine(frags, Run(a, frags, n, shape).state, Parts(a, frags, n, shape), LastFlush(a, frags, n, shape), n)
    decreases n
  {
    hide Genuine, Shaped, FitOf, PartsStep;
    if n == 0 {
      NothingHeld(frags, a, 0, 0);
    } else {
      HeldIsGenuine(a, frags, n - 1, shape);
      var state := Run(a, frags, n - 1, shape).state;
      PlacedIsGenuine(frags, state, Parts(a, frags, n - 1, shape), LastFlush(a, frags, n - 1, shape), n - 1);
      if Flushes(state, frags[n - 1]) {
        NothingHeld(frags, Run(a, frags, n, shape).state, LastFlush(a, frags, n, shape), n);
      }
    }
  }

  /** Every frame a run delivers, whatever fragments were lost, repeated or exchanged: its bytes are those of fragments
      with one single sequence number whose offsets abut from 0, none of which went into an earlier frame. */
  lemma FrameIsGenuine(a: Assembly, frags: seq<Fragment>, n: nat, shape: Shape) returns (parts: seq<nat>)
    requires n < |frags| && shape.Valid() && a.held == []
    requires Step(Run(a, frags, n, shape).state, frags[n], shape).frames != []
    ensures Abutting(frags, parts, LastFlush(a, frags, n, shape), n + 1, frags[n].seqNo)
    ensures Step(Run(a, frags, n, shape).state, frags[n], shape).frames[0].bytes == Shaped(BytesOf(frags, parts), shape)
    ensures 0 < |BytesOf(frags, parts)| <= DEFRAG_BUFSIZE && frags[n].payload <= |BytesOf(frags, parts)|
  {
    HeldIsGenuine(a, frags, n, shape);
    hide Abutting, Run, Parts, LastFlush, Shaped;
    var state := Run(a, frags, n, shape).state;
    PlacedIsGenuine(frags, state, Parts(a, frags, n, shape), LastFlush(a, frags, n, shape), n);
    parts := PartsStep(state, frags[n], Parts(a, frags, n, shape), n);
  }

  /** The same of every frame of a run. */
  lemma {:induction false} EveryFrameIsGenuine(a: Assembly, frags: seq<Fragment>, m: nat, shape: Shape, k: nat)
    returns (n: nat, parts: seq<nat>)
    requires m <= |frags| && shape.Valid() && a.held == [] && k < |Run(a, frags, m, shape).frames|
    ensures n < m && Abutting(frags, parts, LastFlush(a, frags, n, shape), n + 1, frags[n].seqNo)
    ensures Run(a, frags, m, shape).frames[k].bytes == Shaped(BytesOf(frags, parts), shape)
    ensures 0 < |BytesOf(frags, parts)| <= DEFRAG_BUFSIZE && frags[n].payload <= |BytesOf(frags, parts)|
    decreases m
  {
    hide Abutting, LastFlush, Shaped;
    var before := Run(a, frags, m - 1, shape);
    if k < |before.frames| {
      n, parts := EveryFrameIsGenuine(a, frags, m - 1, shape, k);
    } else {
      n := m - 1;
      parts := FrameIsGenuine(a, frags, n, shape);
    }
  }

  lemma {:induction false} FlushedBefore(a: Assembly, frags: seq<Fragment>, n: nat, m: nat, shape: Shape)
    requires n < m <= |frags| && shape.Valid()
    requires Step(Run(a, frags, n, shape).state, frags[n], shape).frames != []
    ensures n < LastFlush(a, frags, m, shape)
    decreases m
  {
    hide Step, Run;
    if n < m - 1 {
      FlushedBefore(a, frags, n, m - 1, shape);
    }
  }

  /** After a frame was flushed with fragment `f`, all that is gathered came later. */
  lemma FlushSeparates(a: Assembly, before: seq<Fragment>, f: Fragment, more: seq<Fragment>, shape: Shape)
    requires shape.Valid() && before + [f] <= more && |before| + 1 < |more|
    requires Step(Run(a, before, |before|, shape).state, f, shape).frames != []
    ensures |before| < LastFlush(a, more, |more| - 1, shape)
  {
    hide Step, Run, LastFlush;
    assert before <= more && more[|before|] == f;
    RunPrefix(a, before, more, |before|, shape);
    FlushedBefore(a, more, |before|, |more| - 1, shape);
  }

  // ----- liveness: a complete frame is delivered -----

  /** The bytes of all the fragments. */
  function Joined(series: seq<Fragment>): seq<byte> {
    if series == [] then [] else Joined(series[..|series| - 1]) + series[|series| - 1].data
  }

  /** The fragments of one frame, complete and in order. */
  ghost predicate Complete(series: seq<Fragment>, seqNo: int, payload: nat) {
    && |series| > 0 && |Joined(series)| == payload
    && forall k :: 0 <= k < |series| ==> FragmentAt(series, k, seqNo, payload)
  }

  ghost predicate FragmentAt(series: seq<Fragment>, k: nat, seqNo: int, payload: nat)
    requires k < |series|
  {
    && series[k].seqNo == seqNo && series[k].payload == payload && |series[k].data| > 0
    && series[k].offset == |Joined(series[..k])|
  }

  lemma {:induction false} JoinedLength(series: seq<Fragment>, k: nat, seqNo: int, payload: nat)
    requires Complete(series, seqNo, payload) && k <= |series|
    ensures |Joined(series[..k])| <= payload
    ensures k < |series| ==> |Joined(series[..k])| < payload
    ensures k > 0 ==> Joined(series[..k]) == Joined(series[..k - 1]) + series[k - 1].data
    decreases |series| - k
  {
    if k > 0 {
      assert series[..k][..k - 1] == series[..k - 1];
    }
    if k < |series| {
      JoinedLength(series, k + 1, seqNo, payload);
      assert FragmentAt(series, k, seqNo, payload);
    } else {
      assert series[..k] == series;
    }
  }

  /** Whatever arrived before, a complete frame in order is delivered, once and alone; only its time stamp may be
      that of a frame that was begun and not finished before. */
  lemma CompleteFrameDelivered(a: Assembly, series: seq<Fragment>, seqNo: int, payload: nat, shape: Shape)
    requires shape.Valid() && Complete(series, seqNo, payload) && payload <= DEFRAG_BUFSIZE
    ensures Run(a, series, |series|, shape).frames
         == [Frame(Shaped(Joined(series), shape), if a.held == [] then series[0].timestamp else a.timestamp)]
    ensures Run(a, series, |series|, shape).state.held == []
  {
    var n := |series| - 1;
    SeriesHeld(a, series, n, seqNo, payload, shape);
    LastOfSeries(series, seqNo, payload);
    hide Shaped, Joined, Step, Complete, FragmentAt;
    var before := Run(a, series, n, shape);
    LastFragment(before.state, series[n], shape);
    assert [] + Step(before.state, series[n], shape).frames == Step(before.state, series[n], shape).frames;
  }

  lemma LastOfSeries(series: seq<Fragment>, seqNo: int, payload: nat)
    requires Complete(series, seqNo, payload)
    ensures var n := |series| - 1;
      && series[n].seqNo == seqNo && series[n].offset == |Joined(series[..n])| && |series[n].data| > 0
      && series[n].offset + |series[n].data| == series[n].payload == payload
      && Joined(series) == Joined(series[..n]) + series[n].data && (n == 0 <==> series[n].offset == 0)
      && (n == 0 ==> Joined(series[..n]) == [])
  {
    var n := |series| - 1;
    assert FragmentAt(series, n, seqNo, payload);
    if n == 0 {
      assert series[..0] == [];
    } else {
      JoinedLength(series, n, seqNo, payload);
      assert FragmentAt(series, n - 1, seqNo, payload);
    }
  }

  /** The bytes that complete a frame. */
  lemma LastFragment(a: Assembly, f: Fragment, shape: Shape)
    requires shape.Valid() && |f.data| > 0 && f.offset + |f.data| == f.payload <= DEFRAG_BUFSIZE
    requires f.offset == 0 || (f.seqNo == a.seqNo && f.offset == |a.held|)
    ensures Step(a, f, shape).state.held == []
    ensures var bytes := (if f.offset == 0 then [] else a.held) + f.data;
            var stamp := if f.offset == 0 && a.held == [] then f.timestamp else a.timestamp;
      Step(a, f, shape).frames == [Frame(Shaped(bytes, shape), stamp)]
  {
  }

  function SeriesState(a: Assembly, series: seq<Fragment>, k: nat, seqNo: int): Assembly
    requires 0 < k <= |series|
  {
    Assembly(Joined(series[..k]), seqNo, if a.held == [] then series[0].timestamp else a.timestamp)
  }

  lemma {:induction false} SeriesHeld(a: Assembly, series: seq<Fragment>, k: nat, seqNo: int, payload: nat,
                                      shape: Shape)
    requires shape.Valid() && Complete(series, seqNo, payload) && payload <= DEFRAG_BUFSIZE && k < |series|
    ensures Run(a, series, k, shape).frames == []
    ensures k == 0 ==> Run(a, series, k, shape).state == a
    ensures k > 0 ==> Run(a, series, k, shape).state == SeriesState(a, series, k, seqNo)
    decreases k
  {
    if k > 0 {
      SeriesHeld(a, series, k - 1, seqNo, payload, shape);
      JoinedLength(series, k, seqNo, payload);
      JoinedLength(series, k - 1, seqNo, payload);
      assert FragmentAt(series, k - 1, seqNo, payload);
      if k > 1 {
        JoinedLength(series, k - 2, seqNo, payload);
        assert FragmentAt(series, k - 2, seqNo, payload);
        assert Joined(series[..k - 1]) == Joined(series[..k - 2]) + series[k - 2].data by {
          JoinedLength(series, k - 1, seqNo, payload);
        }
      }
    }
  }

  /** The time stamp of a complete frame is its own exactly when the stream was idle or had the same one before. */
  lemma TimestampIsOwn(a: Assembly, series: seq<Fragment>, seqNo: int, payload: nat, shape: Shape)
    requires shape.Valid() && Complete(series, seqNo, payload) && payload <= DEFRAG_BUFSIZE
    ensures Run(a, series, |series|, shape).frames == [Frame(Shaped(Joined(series), shape), series[0].timestamp)]
       <==> a.held == [] || a.timestamp == series[0].timestamp
  {
    CompleteFrameDelivered(a, series, seqNo, payload, shape);
  }

  /** A frame whose end is lost leaves its time stamp to the next one. */
  lemma TimestampLeftOver()
    ensures var lost := Fragment(0, 1, 10, [0], 2, 0);
            var whole := Fragment(0, 2, 20, [0], 1, 0);
      Run(Assembly([], 0, 0), [lost, whole], 2, Plain).frames == [Frame([0], 10)]
  {
    var lost, whole := Fragment(0, 1, 10, [0], 2, 0), Fragment(0, 2, 20, [0], 1, 0);
    var a := Assembly([], 0, 0);
    assert Step(a, lost, Plain) == Progress(Assembly([0], 1, 10), []);
    assert Run(a, [lost, whole], 0, Plain) == Progress(a, []);
    assert Run(a, [lost, whole], 1, Plain) == Progress(Assembly([0], 1, 10), []);
    assert Step(Assembly([0], 1, 10), whole, Plain).frames == [Frame([0], 10)];
  }

  // ----- buffers -----

  /** A frame cut into buffers of the pool's size; all carry its time stamp, the last one ends the frame. */
  function Cut(bytes: seq<byte>, pts: int, pool: nat): (bufs: seq<Buf>)
    requires pool > 0
    ensures bytes == [] <==> bufs == []
  {
    if bytes == [] then []
    else if |bytes| < pool then [Buf(bytes, pts, true)]
    else [Buf(bytes[..pool], pts, |bytes| == pool)] + Cut(bytes[pool..], pts, pool)
  }

  function Contents(bufs: seq<Buf>): seq<byte> {
    if bufs == [] then [] else bufs[0].content + Contents(bufs[1..])
  }

  lemma {:induction false} CutMeaning(bytes: seq<byte>, pts: int, pool: nat)
    requires pool > 0
    ensures var bufs := Cut(bytes, pts, pool);
      && Contents(bufs) == bytes
      && forall k :: 0 <= k < |bufs| ==>
           0 < |bufs[k].content| <= pool && bufs[k].pts == pts && (bufs[k].frameEnd <==> k == |bufs| - 1)
    decreases |bytes|
  {
    if |bytes| >= pool {
      CutMeaning(bytes[pool..], pts, pool);
      assert Cut(bytes, pts, pool)[1..] == Cut(bytes[pool..], pts, pool);
      assert bytes == bytes[..pool] + bytes[pool..];
    } else if bytes != [] {
      var last := Cut(bytes, pts, pool);
      assert last[1..] == [];
    }
  }

  // ----- streams sent without defragmentation -----

  datatype Sending = Sending(bufs: seq<Buf>, fill: nat)

  /** The loop of `asf_send_buffer_nodefrag`. */
  function Direct(fill: nat, data: seq<byte>, pts: int, payload: int, pool: nat): Sending
    requires pool > 0
    decreases |data|
  {
    if data == [] then Sending([], fill)
    else
      var n := if |data| < pool then |data| else pool;
      var done := fill + n >= payload;
      var rest := Direct(if done then 0 else fill + n, data[n..], 0, payload, pool);
      Sending([Buf(data[..n], pts, done)] + rest.bufs, rest.fill)
  }

  predicate NoFrameEnd(bufs: seq<Buf>) {
    forall k :: 0 <= k < |bufs| ==> !bufs[k].frameEnd
  }

  /** Exactly one buffer ends a frame: the last. */
  predicate LastEndsFrame(bufs: seq<Buf>) {
    bufs != [] && forall k :: 0 <= k < |bufs| ==> (bufs[k].frameEnd <==> k == |bufs| - 1)
  }

  datatype Position = Position(fill: nat, seqNo: int)

  /** One fragment sent directly: only a count and the sequence number are kept. */
  function DirectStep(p: Position, f: Fragment, pool: nat): (Position, seq<Buf>)
    requires pool > 0
  {
    var fit := FitOf(p.fill, p.seqNo, f);
    if fit.Dropped? then (p, [])
    else
      var sent := Direct(if fit.Continues? then p.fill else 0, f.data, f.timestamp * 90, f.payload, pool);
      (Position(sent.fill, f.seqNo), sent.bufs)
  }

  function DirectRun(p: Position, frags: seq<Fragment>, n: nat, pool: nat): (Position, seq<Buf>)
    requires n <= |frags| && pool > 0
  {
    if n == 0 then (p, [])
    else
      var before := DirectRun(p, frags, n - 1, pool);
      var step := DirectStep(before.0, frags[n - 1], pool);
      (step.0, before.1 + step.1)
  }

  lemma {:induction false} DirectRunPrefix(p: Position, frags: seq<Fragment>, f: Fragment, n: nat, pool: nat)
    requires n <= |frags| && pool > 0
    ensures DirectRun(p, frags + [f], n, pool) == DirectRun(p, frags, n, pool)
    decreases n
  {
    hide DirectStep;
    if n > 0 {
      DirectRunPrefix(p, frags, f, n - 1, pool);
    }
  }

  lemma DirectRunOneMore(p: Position, frags: seq<Fragment>, f: Fragment, pool: nat)
    requires pool > 0
    ensures var before := DirectRun(p, frags, |frags|, pool);
            var step := DirectStep(before.0, f, pool);
      DirectRun(p, frags + [f], |frags + [f]|, pool) == (step.0, before.1 + step.1)
  {
    hide DirectStep;
    DirectRunPrefix(p, frags, f, |frags|, pool);
  }

  lemma Reassociate(a: seq<byte>, b: seq<byte>, c: seq<byte>)
    ensures (a + b) + c == a + (b + c)
  {
  }

  lemma {:induction false} ContentsAdd(a: seq<Buf>, b: seq<Buf>)
    ensures Contents(a + b) == Contents(a) + Contents(b)
  {
    if a == [] {
      assert a + b == b;
    } else {
      ContentsAdd(a[1..], b);
      assert (a + b)[1..] == a[1..] + b && (a + b)[0] == a[0];
      Reassociate(a[0].content, Contents(a[1..]), Contents(b));
    }
  }

  /** Nothing of a fragment is lost on the way, and below the payload size no frame ends. */
  lemma DirectUnfolds(fill: nat, data: seq<byte>, pts: int, payload: int, pool: nat)
    returns (n: nat, next: nat, first: Buf)
    requires pool > 0 && data != []
    ensures 0 < n <= |data| && first == Buf(data[..n], pts, fill + n >= payload)
    ensures next == if fill + n >= payload then 0 else fill + n
    ensures var rest := Direct(next, data[n..], 0, payload, pool);
      Direct(fill, data, pts, payload, pool) == Sending([first] + rest.bufs, rest.fill)
  {
    n := if |data| < pool then |data| else pool;
    next := if fill + n >= payload then 0 else fill + n;
    first := Buf(data[..n], pts, fill + n >= payload);
  }

  lemma OnlyPiece(fill: nat, data: seq<byte>, pts: int, payload: int, pool: nat)
    requires 0 < |data| <= pool
    ensures var done := fill + |data| >= payload;
      Direct(fill, data, pts, payload, pool)
        == Sending([Buf(data, pts, done)], if done then 0 else fill + |data|)
  {
    assert data[..|data|] == data && data[|data|..] == [];
  }

  lemma ContentsOfFirst(first: Buf, rest: seq<Buf>)
    ensures Contents([first] + rest) == first.content + Contents(rest)
  {
  }

  /** Nothing of a fragment is lost on the way; only its first buffer has its time stamp. */
  lemma {:induction false} DirectContents(fill: nat, data: seq<byte>, pts: int, payload: int, pool: nat)
    requires pool > 0
    ensures Contents(Direct(fill, data, pts, payload, pool).bufs) == data
    ensures StampedFirst(Direct(fill, data, pts, payload, pool).bufs, pts)
    decreases |data|
  {
    if data != [] {
      var n, next, first := DirectUnfolds(fill, data, pts, payload, pool);
      hide Direct, Contents;
      DirectContents(next, data[n..], 0, payload, pool);
      ContentsOfFirst(first, Direct(next, data[n..], 0, payload, pool).bufs);
      assert data == data[..n] + data[n..];
    }
  }

  predicate StampedFirst(bufs: seq<Buf>, pts: int) {
    forall k :: 0 <= k < |bufs| ==> bufs[k].pts == if k == 0 then pts else 0
  }

  /** Below the payload size no frame ends, and where the payload size is reached exactly one ends. */
  lemma {:induction false} DirectEnds(fill: nat, data: seq<byte>, pts: int, payload: int, pool: nat)
    requires pool > 0 && data != []
    ensures var sent := Direct(fill, data, pts, payload, pool);
      && (fill + |data| < payload ==> sent.fill == fill + |data| && NoFrameEnd(sent.bufs))
      && (fill + |data| == payload ==> sent.fill == 0 && LastEndsFrame(sent.bufs))
    decreases |data|
  {
    var n, next, first := DirectUnfolds(fill, data, pts, payload, pool);
    if n == |data| {
      assert Direct(next, data[n..], 0, payload, pool) == Sending([], next);
    } else {
      hide Direct;
      DirectEnds(next, data[n..], 0, payload, pool);
    }
  }

  /** The bytes sent since the last end of frame before buffer `k`, of which `fill` were sent before the first. */
  function Since(fill: nat, bufs: seq<Buf>, k: nat): nat
    requires k <= |bufs|
  {
    if k == 0 then fill else if bufs[k - 1].frameEnd then 0 else Since(fill, bufs, k - 1) + |bufs[k - 1].content|
  }

  lemma {:induction false} SinceShifts(fill: nat, first: Buf, rest: seq<Buf>, k: nat)
    requires k <= |rest|
    ensures var next := if first.frameEnd then 0 else fill + |first.content|;
      Since(fill, [first] + rest, k + 1) == Since(next, rest, k)
  {
    if k > 0 {
      SinceShifts(fill, first, rest, k - 1);
    } else {
      assert Since(fill, [first] + rest, 0) == fill;
    }
  }

  /** A buffer ends a frame exactly if with it the payload size is reached or passed. */
  ghost predicate EndsWhereFull(fill: nat, bufs: seq<Buf>, payload: int) {
    forall k :: 0 <= k < |bufs| ==> EndsAt(fill, bufs, payload, k)
  }

  ghost predicate EndsAt(fill: nat, bufs: seq<Buf>, payload: int, k: nat)
    requires k < |bufs|
  {
    bufs[k].frameEnd <==> Since(fill, bufs, k) + |bufs[k].content| >= payload
  }

  /** Where frames end, whatever the payload size is: also for a fragment that runs past it. */
  lemma {:induction false} DirectEndsWhereFull(fill: nat, data: seq<byte>, pts: int, payload: int, pool: nat)
    requires pool > 0
    ensures var sent := Direct(fill, data, pts, payload, pool);
      EndsWhereFull(fill, sent.bufs, payload) && sent.fill == Since(fill, sent.bufs, |sent.bufs|)
    decreases |data|
  {
    hide Direct, EndsWhereFull, Since;
    if data == [] {
      NothingSince(fill, pts, payload, pool);
    } else {
      var n, next, first := DirectUnfolds(fill, data, pts, payload, pool);
      DirectEndsWhereFull(next, data[n..], 0, payload, pool);
      var rest := Direct(next, data[n..], 0, payload, pool).bufs;
      SinceShifts(fill, first, rest, |rest|);
      EndsOfFirst(fill, first, rest, payload, next);
    }
  }

  lemma NothingSince(fill: nat, pts: int, payload: int, pool: nat)
    requires pool > 0
    ensures Direct(fill, [], pts, payload, pool) == Sending([], fill)
    ensures EndsWhereFull(fill, [], payload) && Since(fill, [], 0) == fill
  {
  }

  lemma EndsOfFirst(fill: nat, first: Buf, rest: seq<Buf>, payload: int, next: nat)
    requires first.frameEnd <==> fill + |first.content| >= payload
    requires next == (if first.frameEnd then 0 else fill + |first.content|) && EndsWhereFull(next, rest, payload)
    ensures EndsWhereFull(fill, [first] + rest, payload)
  {
    forall k | 0 <= k < |rest| + 1
      ensures EndsAt(fill, [first] + rest, payload, k)
    {
      if k == 0 {
        assert Since(fill, [first] + rest, 0) == fill;
      } else {
        assert EndsAt(next, rest, payload, k - 1);
        SinceShifts(fill, first, rest, k - 1);
        hide Since;
      }
    }
  }

  /** The sequence number of the fragment that each buffer of a run came from. */
  function Numbers(p: Position, frags: seq<Fragment>, n: nat, pool: nat): (r: seq<int>)
    requires n <= |frags| && pool > 0
    ensures |r| == |DirectRun(p, frags, n, pool).1|
  {
    if n == 0 then []
    else
      var step := DirectStep(DirectRun(p, frags, n - 1, pool).0, frags[n - 1], pool);
      Numbers(p, frags, n - 1, pool) + Repeated(frags[n - 1].seqNo, |step.1|)
  }

  function Repeated(x: int, n: nat): (r: seq<int>)
    ensures |r| == n && forall i :: 0 <= i < n ==> r[i] == x
  {
    seq(n, _ => x)
  }

  /** Between two ends of frame all buffers are of one number. */
  ghost predicate Unmixed(bufs: seq<Buf>, numbers: seq<int>)
    requires |numbers| == |bufs|
  {
    forall i {:trigger bufs[i].frameEnd} :: 0 <= i < |bufs| - 1 ==> bufs[i].frameEnd || numbers[i] == numbers[i + 1]
  }

  /** Fragment `k` is sent while bytes of another number have gone out and their frame has not ended. */
  ghost predicate MixesIn(p: Position, frags: seq<Fragment>, k: nat, pool: nat)
    requires k < |frags| && pool > 0
  {
    var (before, bufs) := DirectRun(p, frags, k, pool);
    && DirectStep(before, frags[k], pool).1 != [] && bufs != [] && !bufs[|bufs| - 1].frameEnd
    && Numbers(p, frags, k, pool)[|bufs| - 1] != frags[k].seqNo
  }

  lemma UnmixedOneMore(p: Position, frags: seq<Fragment>, n: nat, pool: nat)
    requires n < |frags| && pool > 0
    ensures Unmixed(DirectRun(p, frags, n + 1, pool).1, Numbers(p, frags, n + 1, pool))
       <==> Unmixed(DirectRun(p, frags, n, pool).1, Numbers(p, frags, n, pool)) && !MixesIn(p, frags, n, pool)
  {
    hide DirectStep, Unmixed, Repeated;
    var (before, bufs) := DirectRun(p, frags, n, pool);
    var more, number, numbers := DirectStep(before, frags[n], pool).1, frags[n].seqNo, Numbers(p, frags, n, pool);
    UnmixedAdd(bufs, numbers, more, number);
    assert Numbers(p, frags, n + 1, pool) == numbers + Repeated(number, |more|);
  }

  lemma NothingMixed(p: Position, frags: seq<Fragment>, pool: nat)
    requires pool > 0
    ensures Unmixed(DirectRun(p, frags, 0, pool).1, Numbers(p, frags, 0, pool))
  {
  }

  /** In any run, also one with empty fragments: what is sent shows where frames are mixed. */
  lemma {:induction false} UnmixedByBuffers(p: Position, frags: seq<Fragment>, n: nat, pool: nat)
    requires n <= |frags| && pool > 0
    ensures Unmixed(DirectRun(p, frags, n, pool).1, Numbers(p, frags, n, pool))
       <==> forall k :: 0 <= k < n ==> !MixesIn(p, frags, k, pool)
    decreases n
  {
    hide MixesIn, DirectRun, Numbers, Unmixed;
    if n == 0 {
      NothingMixed(p, frags, pool);
    } else {
      UnmixedByBuffers(p, frags, n - 1, pool);
      UnmixedOneMore(p, frags, n - 1, pool);
    }
  }

  lemma UnmixedAdd(bufs: seq<Buf>, numbers: seq<int>, more: seq<Buf>, number: int)
    requires |numbers| == |bufs|
    ensures Unmixed(bufs + more, numbers + Repeated(number, |more|))
       <==> Unmixed(bufs, numbers)
            && (more == [] || bufs == [] || bufs[|bufs| - 1].frameEnd || numbers[|bufs| - 1] == number)
  {
    var all, labels := bufs + more, numbers + Repeated(number, |more|);
    if Unmixed(all, labels) {
      forall i | 0 <= i < |bufs| - 1
        ensures bufs[i].frameEnd || numbers[i] == numbers[i + 1]
      {
        assert all[i].frameEnd == bufs[i].frameEnd && labels[i] == numbers[i] && labels[i + 1] == numbers[i + 1];
      }
      if bufs != [] && more != [] {
        var i := |bufs| - 1;
        assert all[i].frameEnd == bufs[i].frameEnd && labels[i] == numbers[i] && labels[i + 1] == number;
      }
    }
    if Unmixed(bufs, numbers)
       && (more == [] || bufs == [] || bufs[|bufs| - 1].frameEnd || numbers[|bufs| - 1] == number) {
      forall i | 0 <= i < |all| - 1
        ensures all[i].frameEnd || labels[i] == labels[i + 1]
      {
        if i < |bufs| - 1 {
          assert bufs[i].frameEnd == all[i].frameEnd && labels[i] == numbers[i] && labels[i + 1] == numbers[i + 1];
        } else if i == |bufs| - 1 {
          assert all[i] == bufs[i] && labels[i] == numbers[i];
        }
      }
    }
  }

  /** The first fragment of a frame comes while a frame with another number is unfinished. */
  predicate Abandons(before: Position, f: Fragment) {
    before.fill > 0 && f.offset == 0 && f.seqNo != before.seqNo
  }

  ghost predicate AllWithData(frags: seq<Fragment>, n: nat)
    requires n <= |frags|
  {
    forall k :: 0 <= k < n ==> frags[k].data != []
  }

  /** A frame that a loss leaves unfinished is not ended, and what comes after is added to it: from an idle stream on,
      the bytes between two ends of frame are of one sequence number exactly if no fragment abandons a frame. */
  lemma UnmixedExactly(p: Position, frags: seq<Fragment>, n: nat, pool: nat)
    requires n <= |frags| && pool > 0 && p.fill == 0 && AllWithData(frags, n)
    ensures Unmixed(DirectRun(p, frags, n, pool).1, Numbers(p, frags, n, pool))
       <==> forall k :: 0 <= k < n ==> !Abandons(DirectRun(p, frags, k, pool).0, frags[k])
  {
    UnmixedByBuffers(p, frags, n, pool);
    hide DirectRun, MixesIn, Abandons, Unmixed, Numbers;
    forall k | 0 <= k < n
      ensures MixesIn(p, frags, k, pool) <==> Abandons(DirectRun(p, frags, k, pool).0, frags[k])
    {
      MixesIfAbandoned(p, frags, k, pool);
    }
  }

  lemma MixesIfAbandoned(p: Position, frags: seq<Fragment>, k: nat, pool: nat)
    requires k < |frags| && pool > 0 && p.fill == 0 && AllWithData(frags, k + 1)
    ensures MixesIn(p, frags, k, pool) <==> Abandons(DirectRun(p, frags, k, pool).0, frags[k])
  {
    OpenNumber(p, frags, k, pool);
    FillIsOpen(p, frags, k, pool);
    var f, before := frags[k], DirectRun(p, frags, k, pool).0;
    SomethingSent(before, f, pool);
    hide DirectRun, DirectStep, Numbers;
  }

  lemma SomethingSent(p: Position, f: Fragment, pool: nat)
    requires pool > 0 && f.data != []
    ensures DirectStep(p, f, pool).1 == [] <==> FitOf(p.fill, p.seqNo, f).Dropped?
  {
    var fill := if FitOf(p.fill, p.seqNo, f).Continues? then p.fill else 0;
    var _, _, _ := DirectUnfolds(fill, f.data, f.timestamp * 90, f.payload, pool);
    hide Direct;
  }

  /** Bytes of a frame are counted exactly while the last buffer has not ended one. */
  lemma {:induction false} DirectLast(fill: nat, data: seq<byte>, pts: int, payload: int, pool: nat)
    requires pool > 0 && data != []
    ensures var sent := Direct(fill, data, pts, payload, pool);
      sent.bufs != [] && (sent.fill == 0 <==> sent.bufs[|sent.bufs| - 1].frameEnd)
    decreases |data|
  {
    var n, next, first := DirectUnfolds(fill, data, pts, payload, pool);
    if n == |data| {
      assert Direct(next, data[n..], 0, payload, pool) == Sending([], next);
    } else {
      hide Direct;
      DirectLast(next, data[n..], 0, payload, pool);
    }
  }

  lemma {:induction false} FillIsOpen(p: Position, frags: seq<Fragment>, n: nat, pool: nat)
    requires n <= |frags| && pool > 0 && p.fill == 0 && AllWithData(frags, n)
    ensures var (after, bufs) := DirectRun(p, frags, n, pool);
      after.fill > 0 <==> bufs != [] && !bufs[|bufs| - 1].frameEnd
    decreases n
  {
    if n > 0 {
      FillIsOpen(p, frags, n - 1, pool);
      hide Direct;
      var (before, bufs) := DirectRun(p, frags, n - 1, pool);
      var f := frags[n - 1];
      assert bufs + [] == bufs;
      var fill := if FitOf(before.fill, before.seqNo, f).Continues? then before.fill else 0;
      DirectLast(fill, f.data, f.timestamp * 90, f.payload, pool);
    }
  }

  lemma {:induction false} OpenNumber(p: Position, frags: seq<Fragment>, n: nat, pool: nat)
    requires n <= |frags| && pool > 0 && p.fill == 0
    ensures var (after, bufs) := DirectRun(p, frags, n, pool);
      after.fill > 0 ==> bufs != [] && Numbers(p, frags, n, pool)[|bufs| - 1] == after.seqNo
    decreases n
  {
    if n > 0 {
      OpenNumber(p, frags, n - 1, pool);
      var (before, bufs) := DirectRun(p, frags, n - 1, pool);
      var f := frags[n - 1];
      assert bufs + [] == bufs && Numbers(p, frags, n - 1, pool) + [] == Numbers(p, frags, n - 1, pool);
      if f.data != [] {
        var fill := if FitOf(before.fill, before.seqNo, f).Continues? then before.fill else 0;
        var _, _, _ := DirectUnfolds(fill, f.data, f.timestamp * 90, f.payload, pool);
      }
    }
  }

  /** A frame of which the second half was lost, and the frame after it, in one. */
  lemma FramesMixed()
    ensures var lost := Fragment(0, 1, 10, [0], 2, 0);
            var whole := Fragment(0, 2, 20, [0], 1, 0);
      DirectRun(Position(0, 0), [lost, whole], 2, 1) == (Position(0, 2), [Buf([0], 900, false), Buf([0], 1800, true)])
  {
    var lost, whole := Fragment(0, 1, 10, [0], 2, 0), Fragment(0, 2, 20, [0], 1, 0);
    var p := Position(0, 0);
    OnlyPiece(0, [0], 900, 2, 1);
    OnlyPiece(0, [0], 1800, 1, 1);
    assert DirectStep(p, lost, 1) == (Position(1, 1), [Buf([0], 900, false)]);
    assert DirectStep(Position(1, 1), whole, 1) == (Position(0, 2), [Buf([0], 1800, true)]);
    hide DirectStep;
    TwoSent(p, lost, whole, 1);
    assert [Buf([0], 900, false)] + [Buf([0], 1800, true)] == [Buf([0], 900, false), Buf([0], 1800, true)];
  }

  lemma TwoSent(p: Position, f: Fragment, g: Fragment, pool: nat)
    requires pool > 0
    ensures var first := DirectStep(p, f, pool);
            var second := DirectStep(first.0, g, pool);
      DirectRun(p, [f, g], 2, pool) == (second.0, first.1 + second.1)
  {
    hide DirectStep;
    var frags := [f, g];
    var first := DirectStep(p, f, pool);
    assert DirectRun(p, frags, 0, pool) == (p, []) && frags[0] == f && frags[1] == g;
    assert [] + first.1 == first.1;
    assert DirectRun(p, frags, 1, pool) == first;
  }

  /** A complete frame sent directly: its bytes, with exactly one end of frame, on the last buffer. */
  lemma CompleteFrameSent(p: Position, series: seq<Fragment>, seqNo: int, payload: nat, pool: nat)
    requires pool > 0 && Complete(series, seqNo, payload)
    ensures var (after, bufs) := DirectRun(p, series, |series|, pool);
      Contents(bufs) == Joined(series) && after.fill == 0 && LastEndsFrame(bufs)
  {
    var n := |series| - 1;
    SeriesSent(p, series, n, seqNo, payload, pool);
    JoinedLength(series, n, seqNo, payload);
    assert FragmentAt(series, n, seqNo, payload);
    assert series[..n + 1] == series;
    JoinedLength(series, n + 1, seqNo, payload);
    var (before, sent) := DirectRun(p, series, n, pool);
    if n == 0 {
      assert series[..0] == [];
    }
    DirectContents(|Joined(series[..n])|, series[n].data, series[n].timestamp * 90, payload, pool);
    DirectEnds(|Joined(series[..n])|, series[n].data, series[n].timestamp * 90, payload, pool);
    ContentsAdd(sent, DirectStep(before, series[n], pool).1);
  }

  lemma {:induction false} SeriesSent(p: Position, series: seq<Fragment>, k: nat, seqNo: int, payload: nat, pool: nat)
    requires pool > 0 && Complete(series, seqNo, payload) && k < |series|
    ensures var (after, bufs) := DirectRun(p, series, k, pool);
      && Contents(bufs) == Joined(series[..k])
      && (k == 0 ==> after == p)
      && (k > 0 ==> after == Position(|Joined(series[..k])|, seqNo))
      && NoFrameEnd(bufs)
    decreases k
  {
    if k > 0 {
      var n := k - 1;
      SeriesSent(p, series, n, seqNo, payload, pool);
      JoinedLength(series, n, seqNo, payload);
      JoinedLength(series, k, seqNo, payload);
      assert FragmentAt(series, n, seqNo, payload);
      var (before, sent) := DirectRun(p, series, n, pool);
      if n == 0 {
        assert series[..0] == [];
      } else {
        JoinedLength(series, n - 1, seqNo, payload);
        assert FragmentAt(series, n - 1, seqNo, payload);
      }
      DirectContents(|Joined(series[..n])|, series[n].data, series[n].timestamp * 90, payload, pool);
      DirectEnds(|Joined(series[..n])|, series[n].data, series[n].timestamp * 90, payload, pool);
      ContentsAdd(sent, DirectStep(before, series[n], pool).1);
    }
  }
}
