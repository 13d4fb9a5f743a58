/** Sega FILM files: seeking by time, the gate that holds back video up to a keyframe, and the interleaving of stereo
    sound (src/demuxers/demux_film.c:352-400, 584-653, 717-807). */
module Film {
  import opened Bytes
  import opened Wrappers

  /** An entry of the sample table; its bytes stand at `offset` in the file. */
  datatype Sample = Sample(audio: bool, pts: int, keyframe: bool, offset: nat, size: nat)

  /** What is done with the sound: without a sound driver or with other than one or two channels it is passed over. */
  datatype Sound = Dropped | Mono | Stereo(wide: bool)

  /** As the table is loaded (lines 266-297): only video samples are marked as keyframes. */
  ghost predicate TableValid(table: seq<Sample>) {
    |table| > 0 && forall i :: 0 <= i < |table| ==> !(table[i].audio && table[i].keyframe)
  }

  // ----- seeking -----

  /** The binary search of lines 769-782. No order of the table is needed: the search ends between a sample that is not
      after the target and one that is. */
  method SearchTime(table: seq<Sample>, target: int) returns (best: nat)
    requires |table| > 0 && table[0].pts < target < table[|table| - 1].pts
    ensures best + 1 < |table| && table[best].pts <= target < table[best + 1].pts
  {
    var left, right := 0, |table| - 1;
    var first := true;
    while first || left < right
      invariant 0 <= left <= right < |table|
      invariant table[left].pts <= target
      invariant right == |table| - 1 || target < table[right + 1].pts
      decreases right - left, first
    {
      first := false;
      var middle := (left + right + 1) / 2;
      if target < table[middle].pts {
        right := middle - 1;
      } else {
        left := middle;
      }
    }
    best := left;
  }

  /** Back to the nearest keyframe, or to the start (lines 784-790). */
  method BackToKeyframe(table: seq<Sample>, from: nat) returns (k: nat)
    requires from < |table|
    ensures k <= from && (k == 0 || table[k].keyframe)
    ensures forall i :: k < i <= from ==> !table[i].keyframe
  {
    k := from;
    while k != 0
      invariant k <= from && forall i :: k < i <= from ==> !table[i].keyframe
    {
      if table[k].keyframe {
        break;
      }
      k := k - 1;
    }
  }

  /** Back to a sound sample before the keyframe, or to the start (lines 792-802). */
  method BackToAudio(table: seq<Sample>, from: nat) returns (k: nat)
    requires from < |table|
    ensures k <= from && (k == 0 || (table[k].audio && table[k].pts < table[from].pts))
    ensures forall i :: k < i <= from && table[i].audio ==> table[i].pts >= table[from].pts
  {
    var keyframePts := table[from].pts;
    k := from;
    while k != 0
      invariant k <= from && forall i :: k < i <= from && table[i].audio ==> table[i].pts >= keyframePts
    {
      if table[k].audio && table[k].pts < keyframePts {
        break;
      }
      k := k - 1;
    }
  }

  // ----- the gate -----

  datatype Gate = Gate(current: nat, waiting: bool)

  /** One call of `demux_film_send_chunk`: the sample it dispatches, if any. */
  function Pass(table: seq<Sample>, g: Gate): (Gate, Option<nat>) {
    var i := g.current;
    if i >= |table| then (g.(current := i + 1), None)
    else if g.waiting && !table[i].audio then
      if table[i].keyframe then (Gate(i + 1, false), Some(i)) else (Gate(i + 1, true), None)
    else (g.(current := i + 1), Some(i))
  }

  /** The samples that `n` calls dispatch, in order. */
  function Dispatched(table: seq<Sample>, g: Gate, n: nat): seq<nat>
    decreases n
  {
    if n == 0 then []
    else
      var (next, sample) := Pass(table, g);
      (if sample.Some? then [sample.value] else []) + Dispatched(table, next, n - 1)
  }

  predicate IsAudio(table: seq<Sample>, i: nat) {
    i < |table| && table[i].audio
  }

  /** `v` is the first video sample among those sent. */
  ghost predicate FirstVideo(table: seq<Sample>, sent: seq<nat>, v: nat) {
    exists k :: 0 <= k < |sent| && FirstVideoAt(table, sent, v, k)
  }

  ghost predicate FirstVideoAt(table: seq<Sample>, sent: seq<nat>, v: nat, k: nat)
    requires k < |sent|
  {
    sent[k] == v && !IsAudio(table, v) && forall j :: 0 <= j < k ==> IsAudio(table, sent[j])
  }

  /** While the gate waits, the first video sample to pass is the first keyframe. */
  lemma {:induction false} FirstPassIsKeyframe(table: seq<Sample>, g: Gate, k: nat, n: nat) returns (v: nat)
    requires TableValid(table) && g.waiting && g.current <= k < |table| && table[k].keyframe && n > k - g.current
    ensures v <= k && table[v].keyframe && FirstVideo(table, Dispatched(table, g, n), v)
    ensures forall i :: g.current <= i < v ==> !table[i].keyframe
    decreases n
  {
    var i := g.current;
    var (next, sample) := Pass(table, g);
    hide Dispatched, FirstVideo;
    DispatchedStep(table, g, n);
    var rest := Dispatched(table, next, n - 1);
    if table[i].keyframe {
      v := i;
      VideoNow(table, v, rest);
    } else {
      v := FirstPassIsKeyframe(table, next, k, n - 1);
      if table[i].audio {
        VideoLater(table, i, rest, v);
      }
    }
  }

  lemma DispatchedStep(table: seq<Sample>, g: Gate, n: nat)
    requires n > 0
    ensures var (next, sample) := Pass(table, g);
      Dispatched(table, g, n)
        == if sample.Some? then [sample.value] + Dispatched(table, next, n - 1) else Dispatched(table, next, n - 1)
  {
  }

  lemma VideoNow(table: seq<Sample>, v: nat, rest: seq<nat>)
    requires !IsAudio(table, v)
    ensures FirstVideo(table, [v] + rest, v)
  {
    assert FirstVideoAt(table, [v] + rest, v, 0);
  }

  lemma VideoLater(table: seq<Sample>, i: nat, rest: seq<nat>, v: nat)
    requires IsAudio(table, i) && FirstVideo(table, rest, v)
    ensures FirstVideo(table, [i] + rest, v)
  {
    var j :| 0 <= j < |rest| && FirstVideoAt(table, rest, v, j);
    assert FirstVideoAt(table, [i] + rest, v, j + 1);
  }

  // ----- the place in the file -----

  /** The gate, and where the input stands. */
  datatype Head = Head(gate: Gate, place: nat)

  /** Where the input stands after a sample was sent: pictures and mono sound are sought, stereo sound is read from
      where the input stands. */
  function PlaceAfter(sample: Sample, sound: Sound, place: nat): nat {
    if !sample.audio || sound.Mono? then sample.offset + sample.size
    else if sound.Stereo? then place + sample.size
    else place
  }

  function HeadAfter(table: seq<Sample>, sound: Sound, h: Head): Head {
    var (gate, sample) := Pass(table, h.gate);
    var sent := sample.Some? && sample.value < |table|;
    Head(gate, if sent then PlaceAfter(table[sample.value], sound, h.place) else h.place)
  }

  /** After `n` calls of `demux_film_send_chunk`. */
  function HeadAt(table: seq<Sample>, sound: Sound, h: Head, n: nat): Head {
    if n == 0 then h else HeadAfter(table, sound, HeadAt(table, sound, h, n - 1))
  }

  /** The samples stand one behind the other. */
  ghost predicate Contiguous(table: seq<Sample>) {
    forall i :: 0 <= i < |table| - 1 ==> table[i + 1].offset == table[i].offset + table[i].size
  }

  /** A picture among `n` samples from `from` on that is sent: any one, or, if the gate waits, the first keyframe. */
  ghost predicate PictureSent(table: seq<Sample>, g: Gate, n: nat)
    requires g.current + n <= |table|
  {
    exists i :: g.current <= i < g.current + n && !table[i].audio && (g.waiting ==> table[i].keyframe)
  }

  /** The bytes of the pictures among `n` samples from `from` on. */
  function PictureBytes(table: seq<Sample>, from: nat, n: nat): nat
    requires from + n <= |table|
  {
    if n == 0 then 0
    else PictureBytes(table, from, n - 1) + if table[from + n - 1].audio then 0 else table[from + n - 1].size
  }

  /** The state of gate and input: in order once a picture was sent, and until then as far off as at the start, and by
      the pictures that the gate held back. */
  ghost predicate Following(table: seq<Sample>, h: Head, n: nat, now: Head)
    requires h.gate.current + n < |table|
  {
    && now.gate.current == h.gate.current + n
    && (now.gate.waiting <==> h.gate.waiting && !PictureSent(table, h.gate, n))
    && now.place == if PictureSent(table, h.gate, n) then table[h.gate.current + n].offset
                    else h.place + table[h.gate.current + n].offset - table[h.gate.current].offset
                         - if h.gate.waiting then PictureBytes(table, h.gate.current, n) else 0
  }

  lemma {:induction false} HeadFollows(table: seq<Sample>, wide: bool, h: Head, n: nat)
    requires TableValid(table) && Contiguous(table) && h.gate.current + n < |table|
    ensures Following(table, h, n, HeadAt(table, Stereo(wide), h, n))
  {
    if n > 0 {
      HeadFollows(table, wide, h, n - 1);
      hide HeadAt;
      FollowsOneMore(table, wide, h, n - 1, HeadAt(table, Stereo(wide), h, n - 1));
      assert HeadAt(table, Stereo(wide), h, n)
          == HeadAfter(table, Stereo(wide), HeadAt(table, Stereo(wide), h, n - 1)) by {
        HeadOnce(table, Stereo(wide), h, n - 1);
      }
    }
  }

  lemma HeadOnce(table: seq<Sample>, sound: Sound, h: Head, n: nat)
    ensures HeadAt(table, sound, h, n + 1) == HeadAfter(table, sound, HeadAt(table, sound, h, n))
  {
  }

  lemma FollowsOneMore(table: seq<Sample>, wide: bool, h: Head, n: nat, now: Head)
    requires TableValid(table) && Contiguous(table) && h.gate.current + n + 1 < |table| && Following(table, h, n, now)
    ensures Following(table, h, n + 1, HeadAfter(table, Stereo(wide), now))
  {
    var i := h.gate.current + n;
    assert table[i + 1].offset == table[i].offset + table[i].size;
    OneMorePicture(table, h.gate, n);
    hide PictureSent, Contiguous;
  }

  lemma OneMorePicture(table: seq<Sample>, g: Gate, n: nat)
    requires g.current + n < |table|
    ensures var s := table[g.current + n];
      PictureSent(table, g, n + 1) <==> PictureSent(table, g, n) || (!s.audio && (g.waiting ==> s.keyframe))
  {
    if PictureSent(table, g, n) {
      var i :| g.current <= i < g.current + n && !table[i].audio && (g.waiting ==> table[i].keyframe);
      assert g.current <= i < g.current + (n + 1);
    }
  }

  /** Stereo sound is read where it stands in the file exactly if a picture was sent before it, or else if the input
      stood right at the start and the gate held no picture with bytes back. */
  lemma SoundInPlace(table: seq<Sample>, wide: bool, h: Head, n: nat)
    requires TableValid(table) && Contiguous(table) && h.gate.current + n < |table| && table[h.gate.current + n].audio
    ensures HeadAt(table, Stereo(wide), h, n).place == table[h.gate.current + n].offset
       <==> PictureSent(table, h.gate, n)
            || h.place == table[h.gate.current].offset
                          + if h.gate.waiting then PictureBytes(table, h.gate.current, n) else 0
  {
    HeadFollows(table, wide, h, n);
    hide HeadAt, PictureSent, PictureBytes;
  }

  /** A picture that is held back, and the sound behind it, which is read from the place of the picture. */
  lemma SoundMisplaced()
    ensures var table := [Sample(false, 0, false, 100, 10), Sample(true, 0, false, 110, 4)];
      HeadAt(table, Stereo(false), Head(Gate(0, true), 100), 1).place == 100 != table[1].offset
  {
    var table := [Sample(false, 0, false, 100, 10), Sample(true, 0, false, 110, 4)];
    var h := Head(Gate(0, true), 100);
    assert HeadAt(table, Stereo(false), h, 0) == h;
    assert Pass(table, h.gate) == (Gate(1, true), None);
  }

  class Demuxer {
    const data: seq<byte>
    const sound: Sound
    /** the size of a buffer for sound */
    const pool: nat
    const table: seq<Sample>
    /** where the input stands */
    var place: nat
    var currentSample: nat
    var waitingForKeyframe: bool
    var finished: bool

    constructor (data: seq<byte>, table: seq<Sample>, sound: Sound, pool: nat, place: nat)
      requires TableValid(table) && pool > 0 && pool % 4 == 0
      ensures Valid() && this.table == table && this.sound == sound && this.data == data
      ensures State() == Gate(0, false) && this.place == place && !finished
    {
      this.data, this.table, this.sound, this.pool, this.place := data, table, sound, pool, place;
      currentSample := 0;
      waitingForKeyframe := false;
      finished := false;
    }

    ghost predicate Valid()
      reads this
    {
      TableValid(table) && pool > 0 && pool % 4 == 0
    }

    function State(): Gate
      reads this
    {
      Gate(currentSample, waitingForKeyframe)
    }

    /** `demux_film_send_chunk`. The gate: while it waits no picture passes but a keyframe, and that opens it; all else
        passes, each sample in its turn. A sample that passes is read from its place in the file, but stereo sound from
        where the input stands. What is sent of pictures and mono sound is not part of this class. */
    method SendChunk() returns (sample: Option<nat>, bufs: seq<seq<byte>>)
      requires Valid()
      modifies this
      ensures Valid() && (State(), sample) == Pass(table, old(State()))
      ensures currentSample == old(currentSample) + 1 && (sample.Some? ==> sample.value == old(currentSample) < |table|)
      ensures sample.None? <==>
        old(currentSample) >= |table|
        || (old(waitingForKeyframe) && !table[old(currentSample)].audio && !table[old(currentSample)].keyframe)
      ensures old(waitingForKeyframe) ==> (waitingForKeyframe <==> sample.None? || table[sample.value].audio)
      ensures !old(waitingForKeyframe) ==> !waitingForKeyframe
      ensures var cut := sample.Some? && IsCut(table[sample.value], old(place));
        && finished == (old(finished) || old(currentSample) >= |table| || cut)
        && (!cut ==> place == if sample.Some? then PlaceAfter(table[sample.value], sound, old(place)) else old(place))
        && (sample.Some? && table[sample.value].audio && sound.Stereo? && !cut ==>
              var chunk := Bytes(old(place), table[sample.value].size);
              |Joined(bufs)| == |chunk| / 2 * 2 && IsSound(Joined(bufs), chunk, |chunk| / 2, sound.wide, 0))
    {
      bufs := [];
      var i := currentSample;
      currentSample := currentSample + 1;
      if i >= |table| {
        finished := true;
        return None, bufs;
      }
      if waitingForKeyframe && !table[i].audio {
        if table[i].keyframe {
          waitingForKeyframe := false;
        } else {
          return None, bufs;
        }
      }
      bufs := SendSample(table[i]);
      return Some(i), bufs;
    }

    /** The file ends before the sample does. */
    predicate IsCut(sample: Sample, place: nat) {
      (!sample.audio || !sound.Dropped?) && sample.size > 0 && PlaceAfter(sample, sound, place) > |data|
    }

    /** A sample that is read is cut off exactly if its last byte is not in the file. */
    lemma CutMeans(sample: Sample, place: nat)
      ensures var start := if sample.audio && sound.Stereo? then place else sample.offset;
        IsCut(sample, place) <==>
          (!sample.audio || sound != Dropped) && sample.size > 0 && |data| <= start + sample.size - 1
    {
    }

    function Bytes(place: nat, size: nat): (r: seq<byte>)
      requires size == 0 || place + size <= |data|
      ensures |r| == size
    {
      if size == 0 then [] else data[place..place + size]
    }

    /** Reading a sample that has passed the gate. */
    method SendSample(sample: Sample) returns (bufs: seq<seq<byte>>)
      requires Valid()
      modifies this`place, this`finished
      ensures finished == (old(finished) || IsCut(sample, old(place)))
      ensures !IsCut(sample, old(place)) ==> place == PlaceAfter(sample, sound, old(place))
      ensures sample.audio && sound.Stereo? && !IsCut(sample, old(place)) ==>
        var chunk := Bytes(old(place), sample.size);
        |Joined(bufs)| == |chunk| / 2 * 2 && IsSound(Joined(bufs), chunk, |chunk| / 2, sound.wide, 0)
    {
      hide IsSound, Joined;
      bufs := [];
      if !sample.audio || sound.Mono? {
        place := sample.offset;
      } else if sound.Dropped? {
        return;
      }
      if sample.size > 0 && place + sample.size > |data| {
        place := if place < |data| then |data| else place;
        finished := true;
        return;
      }
      if sample.audio && sound.Stereo? {
        bufs := SendStereo(Bytes(place, sample.size), sound.wide, pool);
      }
      place := place + sample.size;
    }

    /** `demux_film_seek` by time, on a seekable input. `best` is the sample found for the time, `key` the nearest
        keyframe at or before it; and the seek goes back from there to the nearest sample of sound with an earlier
        time. */
    method SeekTime(startTime: int, threadRunning: bool) returns (ghost best: nat, ghost key: nat)
      requires Valid()
      modifies this
      ensures Valid() && waitingForKeyframe == threadRunning && place == old(place)
      ensures finished <==> table[0].pts < 90 * startTime && table[|table| - 1].pts <= 90 * startTime
      ensures finished ==> currentSample == old(currentSample)
      ensures !finished ==> currentSample <= key <= best < |table|
      ensures !finished && 90 * startTime <= table[0].pts ==> best == 0
      ensures !finished && 90 * startTime > table[0].pts ==>
        best + 1 < |table| && table[best].pts <= 90 * startTime < table[best + 1].pts
      ensures !finished ==> (key == 0 || table[key].keyframe) && forall i :: key < i <= best ==> !table[i].keyframe
      ensures !finished ==>
        currentSample == 0 || (table[currentSample].audio && table[currentSample].pts < table[key].pts)
      ensures !finished ==>
        forall i :: currentSample < i <= key && table[i].audio ==> table[i].pts >= table[key].pts
    {
      waitingForKeyframe := true;
      finished := false;
      if !threadRunning {
        waitingForKeyframe := false;
      }
      var pts := 90 * startTime;
      var bestIndex := 0;
      best, key := 0, 0;
      if pts <= table[0].pts {
        bestIndex := 0;
      } else if pts >= table[|table| - 1].pts {
        finished := true;
        return;
      } else {
        bestIndex := SearchTime(table, pts);
      }
      best := bestIndex;
      var k := BackToKeyframe(table, bestIndex);
      key := k;
      currentSample := BackToAudio(table, k);
    }

    /** `n` calls of `demux_film_send_chunk`. */
    method Play(n: nat) returns (sent: seq<nat>)
      requires Valid()
      modifies this
      ensures Valid() && sent == Dispatched(table, old(State()), n)
      ensures !finished ==> Head(State(), place) == HeadAt(table, sound, old(Head(State(), place)), n)
    {
      sent := [];
      for i := 0 to n
        invariant Valid() && sent + Dispatched(table, State(), n - i) == Dispatched(table, old(State()), n)
        invariant !finished ==> Head(State(), place) == HeadAt(table, sound, old(Head(State(), place)), i)
      {
        ghost var rest := Dispatched(table, State(), n - i);
        HeadOnce(table, sound, old(Head(State(), place)), i);
        var sample, _ := SendChunk();
        ghost var later := Dispatched(table, State(), n - i - 1);
        if sample.Some? {
          assert rest == [sample.value] + later;
          sent := sent + [sample.value];
        } else {
          assert rest == later;
        }
      }
    }

    /** Playing on after a seek in a running stream: if there is a keyframe at or before the sample found, the first
        picture sent is a keyframe at or before it. */
    method SeekAndPlay(startTime: int, n: nat) returns (ok: bool, sent: seq<nat>, ghost best: nat, ghost v: nat)
      requires Valid()
      modifies this
      ensures ok ==> best < |table|
      ensures ok && 90 * startTime > table[0].pts ==> table[best].pts <= 90 * startTime
      ensures ok && n > best && (exists k :: 0 <= k <= best && table[k].keyframe) ==>
        v <= best && table[v].keyframe && FirstVideo(table, sent, v)
    {
      ghost var key;
      best, key := SeekTime(startTime, true);
      ok, sent, v := !finished, [], 0;
      if ok {
        ghost var g := State();
        sent := Play(n);
        if n > best && exists k :: 0 <= k <= best && table[k].keyframe {
          v := FirstPassIsKeyframe(table, g, key, n);
        }
      }
    }
  }

  // ----- stereo sound -----

  /** The buffers' contents, one after the other. */
  function Joined(bufs: seq<seq<byte>>): seq<byte> {
    if bufs == [] then [] else Joined(bufs[..|bufs| - 1]) + bufs[|bufs| - 1]
  }

  /** Where byte `j` of the interleaved sound comes from: one or two bytes of the first half of the chunk, and then as
      many of the second. */
  function Source(half: nat, wide: bool, j: nat): nat {
    if wide then if j % 4 < 2 then j / 4 * 2 + j % 4 else half + j / 4 * 2 + j % 4 - 2
    else if j % 2 == 0 then j / 2 else half + j / 2
  }

  /** The place that byte `i` of the chunk goes to. */
  function Destination(half: nat, wide: bool, i: nat): nat {
    var k := if i < half then i else i - half;
    if wide then k / 2 * 4 + k % 2 + (if i < half then 0 else 2) else k * 2 + if i < half then 0 else 1
  }

  lemma WideThere(half: nat, i: nat)
    requires i < 2 * half && half % 2 == 0
    ensures Destination(half, true, i) < 2 * half && Source(half, true, Destination(half, true, i)) == i
  {
    var k := if i < half then i else i - half;
    var q, r, h := k / 2, k % 2, half / 2;
    assert k == 2 * q + r && half == 2 * h && q < h;
  }

  lemma WideBack(half: nat, j: nat)
    requires j < 2 * half && half % 2 == 0
    ensures Destination(half, true, Source(half, true, j)) == j
  {
    var q, r, h := j / 4, j % 4, half / 2;
    assert j == 4 * q + r && half == 2 * h && q < h;
    var k := 2 * q + if r < 2 then r else r - 2;
    assert k < half && k / 2 == q;
  }

  /** Every byte of both halves goes to exactly one place, if the halves hold whole samples. */
  lemma InterleavingIsFair(half: nat, wide: bool, i: nat, j: nat)
    requires i < 2 * half && j < 2 * half && (wide ==> half % 2 == 0)
    ensures Destination(half, wide, i) < 2 * half
    ensures Source(half, wide, j) == i <==> Destination(half, wide, i) == j
  {
    if wide {
      WideThere(half, i);
      WideBack(half, j);
    }
  }

  /** A distance from the first sample of a channel at which there are bytes of the same channel. */
  predicate InSample(d: int, wide: bool) {
    d >= 0 && if wide then d % 4 < 2 else d % 2 == 0
  }

  /** How many bytes of the channel come before that distance. */
  function StepOf(d: nat, wide: bool): nat {
    if wide then d / 4 * 2 + d % 4 else d / 2
  }

  ghost predicate LaidAt(out: seq<byte>, chunk: seq<byte>, j: nat, k: nat, wide: bool, m: nat)
    requires m < |out|
  {
    InSample(m - j, wide) ==> k + StepOf(m - j, wide) < |chunk| && out[m] == chunk[k + StepOf(m - j, wide)]
  }

  /** The bytes of `chunk` from `k` on lie in the buffer from `j` on, in the places of one channel. */
  ghost predicate Laid(out: seq<byte>, chunk: seq<byte>, j: nat, k: nat, wide: bool) {
    forall m :: 0 <= m < |out| ==> LaidAt(out, chunk, j, k, wide, m)
  }

  ghost predicate PairAt(out: seq<byte>, chunk: seq<byte>, j: nat, k: nat, i: nat) {
    && j + 4 * i + 1 < |out| && k + 2 * i + 1 < |chunk|
    && out[j + 4 * i] == chunk[k + 2 * i] && out[j + 4 * i + 1] == chunk[k + 2 * i + 1]
  }

  lemma PairFits(length: nat, given: nat, j: nat, k: nat, n: nat)
    requires length % 2 == 0 && j % 2 == 0 && j + 4 * n < length && k + (length - j + 3) / 4 * 2 <= given
    ensures j + 4 * n + 1 < length && k + 2 * n + 1 < given
    ensures InSample(j + 4 * n - j, true) && InSample(j + 4 * n + 1 - j, true)
  {
    QuarterIs(4 * n, n, 0);
    QuarterIs(4 * n + 1, n, 1);
  }

  /** One loop of lines 627-648: samples of two bytes. */
  method LayWide(content: array<byte>, chunk: seq<byte>, j: nat, k: nat)
    requires content.Length % 2 == 0 && j % 2 == 0 && j <= content.Length + 2
    requires k + (content.Length - j + 3) / 4 * 2 <= |chunk|
    modifies content
    ensures Laid(content[..], chunk, j, k, true)
    ensures forall m :: 0 <= m < content.Length && !InSample(m - j, true) ==> content[m] == old(content[m])
  {
    hide Laid, InSample;
    var n := 0;
    while j + 4 * n < content.Length
      invariant 0 <= n && forall i :: 0 <= i < n ==> PairAt(content[..], chunk, j, k, i)
      invariant forall m :: 0 <= m < content.Length && !InSample(m - j, true) ==> content[m] == old(content[m])
    {
      ghost var before := content[..];
      PairFits(content.Length, |chunk|, j, k, n);
      content[j + 4 * n] := chunk[k + 2 * n];
      content[j + 4 * n + 1] := chunk[k + 2 * n + 1];
      forall i | 0 <= i < n
        ensures PairAt(content[..], chunk, j, k, i)
      {
        assert PairAt(before, chunk, j, k, i);
      }
      n := n + 1;
    }
    PairsLaid(content[..], chunk, j, k, n);
  }

  lemma PairsLaid(out: seq<byte>, chunk: seq<byte>, j: nat, k: nat, n: nat)
    requires j + 4 * n >= |out| && forall i :: 0 <= i < n ==> PairAt(out, chunk, j, k, i)
    ensures Laid(out, chunk, j, k, true)
  {
    forall m | 0 <= m < |out|
      ensures LaidAt(out, chunk, j, k, true, m)
    {
      if InSample(m - j, true) {
        var i := (m - j) / 4;
        assert PairAt(out, chunk, j, k, i);
        assert m == j + 4 * i + (m - j) % 4;
      }
    }
  }

  /** The same for samples of one byte. */
  method LayNarrow(content: array<byte>, chunk: seq<byte>, j: nat, k: nat)
    requires content.Length % 2 == 0 && j <= 1 && k + content.Length / 2 <= |chunk|
    modifies content
    ensures Laid(content[..], chunk, j, k, false)
    ensures forall m :: 0 <= m < content.Length && !InSample(m - j, false) ==> content[m] == old(content[m])
  {
    var n := 0;
    while j + 2 * n < content.Length
      invariant 0 <= 2 * n <= content.Length
      invariant forall m :: j <= m < content.Length && m < j + 2 * n && (m - j) % 2 == 0 ==>
        k + (m - j) / 2 < |chunk| && content[m] == chunk[k + (m - j) / 2]
      invariant forall m :: 0 <= m < content.Length && (m < j || m >= j + 2 * n || (m - j) % 2 != 0) ==>
        content[m] == old(content[m])
    {
      content[j + 2 * n] := chunk[k + n];
      n := n + 1;
    }
  }

  /** The bytes of `out` are the interleaved sound from byte `from` on. */
  ghost predicate IsSound(out: seq<byte>, chunk: seq<byte>, half: nat, wide: bool, from: nat) {
    forall j :: 0 <= j < |out| ==> SoundAt(out, chunk, half, wide, from, j)
  }

  ghost predicate SoundAt(out: seq<byte>, chunk: seq<byte>, half: nat, wide: bool, from: nat, j: nat)
    requires j < |out|
  {
    Source(half, wide, from + j) < |chunk| && out[j] == chunk[Source(half, wide, from + j)]
  }

  lemma SoundGoesOn(a: seq<byte>, b: seq<byte>, chunk: seq<byte>, half: nat, wide: bool)
    requires IsSound(a, chunk, half, wide, 0) && IsSound(b, chunk, half, wide, |a|)
    ensures IsSound(a + b, chunk, half, wide, 0)
  {
    hide Source;
    forall j | 0 <= j < |a + b|
      ensures SoundAt(a + b, chunk, half, wide, 0, j)
    {
      assert if j < |a| then SoundAt(a, chunk, half, wide, 0, j) else SoundAt(b, chunk, half, wide, |a|, j - |a|);
    }
  }

  /** One buffer of `size` bytes, from `index` on in each half. */
  method FillBuffer(chunk: seq<byte>, half: nat, wide: bool, index: nat, size: nat) returns (content: array<byte>)
    requires |chunk| >= 2 * half && size % 2 == 0 && index + size / 2 <= half && (wide ==> index % 2 == 0)
    ensures content.Length == size && fresh(content) && IsSound(content[..], chunk, half, wide, 2 * index)
  {
    hide Laid, InSample, IsSound;
    content := new byte[size];
    ghost var first;
    if wide {
      RoomInChunk(half, index, size);
      LayWide(content, chunk, 0, index);
      first := content[..];
      LayWide(content, chunk, 2, index + half);
    } else {
      LayNarrow(content, chunk, 0, index);
      first := content[..];
      LayNarrow(content, chunk, 1, index + half);
    }
    BothLaid(first, content[..], chunk, half, wide, index);
  }

  lemma RoomInChunk(half: nat, index: nat, size: nat)
    requires size % 2 == 0 && index + size / 2 <= half
    ensures index + (size + 3) / 4 * 2 <= 2 * half && index + half + (size + 1) / 4 * 2 <= 2 * half
  {
  }

  /** One channel was laid first, and then the other without touching it. */
  lemma BothLaid(first: seq<byte>, out: seq<byte>, chunk: seq<byte>, half: nat, wide: bool, index: nat)
    requires |first| == |out| && (wide ==> index % 2 == 0)
    requires var j := if wide then 2 else 1;
      && Laid(first, chunk, 0, index, wide) && Laid(out, chunk, j, index + half, wide)
      && forall m :: 0 <= m < |out| && !InSample(m - j, wide) ==> out[m] == first[m]
    ensures IsSound(out, chunk, half, wide, 2 * index)
  {
    hide Source;
    var j := if wide then 2 else 1;
    forall m | 0 <= m < |out|
      ensures SoundAt(out, chunk, half, wide, 2 * index, m)
    {
      SourceFrom(half, wide, index, m);
      assert LaidAt(first, chunk, 0, index, wide, m) && LaidAt(out, chunk, j, index + half, wide, m);
    }
  }

  lemma QuarterIs(a: int, q: int, r: nat)
    requires a == 4 * q + r && r < 4
    ensures a / 4 == q && a % 4 == r
  {
  }

  lemma SourceFrom(half: nat, wide: bool, index: nat, j: nat)
    requires wide ==> index % 2 == 0
    ensures var second := j - if wide then 2 else 1;
      && (InSample(j, wide) ==> !InSample(second, wide) && Source(half, wide, 2 * index + j) == index + StepOf(j, wide))
      && (!InSample(j, wide) ==> InSample(second, wide))
      && (!InSample(j, wide) ==> Source(half, wide, 2 * index + j) == index + half + StepOf(second, wide))
  {
    if wide {
      var q, n, r := index / 2, j / 4, j % 4;
      QuarterIs(2 * index + j, q + n, r);
      if r < 2 {
        QuarterIs(j - 2, n - 1, r + 2);
      } else {
        QuarterIs(j - 2, n, r - 2);
      }
    }
  }

  /** The stereo branch of `demux_film_send_chunk`: the buffers together are the chunk, interleaved; a byte over in a
      chunk of odd size is dropped. The size of the pool's buffers is a multiple of four. */
  method SendStereo(chunk: seq<byte>, wide: bool, maxSize: nat) returns (bufs: seq<seq<byte>>)
    requires maxSize > 0 && maxSize % 4 == 0
    ensures |Joined(bufs)| == |chunk| / 2 * 2 && IsSound(Joined(bufs), chunk, |chunk| / 2, wide, 0)
    ensures forall i :: 0 <= i < |bufs| ==> 0 < |bufs[i]| <= maxSize && (i < |bufs| - 1 ==> |bufs[i]| == maxSize)
  {
    hide Source, IsSound;
    var half := |chunk| / 2;
    var remaining: nat, index: nat := half, 0;
    bufs := [];
    NoSound(chunk, half, wide);
    while remaining > 0
      invariant index + remaining == half && (remaining > 0 ==> index % 2 == 0)
      invariant |Joined(bufs)| == 2 * index && IsSound(Joined(bufs), chunk, half, wide, 0)
      invariant forall i :: 0 <= i < |bufs| ==>
        0 < |bufs[i]| <= maxSize && (i < |bufs| - 1 || remaining > 0 ==> |bufs[i]| == maxSize)
    {
      var size := if remaining > maxSize / 2 then maxSize else remaining * 2;
      BufferSize(index, remaining, size, maxSize);
      remaining := remaining - size / 2;
      var content := FillBuffer(chunk, half, wide, index, size);
      index := index + size / 2;
      SoundGoesOn(Joined(bufs), content[..], chunk, half, wide);
      assert (bufs + [content[..]])[..|bufs|] == bufs;
      bufs := bufs + [content[..]];
    }
  }

  lemma BufferSize(index: nat, remaining: nat, size: nat, maxSize: nat)
    requires maxSize > 0 && maxSize % 4 == 0 && remaining > 0 && index % 2 == 0
    requires size == if remaining > maxSize / 2 then maxSize else remaining * 2
    ensures size % 2 == 0 && 0 < size <= maxSize && 0 < size / 2 <= remaining
    ensures remaining > size / 2 ==> (index + size / 2) % 2 == 0 && size == maxSize
  {
  }

  /** Four bytes of narrow sound, and eight of wide sound. */
  method InterleavedByExample() returns (narrow: seq<seq<byte>>, wide: seq<seq<byte>>)
    ensures Joined(narrow) == [1, 3, 2, 4] && Joined(wide) == [1, 2, 5, 6, 3, 4, 7, 8]
  {
    hide Joined, IsSound;
    narrow := SendStereo([1, 2, 3, 4], false, 2048);
    FourInterleaved(Joined(narrow));
    wide := SendStereo([1, 2, 3, 4, 5, 6, 7, 8], true, 2048);
    EightInterleaved(Joined(wide));
  }

  lemma FourInterleaved(out: seq<byte>)
    requires |out| == 4 && IsSound(out, [1, 2, 3, 4], 2, false, 0)
    ensures out == [1, 3, 2, 4]
  {
    assert SoundAt(out, [1, 2, 3, 4], 2, false, 0, 0) && SoundAt(out, [1, 2, 3, 4], 2, false, 0, 1);
    assert SoundAt(out, [1, 2, 3, 4], 2, false, 0, 2) && SoundAt(out, [1, 2, 3, 4], 2, false, 0, 3);
  }

  lemma EightInterleaved(out: seq<byte>)
    requires |out| == 8 && IsSound(out, [1, 2, 3, 4, 5, 6, 7, 8], 4, true, 0)
    ensures out == [1, 2, 5, 6, 3, 4, 7, 8]
  {
    var chunk: seq<byte> := [1, 2, 3, 4, 5, 6, 7, 8];
    assert SoundAt(out, chunk, 4, true, 0, 0) && SoundAt(out, chunk, 4, true, 0, 1);
    assert SoundAt(out, chunk, 4, true, 0, 2) && SoundAt(out, chunk, 4, true, 0, 3);
    assert SoundAt(out, chunk, 4, true, 0, 4) && SoundAt(out, chunk, 4, true, 0, 5);
    assert SoundAt(out, chunk, 4, true, 0, 6) && SoundAt(out, chunk, 4, true, 0, 7);
  }

  lemma NoSound(chunk: seq<byte>, half: nat, wide: bool)
    ensures IsSound([], chunk, half, wide, 0)
  {
  }
}
