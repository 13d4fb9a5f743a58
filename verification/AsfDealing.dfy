/** What the ASF demultiplexer does with the fragments it finds, as functions on values: which of them a stream is
    given, when it waits for a keyframe, and when it stops waiting (src/demuxers/demux_asf.c:1172-1227, 1330-1367,
    1445-1484). */
module AsfDealing {
  import opened AsfFragments
  import opened AsfJournal
  import opened AsfStream

  const WORD: nat := 0x1_0000_0000

  /** 32-bit unsigned arithmetic. */
  function U32(x: int): (u: nat)
    ensures u < WORD
  {
    x % WORD
  }

  /** The `int` an unsigned word is passed as. */
  function Signed(u: nat): int
    requires u < WORD
  {
    if u < 0x8000_0000 then u else u - WORD
  }

  /** The remainder as C has it, with the sign of the dividend. */
  function CRem(x: int, n: nat): int
    requires n > 0
  {
    if x >= 0 then x % n else -((-x) % n)
  }

  /** What decides what a stream is given: `skip` while it waits for a keyframe, and where it is in a frame. */
  datatype Status = Status(firstSeq: bool, skip: bool, resync: bool, seqNo: int, fill: nat)

  /** The status of a stream, the time stamp of the keyframe that all streams share, and all that was given so far. */
  datatype Deal = Deal(status: Status, keyTs: int, journal: seq<Event>)

  // ----- the check of the sequence number -----

  /** The number that is due, for the width of the field. */
  function NumberDue(st: Status, code: nat): nat {
    var next := Signed(U32(st.seqNo + 1));
    if st.fill != 0 then U32(st.seqNo)
    else if code == 1 then U32(CRem(next, 0x100))
    else if code == 2 then U32(CRem(next, 0x1_0000))
    else if code == 3 then U32(next)
    else 0
  }

  /** Another number than the one due, in a stream that is not at its beginning and does not wait anyway. */
  predicate Gap(st: Status, code: nat, seqNo: nat) {
    !st.firstSeq && !st.skip && seqNo != NumberDue(st, code)
  }

  /** After a gap a video stream waits. */
  function Checked(s: Stream?, d: Deal, video: int, code: nat, seqNo: nat): Deal {
    if s == null then d
    else
      var lost := s.streamId == video && Gap(d.status, code, seqNo);
      Deal(d.status.(firstSeq := false, skip := lost || d.status.skip, resync := lost || d.status.resync),
           if lost then 0 else d.keyTs, d.journal)
  }

  // ----- fragments -----

  /** Waiting ends with a payload of a keyframe that is not older than the one found first. */
  function Woken(d: Deal, rawId: nat, timestamp: int): Deal {
    var st := d.status;
    var keyTs := if st.skip && rawId / 0x80 % 2 == 1 && d.keyTs == 0 then 1 else d.keyTs;
    var now := st.resync && timestamp >= keyTs && keyTs != 0;
    Deal(st.(skip := st.skip && !now, resync := st.resync && !now), keyTs, d.journal)
  }

  /** A keyframe with the time stamp 0 is itself not given, and makes the next payload end the waiting, keyframe or
      not. */
  lemma KeyframeAtZero()
    ensures var waits := Deal(Status(false, true, true, 0, 0), 0, []);
      && Woken(waits, 0x81, 0).status.skip
      && !Woken(Woken(waits, 0x81, 0), 1, 40).status.skip
  {
    assert 0x81 / 0x80 % 2 == 1;
  }

  /** Where the stream is in a frame after a fragment. */
  ghost function Fed(s: Stream, st: Status, f: Fragment): Status
    requires Sendable(s)
  {
    var p := if s.defrag then Settled(st.fill, st.seqNo, f)
             else DirectStep(Position(st.fill, st.seqNo), f, s.fifo.pool).0;
    st.(seqNo := p.seqNo, fill := p.fill)
  }

  /** The same for a stream that puts frames together: the fill level of `Step`. */
  function Settled(fill: nat, seqNo: int, f: Fragment): Position {
    if FitOf(fill, seqNo, f).Dropped? then Position(fill, seqNo)
    else
      var stored := if TooBig(fill, seqNo, f) then BegunFill(fill, seqNo, f) else BegunFill(fill, seqNo, f) + |f.data|;
      Position(if stored >= f.payload then 0 else stored, f.seqNo)
  }

  function BegunFill(fill: nat, seqNo: int, f: Fragment): nat {
    if FitOf(fill, seqNo, f).Continues? then fill else 0
  }

  predicate TooBig(fill: nat, seqNo: int, f: Fragment) {
    !FitOf(fill, seqNo, f).Dropped? && BegunFill(fill, seqNo, f) + |f.data| > DEFRAG_BUFSIZE
  }

  lemma SettledIsStep(a: Assembly, f: Fragment, shape: Shape)
    requires shape.Valid()
    ensures var after := Step(a, f, shape).state;
      Settled(|a.held|, a.seqNo, f) == Position(|after.held|, after.seqNo)
    ensures Overflows(a, f) <==> TooBig(|a.held|, a.seqNo, f)
  {
    hide Shaped;
  }

  /** The stream takes data. */
  ghost predicate Takes(s: Stream?, d: Deal) {
    s != null && Sendable(s) && !d.status.skip
  }

  /** A fragment is given to its stream, if that takes data. */
  ghost function Handed(s: Stream?, d: Deal, f: Fragment): Deal {
    if Takes(s, d) then Deal(Fed(s, d.status, f), d.keyTs, d.journal + [Event(s, f)]) else d
  }

  /** What is found is offered to its stream: the first fragment of an object may be the keyframe that was waited
      for. */
  ghost function Offered(s: Stream?, d: Deal, rawId: nat, f: Fragment): Deal {
    Handed(s, Roused(s, d, rawId, f.offset, f.timestamp), f)
  }

  ghost function Roused(s: Stream?, d: Deal, rawId: nat, offset: int, timestamp: int): Deal {
    if s != null && Sendable(s) && offset == 0 then Woken(d, rawId, timestamp) else d
  }

  /** What ends the waiting, told before the fragment is offered: the wish to start over, and a time stamp from that of
      the keyframe found on, or, if none was found yet, a keyframe whose time stamp is not 0. */
  predicate EndsWaiting(d: Deal, rawId: nat, timestamp: int) {
    d.status.resync && if d.keyTs == 0 then rawId / 0x80 % 2 == 1 && timestamp > 0 else timestamp >= d.keyTs
  }

  /** A stream that waits is given a fragment exactly if it begins an object and ends the waiting. */
  lemma WaitingEnds(s: Stream, d: Deal, rawId: nat, f: Fragment)
    requires Sendable(s) && d.status.skip
    ensures Offered(s, d, rawId, f).journal
         == d.journal + if f.offset == 0 && EndsWaiting(d, rawId, f.timestamp) then [Event(s, f)] else []
  {
    hide Fed;
  }

  ghost function OfferedAll(s: Stream?, d: Deal, rawId: nat, offers: seq<Fragment>): Deal {
    if offers == [] then d
    else Offered(s, OfferedAll(s, d, rawId, offers[..|offers| - 1]), rawId, offers[|offers| - 1])
  }

  lemma OfferedOneMore(s: Stream?, d: Deal, rawId: nat, offers: seq<Fragment>, f: Fragment)
    ensures OfferedAll(s, d, rawId, offers + [f]) == Offered(s, OfferedAll(s, d, rawId, offers), rawId, f)
  {
    assert (offers + [f])[..|offers + [f]| - 1] == offers;
  }

  lemma OfferedOne(s: Stream?, d: Deal, rawId: nat, f: Fragment)
    ensures OfferedAll(s, d, rawId, [f]) == Offered(s, d, rawId, f)
  {
    assert [f][..0] == [];
  }

  lemma NothingOffered(s: Stream?, d: Deal, rawId: nat)
    ensures OfferedAll(s, d, rawId, []) == d
  {
  }

  /** The bytes of a fragment that neither reach its stream nor are passed over, because they do not fit. */
  ghost function MissedOf(s: Stream?, d: Deal, f: Fragment): nat {
    if Takes(s, d) && s.defrag && TooBig(d.status.fill, d.status.seqNo, f) then |f.data| else 0
  }

  lemma SmallIsNotMissed(s: Stream?, d: Deal, f: Fragment)
    requires f.offset == 0 && |f.data| <= DEFRAG_BUFSIZE
    ensures MissedOf(s, d, f) == 0
  {
  }

  /** A stream that does not wait goes on to be given all it is offered. */
  lemma {:induction false} AllHanded(s: Stream?, d: Deal, rawId: nat, offers: seq<Fragment>)
    requires Takes(s, d)
    ensures var after := OfferedAll(s, d, rawId, offers);
      Takes(s, after) && after.journal == d.journal + EventsOf(s, offers)
  {
    if offers == [] {
      assert d.journal + EventsOf(s, []) == d.journal;
    } else {
      var before := offers[..|offers| - 1];
      AllHanded(s, d, rawId, before);
      hide Fed;
      assert EventsOf(s, offers) == EventsOf(s, before) + [Event(s, offers[|offers| - 1])];
    }
  }

  ghost function EventsOf(s: Stream?, offers: seq<Fragment>): seq<Event>
    requires s != null
  {
    seq(|offers|, i requires 0 <= i < |offers| => Event(s, offers[i]))
  }

  /** A stream that waits is given nothing of a payload that is not marked as a keyframe's, while none was found yet. */
  lemma {:induction false} NothingHanded(s: Stream?, d: Deal, rawId: nat, offers: seq<Fragment>)
    requires d.status.skip && rawId / 0x80 % 2 == 0 && d.keyTs == 0
    ensures OfferedAll(s, d, rawId, offers) == d
  {
    if offers != [] {
      NothingHanded(s, d, rawId, offers[..|offers| - 1]);
    }
  }

  /** Only offers are given, and only to their stream. */
  ghost predicate Grown(s: Stream?, before: seq<Event>, after: seq<Event>, offers: seq<Fragment>) {
    && before <= after
    && forall k :: |before| <= k < |after| ==> after[k].stream == s && after[k].f in offers
  }

  lemma {:induction false} OnlyOffersGiven(s: Stream?, d: Deal, rawId: nat, offers: seq<Fragment>)
    ensures Grown(s, d.journal, OfferedAll(s, d, rawId, offers).journal, offers)
  {
    if offers != [] {
      var n := |offers| - 1;
      OnlyOffersGiven(s, d, rawId, offers[..n]);
      var between := OfferedAll(s, d, rawId, offers[..n]);
      hide OfferedAll, Fed, Woken;
      OfferedOneMore(s, d, rawId, offers[..n], offers[n]);
      assert offers[..n] + [offers[n]] == offers;
      assert Offered(s, between, rawId, offers[n]).journal == between.journal
        || Offered(s, between, rawId, offers[n]).journal == between.journal + [Event(s, offers[n])] by {
        WokenKeeps(between, rawId, offers[n].timestamp);
      }
    }
  }

  lemma WokenKeeps(d: Deal, rawId: nat, timestamp: int)
    ensures Woken(d, rawId, timestamp).journal == d.journal
  {
  }

  // ----- payloads -----

  /** The header of a payload: its stream, if that is one of those chosen, and the three numbers. */
  datatype Header = Header(stream: Stream?, fragOffset: nat, rlen: nat, seqNo: nat)

  /** A payload: its number of stream, which stands at `at`, and how many bytes were left of the packet behind that; its
      header, what it holds, and the length of its data; where the input stood afterwards, and how many bytes of the
      data were neither given to the stream nor passed over. */
  datatype Visit =
    Visit(at: nat, left: nat, rawId: nat, h: Header, offers: seq<Fragment>, length: nat, missed: nat, next: nat)

  /** All that the payloads of a packet change in what streams are given. */
  datatype Scene = Scene(status: map<Stream, Status>, keyTs: int, newpts: bool, journal: seq<Event>)

  /** One payload: the sequence number is checked, and what it holds offered. */
  ghost function Visited(sc: Scene, video: int, code: nat, v: Visit): Scene {
    var s := v.h.stream;
    if s == null || s !in sc.status then sc
    else
      var d := DealIn(sc, s);
      var after := OfferedAll(s, Checked(s, d, video, code, v.h.seqNo), v.rawId, v.offers);
      Scene(sc.status[s := after.status], after.keyTs, sc.newpts || Gap(d.status, code, v.h.seqNo), after.journal)
  }

  /** A stream that does not wait is given all that a payload holds, unless it is the video stream and the number is not
      the one due. */
  lemma VisitGives(sc: Scene, video: int, code: nat, v: Visit)
    requires v.h.stream != null && v.h.stream in sc.status && Takes(v.h.stream, DealIn(sc, v.h.stream))
    requires v.h.stream.streamId != video || !Gap(sc.status[v.h.stream], code, v.h.seqNo)
    ensures var after := Visited(sc, video, code, v);
      after.journal == sc.journal + EventsOf(v.h.stream, v.offers) && !after.status[v.h.stream].skip
  {
    var s := v.h.stream;
    AllHanded(s, Checked(s, DealIn(sc, s), video, code, v.h.seqNo), v.rawId, v.offers);
    hide OfferedAll, Gap;
  }

  /** After a gap the video stream waits, and is given nothing of the payload where the gap was found unless that is
      marked as a keyframe's. */
  lemma GapMakesWait(sc: Scene, video: int, code: nat, v: Visit)
    requires v.h.stream != null && v.h.stream in sc.status && v.h.stream.streamId == video
    requires Gap(sc.status[v.h.stream], code, v.h.seqNo) && v.rawId / 0x80 % 2 == 0
    ensures var after := Visited(sc, video, code, v);
      && after.journal == sc.journal && after.keyTs == 0 && after.newpts
      && after.status[v.h.stream].skip && after.status[v.h.stream].resync
  {
    var s := v.h.stream;
    NothingHanded(s, Checked(s, DealIn(sc, s), video, code, v.h.seqNo), v.rawId, v.offers);
    hide OfferedAll, Gap;
  }

  ghost function VisitedAll(sc: Scene, video: int, code: nat, visits: seq<Visit>): Scene {
    if visits == [] then sc
    else Visited(VisitedAll(sc, video, code, visits[..|visits| - 1]), video, code, visits[|visits| - 1])
  }

  lemma VisitedOneMore(sc: Scene, video: int, code: nat, visits: seq<Visit>, v: Visit)
    ensures VisitedAll(sc, video, code, visits + [v]) == Visited(VisitedAll(sc, video, code, visits), video, code, v)
    ensures
      MissedRight(sc, video, code, visits) && v.missed == MissedBy(VisitedAll(sc, video, code, visits), video, code, v)
      ==> MissedRight(sc, video, code, visits + [v])
  {
    assert (visits + [v])[..|visits + [v]| - 1] == visits;
    hide Visited, MissedBy;
  }

  /** What is true of all streams before and after a payload, given what is true of its stream. */
  lemma SceneMoved(before: Scene, after: Scene, video: int, code: nat, v: Visit)
    requires before.status.Keys == after.status.Keys && (v.h.stream != null ==> v.h.stream in before.status)
    requires forall s :: s in before.status && s != v.h.stream ==> after.status[s] == before.status[s]
    requires Changed(DealIn(before, v.h.stream), DealIn(after, v.h.stream), video, code, v)
    requires after.newpts
          == (before.newpts || (v.h.stream != null && Gap(DealIn(before, v.h.stream).status, code, v.h.seqNo)))
    ensures after == Visited(before, video, code, v)
  {
    hide OfferedAll, Checked, Gap;
    if v.h.stream == null {
      NobodyOffered(DealIn(before, null), v.rawId, v.offers);
      assert Checked(null, DealIn(before, null), video, code, v.h.seqNo) == DealIn(before, null) by {
        NobodyChecked(DealIn(before, null), video, code, v.h.seqNo);
      }
      assert after.status == before.status;
    } else {
      assert after.status == before.status[v.h.stream := after.status[v.h.stream]];
    }
  }

  ghost function DealIn(sc: Scene, s: Stream?): Deal
    requires s != null ==> s in sc.status
  {
    Deal(if s == null then Status(false, false, false, 0, 0) else sc.status[s], sc.keyTs, sc.journal)
  }

  ghost predicate Changed(before: Deal, after: Deal, video: int, code: nat, v: Visit) {
    after == OfferedAll(v.h.stream, Checked(v.h.stream, before, video, code, v.h.seqNo), v.rawId, v.offers)
  }

  lemma {:induction false} NobodyOffered(d: Deal, rawId: nat, offers: seq<Fragment>)
    ensures OfferedAll(null, d, rawId, offers) == d
  {
    if offers != [] {
      NobodyOffered(d, rawId, offers[..|offers| - 1]);
    }
  }

  lemma NobodyChecked(d: Deal, video: int, code: nat, seqNo: nat)
    ensures Checked(null, d, video, code, seqNo) == d
  {
  }

  /** What of a fragment does not fit. */
  ghost function MissedFirst(h: Header, d: Deal, rawId: nat, offers: seq<Fragment>): nat {
    if h.rlen == 1 || offers == [] then 0
    else MissedOf(h.stream, Roused(h.stream, d, rawId, offers[0].offset, offers[0].timestamp), offers[0])
  }

  ghost function MissedBy(sc: Scene, video: int, code: nat, v: Visit): nat {
    if v.h.stream != null && v.h.stream !in sc.status then 0
    else MissedFirst(v.h, Checked(v.h.stream, DealIn(sc, v.h.stream), video, code, v.h.seqNo), v.rawId, v.offers)
  }

  /** Missed is what did not fit when its turn came. */
  ghost predicate MissedRight(sc: Scene, video: int, code: nat, visits: seq<Visit>) {
    visits != [] ==>
      var before, v := visits[..|visits| - 1], visits[|visits| - 1];
      MissedRight(sc, video, code, before) && v.missed == MissedBy(VisitedAll(sc, video, code, before), video, code, v)
  }

  function TotalMissed(visits: seq<Visit>): nat {
    if visits == [] then 0 else TotalMissed(visits[..|visits| - 1]) + visits[|visits| - 1].missed
  }
}
