/** The numbers of ASF payloads: which of them make a gap, and what a stream is given while none is missing
    (src/demuxers/demux_asf.c:1172-1227). */
module AsfNumbering {
  import opened Arithmetic
  import opened AsfDealing
  import opened AsfFragments
  import opened AsfJournal
  import opened AsfStream

  /** How many numbers a field has, by its two-bit code: none, one, two or four bytes. */
  function Span(code: nat): (p: nat)
    ensures p > 0
  {
    if code == 1 then 0x100 else if code == 2 then 0x1_0000 else if code == 3 then WORD else 1
  }

  predicate IsInt(x: int) {
    -0x8000_0000 <= x < 0x8000_0000
  }

  /** A negative number, which only a field of four bytes can have left behind, has no successor in a shorter field,
      because the remainder keeps the sign. */
  predicate Stuck(last: int, code: nat) {
    0 < code < 3 && last < -1 && (last + 1) % Span(code) != 0
  }

  /** A gap is seen by a stream that is neither at its beginning nor waiting: inside a frame exactly if the number is
      not the last one, and between frames exactly if it is not the one behind it, counted in the width of the field. */
  lemma GapMeans(st: Status, code: nat, seqNo: nat)
    requires IsInt(st.seqNo) && code < 4 && seqNo < Span(code)
    ensures Gap(st, code, seqNo) <==>
      && !st.firstSeq && !st.skip
      && if st.fill != 0 then seqNo != st.seqNo % WORD
         else seqNo != (st.seqNo + 1) % Span(code) || Stuck(st.seqNo, code)
  {
    var next := st.seqNo + 1;
    NextIs(next);
    if code == 1 || code == 2 {
      RemainderFits(next, Span(code));
    } else if code == 3 {
      ModTwice(next);
    }
    hide CRem;
  }

  /** The next number as an `int`. */
  lemma NextIs(next: int)
    requires -0x8000_0000 < next <= 0x8000_0000
    ensures Signed(U32(next)) == if next == 0x8000_0000 then -0x8000_0000 else next
  {
    RemainderIs(next, if next < 0 then -1 else 0, if next < 0 then next + WORD else next, WORD);
  }

  lemma RemainderFits(next: int, p: nat)
    requires -0x8000_0000 < next <= 0x8000_0000 && (p == 0x100 || p == 0x1_0000)
    ensures var x := if next == 0x8000_0000 then -0x8000_0000 else next;
      if next >= 0 || next % p == 0 then U32(CRem(x, p)) == next % p else U32(CRem(x, p)) >= p
  {
    if next == 0x8000_0000 {
      assert 0x8000_0000 % p == 0;
    } else if next >= 0 {
      RemainderIs(next % p, 0, next % p, WORD);
    } else {
      var r := (-next) % p;
      RemainderIs(-r, if r == 0 then 0 else -1, if r == 0 then 0 else WORD - r, WORD);
      NegativeRemainder(next, p);
    }
  }

  lemma NegativeRemainder(next: int, p: nat)
    requires next < 0 && p > 0
    ensures next % p == 0 <==> (-next) % p == 0
  {
    var q, r := (-next) / p, (-next) % p;
    assert -next == q * p + r && (-q) * p == -(q * p) && (-q - 1) * p == -(q * p) - p;
    if r == 0 {
      RemainderIs(next, -q, 0, p);
    } else {
      RemainderIs(next, -q - 1, p - r, p);
    }
  }

  lemma ModTwice(next: int)
    requires -0x8000_0000 < next <= 0x8000_0000
    ensures U32(Signed(U32(next))) == next % WORD
  {
    NextIs(next);
    if next == 0x8000_0000 {
      RemainderIs(-0x8000_0000, -1, 0x8000_0000, WORD);
      RemainderIs(next, 0, next, WORD);
    }
  }

  lemma NumbersByExample()
    ensures var st := Status(false, false, false, 1, 0);
      !Gap(st, 1, 2) && !Gap(st, 2, 2) && !Gap(st, 3, 2) && Gap(st, 1, 1) && Gap(st, 1, 3)
    ensures !Gap(Status(false, false, false, 255, 0), 1, 0) && Gap(Status(false, false, false, 255, 0), 2, 0)
    ensures !Gap(Status(false, false, false, 255, 0), 2, 256)
    ensures !Gap(Status(false, false, false, 7, 100), 1, 7) && Gap(Status(false, false, false, 7, 100), 1, 8)
  {
    hide Gap;
    GapMeans(Status(false, false, false, 1, 0), 1, 2);
    GapMeans(Status(false, false, false, 1, 0), 2, 2);
    GapMeans(Status(false, false, false, 1, 0), 3, 2);
    GapMeans(Status(false, false, false, 1, 0), 1, 1);
    GapMeans(Status(false, false, false, 1, 0), 1, 3);
    GapMeans(Status(false, false, false, 255, 0), 1, 0);
    GapMeans(Status(false, false, false, 255, 0), 2, 0);
    GapMeans(Status(false, false, false, 255, 0), 2, 256);
    GapMeans(Status(false, false, false, 7, 100), 1, 7);
    GapMeans(Status(false, false, false, 7, 100), 1, 8);
  }

  // ----- runs without loss -----

  /** A whole frame with this number. */
  ghost predicate Whole(f: Fragment, number: nat) {
    f.offset == 0 && f.payload == |f.data| && f.seqNo == Signed(U32(number))
  }

  ghost predicate Wholes(offers: seq<Fragment>, number: nat) {
    forall i :: 0 <= i < |offers| ==> Whole(offers[i], number + i)
  }

  /** A stream between two frames, which does not wait. */
  predicate Between(st: Status) {
    !st.skip && !st.resync && st.fill == 0
  }

  lemma WholeFed(s: Stream, st: Status, f: Fragment, number: nat)
    requires Sendable(s) && st.fill == 0 && Whole(f, number)
    ensures Fed(s, st, f) == st.(seqNo := Signed(U32(number)), fill := 0)
  {
    if !s.defrag {
      if f.data == [] {
        NothingSince(0, f.timestamp * 90, f.payload, s.fifo.pool);
      } else {
        DirectEnds(0, f.data, f.timestamp * 90, f.payload, s.fifo.pool);
      }
    }
    hide Direct, Signed;
  }

  lemma WholeOffered(s: Stream, d: Deal, rawId: nat, f: Fragment, number: nat)
    requires Sendable(s) && Between(d.status) && Whole(f, number)
    ensures Offered(s, d, rawId, f)
         == Deal(d.status.(seqNo := Signed(U32(number)), fill := 0), d.keyTs, d.journal + [Event(s, f)])
  {
    WholeFed(s, d.status, f, number);
    hide Fed, Signed;
  }

  /** All whole frames that a stream is offered between two frames it is given. */
  lemma {:induction false} WholesOffered(s: Stream, d: Deal, rawId: nat, offers: seq<Fragment>, number: nat)
    requires Sendable(s) && Between(d.status) && Wholes(offers, number)
    ensures OfferedAll(s, d, rawId, offers)
         == Deal(if offers == [] then d.status else d.status.(seqNo := Signed(U32(number + |offers| - 1)), fill := 0),
                 d.keyTs, d.journal + EventsOf(s, offers))
  {
    if offers == [] {
      assert EventsOf(s, offers) == [] && d.journal + [] == d.journal;
    } else {
      var n := |offers| - 1;
      WholesOffered(s, d, rawId, offers[..n], number);
      hide Offered, Signed, Whole;
      WholeOffered(s, OfferedAll(s, d, rawId, offers[..n]), rawId, offers[n], number + n);
      assert EventsOf(s, offers) == EventsOf(s, offers[..n]) + [Event(s, offers[n])];
    }
  }

  /** A payload of the stream that holds whole frames. */
  ghost predicate OfFrames(v: Visit, s: Stream, code: nat) {
    && v.h.stream == s && v.h.seqNo < Span(code)
    && 0 < |v.offers| < 0x7FFF_0000 && Wholes(v.offers, v.h.seqNo)
  }

  /** The number that comes behind those of a payload. */
  function Following(v: Visit, code: nat): nat {
    (v.h.seqNo + |v.offers|) % Span(code)
  }

  ghost predicate Consecutive(visits: seq<Visit>, s: Stream, code: nat) {
    && (forall k :: 0 <= k < |visits| ==> OfFrames(visits[k], s, code))
    && forall k :: 0 < k < |visits| ==> visits[k].h.seqNo == Following(visits[k - 1], code)
  }

  /** The last number of a payload. */
  function LastOf(v: Visit): int {
    Signed(U32(v.h.seqNo + |v.offers| - 1))
  }

  ghost function AllEvents(s: Stream, visits: seq<Visit>): seq<Event> {
    if visits == [] then []
    else AllEvents(s, visits[..|visits| - 1]) + EventsOf(s, visits[|visits| - 1].offers)
  }

  /** Behind a payload, the number that follows is the one that makes no gap. */
  lemma FollowingIsDue(v: Visit, s: Stream, code: nat, st: Status, seqNo: nat)
    requires OfFrames(v, s, code) && 0 < code < 4 && seqNo < Span(code)
    requires st == Status(false, false, false, LastOf(v), 0)
    ensures Gap(st, code, seqNo) <==> seqNo != Following(v, code)
  {
    var n := v.h.seqNo + |v.offers| - 1;
    LastIsInt(n);
    GapMeans(st, code, seqNo);
    hide Gap;
    if code < 3 {
      RemainderIs(n, 0, n, WORD);
    } else {
      var q := n / WORD;
      assert n == q * WORD + n % WORD;
      AddMultiple(LastOf(v) + 1, if LastOf(v) < 0 then q + 1 else q, WORD);
    }
  }

  lemma LastIsInt(n: nat)
    ensures IsInt(Signed(U32(n)))
  {
  }

  lemma OneVisit(sc: Scene, video: int, code: nat, v: Visit, s: Stream)
    requires s in sc.status && Sendable(s) && OfFrames(v, s, code)
    requires Between(sc.status[s]) && !Gap(sc.status[s], code, v.h.seqNo)
    ensures Visited(sc, video, code, v)
         == Scene(sc.status[s := Status(false, false, false, LastOf(v), 0)], sc.keyTs, sc.newpts,
                  sc.journal + EventsOf(s, v.offers))
  {
    hide Gap, OfferedAll, Signed;
    WholesOffered(s, Checked(s, DealIn(sc, s), video, code, v.h.seqNo), v.rawId, v.offers, v.h.seqNo);
  }

  /** Where the stream stands behind such a payload. */
  function Behind(v: Visit): Status {
    Status(false, false, false, LastOf(v), 0)
  }

  /** As long as the numbers follow each other, over the end of their range too, the stream is given every frame, and
      nothing else changes. */
  lemma {:induction false} UndamagedRun(sc: Scene, video: int, code: nat, s: Stream, visits: seq<Visit>)
    requires 0 < code < 4 && s in sc.status && Sendable(s) && Between(sc.status[s])
    requires visits != [] && Consecutive(visits, s, code) && !Gap(sc.status[s], code, visits[0].h.seqNo)
    ensures VisitedAll(sc, video, code, visits)
         == Scene(sc.status[s := Behind(visits[|visits| - 1])], sc.keyTs, sc.newpts, sc.journal + AllEvents(s, visits))
  {
    var n := |visits| - 1;
    var before, v := visits[..n], visits[n];
    assert before + [v] == visits;
    AllEventsNext(s, visits);
    hide Gap, Visited, VisitedAll, AllEvents, Behind;
    VisitedOneMore(sc, video, code, before, v);
    if n == 0 {
      NoVisits(sc, video, code, s);
      FirstVisited(sc, video, code, s, v);
    } else {
      UndamagedRun(sc, video, code, s, before);
      NextVisited(sc, VisitedAll(sc, video, code, before), video, code, s, visits[n - 1], v, AllEvents(s, before));
    }
  }

  lemma AllEventsNext(s: Stream, visits: seq<Visit>)
    requires visits != []
    ensures AllEvents(s, visits) == AllEvents(s, visits[..|visits| - 1]) + EventsOf(s, visits[|visits| - 1].offers)
  {
  }

  lemma NoVisits(sc: Scene, video: int, code: nat, s: Stream)
    ensures VisitedAll(sc, video, code, []) == sc && AllEvents(s, []) == []
  {
  }

  lemma FirstVisited(sc: Scene, video: int, code: nat, s: Stream, v: Visit)
    requires s in sc.status && Sendable(s) && Between(sc.status[s]) && OfFrames(v, s, code)
    requires !Gap(sc.status[s], code, v.h.seqNo)
    ensures Visited(sc, video, code, v)
         == Scene(sc.status[s := Behind(v)], sc.keyTs, sc.newpts, sc.journal + ([] + EventsOf(s, v.offers)))
  {
    OneVisit(sc, video, code, v, s);
    hide Gap, Visited;
    assert [] + EventsOf(s, v.offers) == EventsOf(s, v.offers);
  }

  lemma NextVisited(sc: Scene, now: Scene, video: int, code: nat, s: Stream, u: Visit, v: Visit, given: seq<Event>)
    requires 0 < code < 4 && s in sc.status && Sendable(s) && OfFrames(u, s, code) && OfFrames(v, s, code)
    requires now == Scene(sc.status[s := Behind(u)], sc.keyTs, sc.newpts, sc.journal + given)
    requires v.h.seqNo == Following(u, code)
    ensures Visited(now, video, code, v)
         == Scene(sc.status[s := Behind(v)], sc.keyTs, sc.newpts, sc.journal + (given + EventsOf(s, v.offers)))
  {
    hide Gap, Visited, Signed, OfFrames;
    FollowingIsDue(u, s, code, now.status[s], v.h.seqNo);
    OneVisit(now, video, code, v, s);
    assert now.status[s := Behind(v)] == sc.status[s := Behind(v)];
    assert sc.journal + given + EventsOf(s, v.offers) == sc.journal + (given + EventsOf(s, v.offers));
  }

  /** With any other number than the one that follows, the video stream waits for a keyframe, and is given nothing of
      the payload unless that is marked as a keyframe's. */
  lemma NumberLeftOut(sc: Scene, code: nat, s: Stream, visits: seq<Visit>, v: Visit)
    requires 0 < code < 4 && s in sc.status && Sendable(s) && Between(sc.status[s])
    requires visits != [] && Consecutive(visits, s, code) && !Gap(sc.status[s], code, visits[0].h.seqNo)
    requires v.h.stream == s && v.h.seqNo < Span(code) && v.rawId / 0x80 % 2 == 0
    requires v.h.seqNo != Following(visits[|visits| - 1], code)
    ensures var after := VisitedAll(sc, s.streamId, code, visits + [v]);
      && after.status.Keys == sc.status.Keys && after.status[s].skip && after.status[s].resync
      && after.keyTs == 0 && after.newpts && after.journal == sc.journal + AllEvents(s, visits)
  {
    hide Gap, Visited, VisitedAll, Signed;
    UndamagedRun(sc, s.streamId, code, s, visits);
    var now := VisitedAll(sc, s.streamId, code, visits);
    FollowingIsDue(visits[|visits| - 1], s, code, now.status[s], v.h.seqNo);
    VisitedOneMore(sc, s.streamId, code, visits, v);
    GapMakesWait(now, s.streamId, code, v);
    VisitKeepsStreams(now, s.streamId, code, v);
  }

  lemma VisitKeepsStreams(sc: Scene, video: int, code: nat, v: Visit)
    ensures Visited(sc, video, code, v).status.Keys == sc.status.Keys
  {
    hide OfferedAll, Checked, Gap;
  }
}
