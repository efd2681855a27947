/** Trickle-ICE buffering in the browser client: arrivals, teardowns, call set-up and several
    suspended flushes interleave at every `await`. */
module IceBuffering {
  import opened Prelude

  /** What happened, in order. The position of an `Arrived` event names that arrival, the position of
      a `CallCreated` event names that call. */
  datatype Event =
    | Arrived(candidate: string)
    | TornDown
    | CallCreated
    | Handed(arrival: nat, candidate: string, call: nat)

  /** A buffered candidate: the epoch it was tagged with, and which arrival it is. */
  datatype PendingIce = PendingIce(epoch: nat, candidate: string, arrival: nat)

  /** A `flushPendingIce` suspended at its `await`: its epoch and the entries it has not handed over. */
  datatype Flush = Flush(epoch: nat, rest: seq<PendingIce>)

  /** Where an arrival has got to. */
  datatype Place = Buffered | InFlush(index: nat) | HandedOver | Dropped

  ghost function TearDowns(trace: seq<Event>): nat {
    if trace == [] then 0 else TearDowns(trace[..|trace| - 1]) + if trace[|trace| - 1].TornDown? then 1 else 0
  }

  lemma TearDownsSnoc(trace: seq<Event>, e: Event)
    ensures TearDowns(trace + [e]) == TearDowns(trace) + if e.TornDown? then 1 else 0
  {
    assert (trace + [e])[..|trace|] == trace;
  }

  // ---- the promise ------------------------------------------------------------

  /** No teardown from position `i` up to position `j`. */
  ghost predicate SameDialog(trace: seq<Event>, i: nat, j: nat) {
    forall k :: i <= k < j && k < |trace| ==> !trace[k].TornDown?
  }

  /** The hand-over at position `j` is of a candidate that arrived earlier in the same dialog, to a
      call created in that dialog. */
  ghost predicate FromSameDialog(trace: seq<Event>, j: nat)
    requires j < |trace| && trace[j].Handed?
  {
    var i, c := trace[j].arrival, trace[j].call;
    && i < j && trace[i] == Arrived(trace[j].candidate) && SameDialog(trace, i, j)
    && c < j && trace[c] == CallCreated && SameDialog(trace, c, j)
  }

  /** A candidate is handed over only within the dialog it arrived in, and no arrival twice. */
  ghost predicate Sound(trace: seq<Event>) {
    && (forall j :: 0 <= j < |trace| && trace[j].Handed? ==> FromSameDialog(trace, j))
    && (forall j, k :: 0 <= j < k < |trace| && trace[j].Handed? && trace[k].Handed? ==>
          trace[j].arrival != trace[k].arrival)
  }

  ghost predicate HandedIn(trace: seq<Event>, arrival: nat) {
    exists j :: 0 <= j < |trace| && trace[j].Handed? && trace[j].arrival == arrival
  }

  ghost predicate Holds(entries: seq<PendingIce>, arrival: nat) {
    exists i :: 0 <= i < |entries| && entries[i].arrival == arrival
  }

  /** A candidate that arrived in the dialog still going on. */
  ghost predicate CurrentArrival(trace: seq<Event>, a: nat) {
    a < |trace| && trace[a].Arrived? && TearDowns(trace[..a]) == TearDowns(trace)
  }

  /** Nothing is lost within a dialog: every arrival is buffered, waiting in a flush, or handed over. */
  ghost predicate Accounted(trace: seq<Event>, pending: seq<PendingIce>, flushes: seq<Flush>, a: nat) {
    || Holds(pending, a)
    || (exists f :: 0 <= f < |flushes| && Holds(flushes[f].rest, a))
    || HandedIn(trace, a)
  }

  // ---- the invariant ------------------------------------------------------------

  ghost predicate TaggedEntry(trace: seq<Event>, p: PendingIce) {
    p.arrival < |trace| && trace[p.arrival] == Arrived(p.candidate) && p.epoch == TearDowns(trace[..p.arrival])
  }

  /** `entries` are correctly tagged, pairwise different arrivals, all of them at `at`. */
  ghost predicate Kept(trace: seq<Event>, place: map<nat, Place>, entries: seq<PendingIce>, at: Place) {
    && (forall i :: 0 <= i < |entries| ==> TaggedEntry(trace, entries[i]) && PlaceOf(place, entries[i].arrival) == at)
    && (forall i, j :: 0 <= i < j < |entries| ==> entries[i].arrival != entries[j].arrival)
  }

  ghost function PlaceOf(place: map<nat, Place>, a: nat): Place {
    if a in place then place[a] else Dropped
  }

  ghost predicate FlushOk(trace: seq<Event>, place: map<nat, Place>, call: Option<nat>, flush: Flush, f: nat) {
    && Kept(trace, place, flush.rest, InFlush(f))
    && (forall i :: 0 <= i < |flush.rest| ==> flush.rest[i].epoch == flush.epoch)
    && flush.epoch <= TearDowns(trace)
    && (flush.rest != [] && flush.epoch == TearDowns(trace) ==> call.Some?)
  }

  ghost predicate CallOk(trace: seq<Event>, call: Option<nat>) {
    call.Some? ==> call.value < |trace| && trace[call.value] == CallCreated && SameDialog(trace, call.value, |trace|)
  }

  /** The bookkeeping of hand-overs: sound so far, and exactly the handed arrivals are marked so. */
  ghost predicate HandedOk(trace: seq<Event>, place: map<nat, Place>) {
    && Sound(trace)
    && (forall j :: 0 <= j < |trace| && trace[j].Handed? ==> PlaceOf(place, trace[j].arrival) == HandedOver)
  }

  ghost predicate Locates(
    trace: seq<Event>, place: map<nat, Place>, pending: seq<PendingIce>, flushes: seq<Flush>, a: nat)
  {
    match PlaceOf(place, a)
    case Buffered => Holds(pending, a)
    case InFlush(f) => f < |flushes| && Holds(flushes[f].rest, a)
    case HandedOver => HandedIn(trace, a)
    case Dropped => false
  }

  ghost predicate Conserved(
    trace: seq<Event>, place: map<nat, Place>, pending: seq<PendingIce>, flushes: seq<Flush>)
  {
    forall a :: CurrentArrival(trace, a) ==> Locates(trace, place, pending, flushes, a)
  }

  ghost predicate FlushesOk(trace: seq<Event>, place: map<nat, Place>, call: Option<nat>, flushes: seq<Flush>) {
    forall f :: 0 <= f < |flushes| ==> FlushOk(trace, place, call, flushes[f], f)
  }

  ghost predicate PlacesKnown(trace: seq<Event>, place: map<nat, Place>, flushes: seq<Flush>) {
    forall a :: a in place ==> a < |trace| && (place[a].InFlush? ==> place[a].index < |flushes|)
  }

  // ---- how the trace grows ---------------------------------------------------------

  lemma KeptGrows(trace: seq<Event>, e: Event, place: map<nat, Place>, entries: seq<PendingIce>, at: Place)
    requires Kept(trace, place, entries, at)
    ensures Kept(trace + [e], place, entries, at)
  {
    forall i | 0 <= i < |entries|
      ensures TaggedEntry(trace + [e], entries[i])
    {
      assert TaggedEntry(trace, entries[i]);
      assert (trace + [e])[..entries[i].arrival] == trace[..entries[i].arrival];
    }
  }

  lemma FlushesGrow(trace: seq<Event>, e: Event, place: map<nat, Place>, call: Option<nat>, call': Option<nat>, flushes: seq<Flush>)
    requires FlushesOk(trace, place, call, flushes)
    requires call.Some? ==> call'.Some? || e.TornDown?
    ensures FlushesOk(trace + [e], place, call', flushes)
  {
    forall f | 0 <= f < |flushes|
      ensures FlushOk(trace + [e], place, call', flushes[f], f)
    {
      assert FlushOk(trace, place, call, flushes[f], f);
      KeptGrows(trace, e, place, flushes[f].rest, InFlush(f));
      TearDownsSnoc(trace, e);
    }
  }

  lemma SoundGrows(trace: seq<Event>, e: Event)
    requires Sound(trace)
    requires e.Handed? ==> FromSameDialog(trace + [e], |trace|) && !HandedIn(trace, e.arrival)
    ensures Sound(trace + [e])
  {
    var t := trace + [e];
    forall j | 0 <= j < |t| && t[j].Handed?
      ensures FromSameDialog(t, j)
    {
      if j < |trace| {
        assert FromSameDialog(trace, j);
        assert forall k :: 0 <= k < |trace| ==> t[k] == trace[k];
      }
    }
  }

  lemma HandedGrows(trace: seq<Event>, e: Event, a: nat)
    requires HandedIn(trace, a)
    ensures HandedIn(trace + [e], a)
  {
    var j :| 0 <= j < |trace| && trace[j].Handed? && trace[j].arrival == a;
    assert (trace + [e])[j] == trace[j];
  }

  /** Equal teardown counts mean no teardown in between. */
  lemma {:induction false} EqualEpochs(trace: seq<Event>, i: nat)
    requires i <= |trace|
    ensures TearDowns(trace[..i]) <= TearDowns(trace)
    ensures TearDowns(trace[..i]) == TearDowns(trace) ==> SameDialog(trace, i, |trace|)
  {
    if i == |trace| {
      assert trace[..i] == trace;
    } else {
      var before := trace[..|trace| - 1];
      EqualEpochs(before, i);
      assert before[..i] == trace[..i];
      assert forall k :: 0 <= k < |before| ==> before[k] == trace[k];
    }
  }

  /** An arrival older than the newest event is current only if it was so before and that event was no teardown. */
  lemma CurrentShrinks(trace: seq<Event>, e: Event, a: nat)
    requires CurrentArrival(trace + [e], a) && a < |trace|
    ensures CurrentArrival(trace, a) && !e.TornDown?
  {
    TearDownsSnoc(trace, e);
    assert (trace + [e])[..a] == trace[..a];
    EqualEpochs(trace, a);
  }

  /** Any event but an arrival keeps every current arrival located. */
  lemma ConservedGrows(
    trace: seq<Event>, e: Event, place: map<nat, Place>, pending: seq<PendingIce>, flushes: seq<Flush>)
    requires Conserved(trace, place, pending, flushes) && !e.Arrived?
    ensures Conserved(trace + [e], place, pending, flushes)
  {
    forall a | CurrentArrival(trace + [e], a)
      ensures Locates(trace + [e], place, pending, flushes, a)
    {
      CurrentShrinks(trace, e, a);
      assert Locates(trace, place, pending, flushes, a);
      if HandedIn(trace, a) {
        HandedGrows(trace, e, a);
      }
    }
  }

  lemma CallGrows(trace: seq<Event>, e: Event, call: Option<nat>)
    requires CallOk(trace, call) && !e.TornDown?
    ensures CallOk(trace + [e], call)
  {
  }

  ghost predicate Inv(
    trace: seq<Event>, place: map<nat, Place>, epoch: nat, call: Option<nat>,
    pending: seq<PendingIce>, flushes: seq<Flush>)
  {
    && epoch == TearDowns(trace)
    && CallOk(trace, call)
    && Kept(trace, place, pending, Buffered)
    && FlushesOk(trace, place, call, flushes)
    && HandedOk(trace, place)
    && Conserved(trace, place, pending, flushes)
    && PlacesKnown(trace, place, flushes)
  }

  lemma HandedOkGrows(trace: seq<Event>, e: Event, place: map<nat, Place>)
    requires HandedOk(trace, place) && !e.Handed?
    ensures HandedOk(trace + [e], place)
  {
    SoundGrows(trace, e);
  }

  // ---- arrivals ----------------------------------------------------------------------

  lemma KeptElsewhere(
    trace: seq<Event>, place: map<nat, Place>, a: nat, now: Place, entries: seq<PendingIce>, at: Place)
    requires Kept(trace, place, entries, at) && PlaceOf(place, a) != at
    ensures Kept(trace, place[a := now], entries, at)
  {
    forall i | 0 <= i < |entries|
      ensures PlaceOf(place[a := now], entries[i].arrival) == at
    {
      assert TaggedEntry(trace, entries[i]);
    }
  }

  lemma FlushesElsewhere(
    trace: seq<Event>, place: map<nat, Place>, call: Option<nat>, flushes: seq<Flush>, a: nat, now: Place)
    requires FlushesOk(trace, place, call, flushes) && !PlaceOf(place, a).InFlush?
    ensures FlushesOk(trace, place[a := now], call, flushes)
  {
    forall f | 0 <= f < |flushes|
      ensures FlushOk(trace, place[a := now], call, flushes[f], f)
    {
      assert FlushOk(trace, place, call, flushes[f], f);
      KeptElsewhere(trace, place, a, now, flushes[f].rest, InFlush(f));
    }
  }

  lemma ArrivedIsTagged(trace: seq<Event>, candidate: string)
    ensures TaggedEntry(trace + [Arrived(candidate)], PendingIce(TearDowns(trace), candidate, |trace|))
  {
    assert (trace + [Arrived(candidate)])[..|trace|] == trace;
  }

  lemma ConservedArrival(
    trace: seq<Event>, candidate: string, place: map<nat, Place>, pending: seq<PendingIce>, flushes: seq<Flush>)
    requires Conserved(trace, place, pending, flushes)
    ensures Conserved(
      trace + [Arrived(candidate)], place[|trace| := Buffered],
      pending + [PendingIce(TearDowns(trace), candidate, |trace|)], flushes)
  {
    var t := trace + [Arrived(candidate)];
    var p := PendingIce(TearDowns(trace), candidate, |trace|);
    forall a | CurrentArrival(t, a)
      ensures Locates(t, place[|trace| := Buffered], pending + [p], flushes, a)
    {
      if a == |trace| {
        assert (pending + [p])[|pending|].arrival == a;
      } else {
        CurrentShrinks(trace, Arrived(candidate), a);
        assert Locates(trace, place, pending, flushes, a);
        if HandedIn(trace, a) {
          HandedGrows(trace, Arrived(candidate), a);
        }
        if Holds(pending, a) {
          var i :| 0 <= i < |pending| && pending[i].arrival == a;
          assert (pending + [p])[i].arrival == a;
        }
      }
    }
  }

  lemma BufferStep(
    trace: seq<Event>, place: map<nat, Place>, epoch: nat, call: Option<nat>,
    pending: seq<PendingIce>, flushes: seq<Flush>, candidate: string)
    requires Inv(trace, place, epoch, call, pending, flushes)
    ensures Inv(
      trace + [Arrived(candidate)], place[|trace| := Buffered], epoch, call,
      pending + [PendingIce(epoch, candidate, |trace|)], flushes)
  {
    var e := Arrived(candidate);
    var p := PendingIce(epoch, candidate, |trace|);
    assert |trace| !in place;
    hide Conserved;
    hide Kept;
    hide FlushesOk;
    hide HandedOk;
    hide CallOk;
    hide PlacesKnown;
    PlacesPlus(trace, e, place, flushes);
    TearDownsSnoc(trace, e);
    CallGrows(trace, e, call);
    KeptGrows(trace, e, place, pending, Buffered);
    FlushesGrow(trace, e, place, call, call, flushes);
    FlushesElsewhere(trace + [e], place, call, flushes, |trace|, Buffered);
    HandedOkGrows(trace, e, place);
    ConservedArrival(trace, candidate, place, pending, flushes);
    ArrivedIsTagged(trace, candidate);
    KeptPlus(trace + [e], place, pending, p);
    HandedElsewhere(trace + [e], place, |trace|, Buffered);
  }

  lemma PlacesPlus(trace: seq<Event>, e: Event, place: map<nat, Place>, flushes: seq<Flush>)
    requires PlacesKnown(trace, place, flushes)
    ensures PlacesKnown(trace + [e], place[|trace| := Buffered], flushes)
  {
  }

  lemma KeptPlus(trace: seq<Event>, place: map<nat, Place>, entries: seq<PendingIce>, p: PendingIce)
    requires Kept(trace, place, entries, Buffered) && TaggedEntry(trace, p) && p.arrival !in place
    ensures Kept(trace, place[p.arrival := Buffered], entries + [p], Buffered)
  {
    forall i | 0 <= i < |entries|
      ensures entries[i].arrival in place
    {
      assert PlaceOf(place, entries[i].arrival) == Buffered;
    }
  }

  lemma HandedElsewhere(trace: seq<Event>, place: map<nat, Place>, a: nat, now: Place)
    requires HandedOk(trace, place) && PlaceOf(place, a) != HandedOver
    ensures HandedOk(trace, place[a := now])
  {
  }

  // ---- hand-overs ----------------------------------------------------------------------

  lemma HandedOkHandOver(trace: seq<Event>, place: map<nat, Place>, call: nat, p: PendingIce)
    requires HandedOk(trace, place) && CallOk(trace, Some(call))
    requires TaggedEntry(trace, p) && p.epoch == TearDowns(trace) && PlaceOf(place, p.arrival) != HandedOver
    ensures HandedOk(trace + [Handed(p.arrival, p.candidate, call)], place[p.arrival := HandedOver])
  {
    var e := Handed(p.arrival, p.candidate, call);
    EqualEpochs(trace, p.arrival);
    SoundGrows(trace, e);
  }

  lemma ConservedHandOver(
    trace: seq<Event>, p: PendingIce, call: nat, place: map<nat, Place>,
    pending: seq<PendingIce>, flushes: seq<Flush>, pending': seq<PendingIce>, flushes': seq<Flush>)
    requires Conserved(trace, place, pending, flushes) && |flushes'| == |flushes|
    requires forall a :: a != p.arrival && Holds(pending, a) ==> Holds(pending', a)
    requires forall f, a :: 0 <= f < |flushes| && a != p.arrival && Holds(flushes[f].rest, a) ==> Holds(flushes'[f].rest, a)
    ensures Conserved(
      trace + [Handed(p.arrival, p.candidate, call)], place[p.arrival := HandedOver], pending', flushes')
  {
    var e := Handed(p.arrival, p.candidate, call);
    var t := trace + [e];
    forall a | CurrentArrival(t, a)
      ensures Locates(t, place[p.arrival := HandedOver], pending', flushes', a)
    {
      assert t[|trace|] == e;
      if a != p.arrival {
        CurrentShrinks(trace, e, a);
        assert Locates(trace, place, pending, flushes, a);
        if HandedIn(trace, a) {
          HandedGrows(trace, e, a);
        }
      }
    }
  }

  lemma HoldsRest(entries: seq<PendingIce>, a: nat)
    requires entries != [] && Holds(entries, a) && a != entries[0].arrival
    ensures Holds(entries[1..], a)
  {
    var i :| 0 <= i < |entries| && entries[i].arrival == a;
    assert entries[1..][i - 1].arrival == a;
  }

  lemma KeptRest(trace: seq<Event>, place: map<nat, Place>, entries: seq<PendingIce>, at: Place)
    requires Kept(trace, place, entries, at) && entries != []
    ensures Kept(trace, place[entries[0].arrival := HandedOver], entries[1..], at)
  {
    var rest := entries[1..];
    forall i | 0 <= i < |rest|
      ensures TaggedEntry(trace, rest[i]) && PlaceOf(place[entries[0].arrival := HandedOver], rest[i].arrival) == at
    {
      assert rest[i] == entries[i + 1];
    }
  }

  ghost function Shortened(flushes: seq<Flush>, f: nat): seq<Flush>
    requires f < |flushes| && flushes[f].rest != []
  {
    flushes[f := Flush(flushes[f].epoch, flushes[f].rest[1..])]
  }

  lemma FlushesHandOver(
    trace: seq<Event>, place: map<nat, Place>, call: Option<nat>, flushes: seq<Flush>, f: nat)
    requires FlushesOk(trace, place, call, flushes) && f < |flushes| && flushes[f].rest != []
    ensures FlushesOk(trace, place[flushes[f].rest[0].arrival := HandedOver], call, Shortened(flushes, f))
  {
    var p, flushes' := flushes[f].rest[0], Shortened(flushes, f);
    assert FlushOk(trace, place, call, flushes[f], f);
    assert PlaceOf(place, p.arrival) == InFlush(f);
    forall g | 0 <= g < |flushes'|
      ensures FlushOk(trace, place[p.arrival := HandedOver], call, flushes'[g], g)
    {
      assert FlushOk(trace, place, call, flushes[g], g);
      if g == f {
        KeptRest(trace, place, flushes[f].rest, InFlush(f));
      } else {
        KeptElsewhere(trace, place, p.arrival, HandedOver, flushes[g].rest, InFlush(g));
      }
    }
  }

  lemma FlushHandStep(
    trace: seq<Event>, place: map<nat, Place>, epoch: nat, call: Option<nat>,
    pending: seq<PendingIce>, flushes: seq<Flush>, f: nat)
    requires Inv(trace, place, epoch, call, pending, flushes)
    requires f < |flushes| && flushes[f].rest != [] && flushes[f].epoch == epoch && call.Some?
    ensures var p := flushes[f].rest[0];
            Inv(trace + [Handed(p.arrival, p.candidate, call.value)], place[p.arrival := HandedOver],
                epoch, call, pending, Shortened(flushes, f))
  {
    var p := flushes[f].rest[0];
    var e := Handed(p.arrival, p.candidate, call.value);
    assert FlushOk(trace, place, call, flushes[f], f);
    assert TaggedEntry(trace, p) && PlaceOf(place, p.arrival) == InFlush(f);
    forall g, a | 0 <= g < |flushes| && a != p.arrival && Holds(flushes[g].rest, a)
      ensures Holds(Shortened(flushes, f)[g].rest, a)
    {
      if g == f {
        HoldsRest(flushes[f].rest, a);
      }
    }
    HandedOkHandOver(trace, place, call.value, p);
    ConservedHandOver(trace, p, call.value, place, pending, flushes, pending, Shortened(flushes, f));
    FlushesHandOver(trace, place, call, flushes, f);
    FlushesGrow(trace, e, place[p.arrival := HandedOver], call, call, Shortened(flushes, f));
    KeptElsewhere(trace, place, p.arrival, HandedOver, pending, Buffered);
    KeptGrows(trace, e, place[p.arrival := HandedOver], pending, Buffered);
    TearDownsSnoc(trace, e);
    CallGrows(trace, e, call);
    hide Conserved;
    hide Kept;
    hide FlushesOk;
    hide HandedOk;
    hide CallOk;
  }

  /** A candidate that arrives while a call exists is handed over at once. */
  lemma DirectStep(
    trace: seq<Event>, place: map<nat, Place>, epoch: nat, call: Option<nat>,
    pending: seq<PendingIce>, flushes: seq<Flush>, candidate: string)
    requires Inv(trace, place, epoch, call, pending, flushes) && call.Some?
    ensures Inv(
      trace + [Arrived(candidate)] + [Handed(|trace|, candidate, call.value)], place[|trace| := HandedOver],
      epoch, call, pending, flushes)
  {
    BufferStep(trace, place, epoch, call, pending, flushes, candidate);
    var t, place1 := trace + [Arrived(candidate)], place[|trace| := Buffered];
    var p := PendingIce(epoch, candidate, |trace|);
    var e := Handed(|trace|, candidate, call.value);
    var pending1 := pending + [p];
    assert place1[|trace| := HandedOver] == place[|trace| := HandedOver];
    assert pending1[|pending|] == p;
    assert TaggedEntry(t, p) && PlaceOf(place1, p.arrival) == Buffered;
    forall a | a != p.arrival && Holds(pending1, a)
      ensures Holds(pending, a)
    {
      var i :| 0 <= i < |pending1| && pending1[i].arrival == a;
      assert pending[i].arrival == a;
    }
    HandedOkHandOver(t, place1, call.value, p);
    ConservedHandOver(t, p, call.value, place1, pending1, flushes, pending, flushes);
    KeptInit(t, place1, pending, p);
    KeptGrows(t, e, place1[p.arrival := HandedOver], pending, Buffered);
    FlushesElsewhere(t, place1, call, flushes, p.arrival, HandedOver);
    FlushesGrow(t, e, place1[p.arrival := HandedOver], call, call, flushes);
    TearDownsSnoc(t, e);
    CallGrows(t, e, call);
    hide Conserved;
    hide Kept;
    hide FlushesOk;
    hide HandedOk;
    hide CallOk;
  }

  lemma KeptInit(trace: seq<Event>, place: map<nat, Place>, entries: seq<PendingIce>, p: PendingIce)
    requires Kept(trace, place, entries + [p], Buffered)
    ensures Kept(trace, place[p.arrival := HandedOver], entries, Buffered)
  {
    var all := entries + [p];
    forall i | 0 <= i < |entries|
      ensures TaggedEntry(trace, entries[i]) && PlaceOf(place[p.arrival := HandedOver], entries[i].arrival) == Buffered
    {
      assert all[i] == entries[i] && all[|entries|] == p;
    }
    assert forall i :: 0 <= i < |entries| ==> entries[i] == all[i];
  }

  // ---- calls, teardowns and the start of a flush -----------------------------------------

  lemma TearDownStep(
    trace: seq<Event>, place: map<nat, Place>, epoch: nat, call: Option<nat>,
    pending: seq<PendingIce>, flushes: seq<Flush>)
    requires Inv(trace, place, epoch, call, pending, flushes)
    ensures Inv(trace + [TornDown], place, epoch + 1, None, pending, flushes)
  {
    TearDownsSnoc(trace, TornDown);
    KeptGrows(trace, TornDown, place, pending, Buffered);
    FlushesGrow(trace, TornDown, place, call, None, flushes);
    HandedOkGrows(trace, TornDown, place);
    ConservedGrows(trace, TornDown, place, pending, flushes);
    hide Conserved;
    hide Kept;
    hide FlushesOk;
    hide HandedOk;
  }

  lemma CreateCallStep(
    trace: seq<Event>, place: map<nat, Place>, epoch: nat, call: Option<nat>,
    pending: seq<PendingIce>, flushes: seq<Flush>)
    requires Inv(trace, place, epoch, call, pending, flushes)
    ensures Inv(trace + [CallCreated], place, epoch, Some(|trace|), pending, flushes)
  {
    TearDownsSnoc(trace, CallCreated);
    KeptGrows(trace, CallCreated, place, pending, Buffered);
    FlushesGrow(trace, CallCreated, place, call, Some(|trace|), flushes);
    HandedOkGrows(trace, CallCreated, place);
    ConservedGrows(trace, CallCreated, place, pending, flushes);
    hide Conserved;
    hide Kept;
    hide FlushesOk;
    hide HandedOk;
  }

  /** The buffered entries of one epoch, in arrival order. */
  function OfEpoch(pending: seq<PendingIce>, epoch: nat): (r: seq<PendingIce>)
    ensures forall i :: 0 <= i < |r| ==> r[i].epoch == epoch && r[i] in pending
  {
    if pending == [] then []
    else if pending[0].epoch == epoch then [pending[0]] + OfEpoch(pending[1..], epoch)
    else OfEpoch(pending[1..], epoch)
  }

  lemma {:induction false} OfEpochHolds(pending: seq<PendingIce>, epoch: nat, i: nat)
    requires i < |pending| && pending[i].epoch == epoch
    ensures Holds(OfEpoch(pending, epoch), pending[i].arrival)
  {
    var r := OfEpoch(pending, epoch);
    if i == 0 {
      assert r[0].arrival == pending[i].arrival;
    } else {
      OfEpochHolds(pending[1..], epoch, i - 1);
      var inner := OfEpoch(pending[1..], epoch);
      var k :| 0 <= k < |inner| && inner[k].arrival == pending[i].arrival;
      assert r[if pending[0].epoch == epoch then k + 1 else k].arrival == pending[i].arrival;
    }
  }

  lemma {:induction false} OfEpochKept(
    trace: seq<Event>, place: map<nat, Place>, pending: seq<PendingIce>, epoch: nat)
    requires Kept(trace, place, pending, Buffered)
    ensures Kept(trace, place, OfEpoch(pending, epoch), Buffered)
  {
    if pending != [] {
      KeptTail(trace, place, pending);
      OfEpochKept(trace, place, pending[1..], epoch);
      OfEpochApart(pending, epoch);
      hide OfEpoch;
      KeptCons(trace, place, pending[0], OfEpoch(pending[1..], epoch));
      hide Kept;
      OfEpochUnfold(pending, epoch);
    }
  }

  lemma OfEpochUnfold(pending: seq<PendingIce>, epoch: nat)
    requires pending != []
    ensures OfEpoch(pending, epoch)
         == (if pending[0].epoch == epoch then [pending[0]] else []) + OfEpoch(pending[1..], epoch)
    ensures pending[0].epoch != epoch ==> OfEpoch(pending, epoch) == OfEpoch(pending[1..], epoch)
  {
  }

  lemma KeptTail(trace: seq<Event>, place: map<nat, Place>, pending: seq<PendingIce>)
    requires Kept(trace, place, pending, Buffered) && pending != []
    ensures Kept(trace, place, pending[1..], Buffered)
    ensures TaggedEntry(trace, pending[0]) && PlaceOf(place, pending[0].arrival) == Buffered
    ensures forall i :: 0 <= i < |pending[1..]| ==> pending[1..][i].arrival != pending[0].arrival
  {
    assert forall i :: 0 <= i < |pending[1..]| ==> pending[1..][i] == pending[i + 1];
    hide TaggedEntry;
    hide PlaceOf;
  }

  lemma OfEpochApart(pending: seq<PendingIce>, epoch: nat)
    requires pending != []
    requires forall i :: 0 <= i < |pending[1..]| ==> pending[1..][i].arrival != pending[0].arrival
    ensures forall i :: 0 <= i < |OfEpoch(pending[1..], epoch)| ==>
              OfEpoch(pending[1..], epoch)[i].arrival != pending[0].arrival
  {
    var rest, inner := pending[1..], OfEpoch(pending[1..], epoch);
    forall i | 0 <= i < |inner|
      ensures inner[i].arrival != pending[0].arrival
    {
      var k :| 0 <= k < |rest| && rest[k] == inner[i];
    }
  }

  lemma KeptCons(trace: seq<Event>, place: map<nat, Place>, first: PendingIce, rest: seq<PendingIce>)
    requires Kept(trace, place, rest, Buffered) && TaggedEntry(trace, first) && PlaceOf(place, first.arrival) == Buffered
    requires forall i :: 0 <= i < |rest| ==> rest[i].arrival != first.arrival
    ensures Kept(trace, place, [first] + rest, Buffered)
  {
    hide TaggedEntry;
    hide PlaceOf;
  }

  /** All of `entries` move to place `now`. */
  ghost function Moved(place: map<nat, Place>, entries: seq<PendingIce>, now: Place): map<nat, Place> {
    map a | a in place :: if Holds(entries, a) then now else place[a]
  }

  lemma MovedPlace(place: map<nat, Place>, entries: seq<PendingIce>, now: Place, a: nat)
    ensures PlaceOf(Moved(place, entries, now), a)
         == if a in place && Holds(entries, a) then now else PlaceOf(place, a)
  {
  }

  lemma HeldIsBuffered(trace: seq<Event>, place: map<nat, Place>, entries: seq<PendingIce>, a: nat)
    requires Kept(trace, place, entries, Buffered) && Holds(entries, a)
    ensures PlaceOf(place, a) == Buffered
  {
  }

  lemma KeptMoved(
    trace: seq<Event>, place: map<nat, Place>, moved: seq<PendingIce>, now: Place, entries: seq<PendingIce>, at: Place)
    requires Kept(trace, place, moved, Buffered) && Kept(trace, place, entries, at) && at != Buffered
    ensures Kept(trace, Moved(place, moved, now), entries, at)
  {
    forall i | 0 <= i < |entries|
      ensures PlaceOf(Moved(place, moved, now), entries[i].arrival) == at
    {
      MovedPlace(place, moved, now, entries[i].arrival);
      assert PlaceOf(place, entries[i].arrival) == at;
      if Holds(moved, entries[i].arrival) {
        HeldIsBuffered(trace, place, moved, entries[i].arrival);
      }
    }
  }

  lemma MovedKept(trace: seq<Event>, place: map<nat, Place>, moved: seq<PendingIce>, now: Place)
    requires Kept(trace, place, moved, Buffered)
    ensures Kept(trace, Moved(place, moved, now), moved, now)
  {
    forall i | 0 <= i < |moved|
      ensures PlaceOf(Moved(place, moved, now), moved[i].arrival) == now
    {
      assert PlaceOf(place, moved[i].arrival) == Buffered && Holds(moved, moved[i].arrival);
    }
  }

  lemma HandedOkMoved(trace: seq<Event>, place: map<nat, Place>, moved: seq<PendingIce>, now: Place)
    requires HandedOk(trace, place) && Kept(trace, place, moved, Buffered)
    ensures HandedOk(trace, Moved(place, moved, now))
  {
    forall j | 0 <= j < |trace| && trace[j].Handed?
      ensures PlaceOf(Moved(place, moved, now), trace[j].arrival) == HandedOver
    {
      MovedPlace(place, moved, now, trace[j].arrival);
      assert PlaceOf(place, trace[j].arrival) == HandedOver;
      if Holds(moved, trace[j].arrival) {
        HeldIsBuffered(trace, place, moved, trace[j].arrival);
      }
    }
  }

  lemma ConservedMoved(
    trace: seq<Event>, place: map<nat, Place>, epoch: nat, pending: seq<PendingIce>, flushes: seq<Flush>)
    requires Conserved(trace, place, pending, flushes) && epoch == TearDowns(trace)
    requires Kept(trace, place, pending, Buffered)
    ensures var moved := OfEpoch(pending, epoch);
            Conserved(trace, Moved(place, moved, InFlush(|flushes|)), [], flushes + [Flush(epoch, moved)])
  {
    var moved := OfEpoch(pending, epoch);
    OfEpochKept(trace, place, pending, epoch);
    var place', flushes' := Moved(place, moved, InFlush(|flushes|)), flushes + [Flush(epoch, moved)];
    forall a | CurrentArrival(trace, a)
      ensures Locates(trace, place', [], flushes', a)
    {
      assert Locates(trace, place, pending, flushes, a);
      MovedPlace(place, moved, InFlush(|flushes|), a);
      if Holds(moved, a) {
        HeldIsBuffered(trace, place, moved, a);
      }
      if PlaceOf(place, a) == Buffered {
        var i :| 0 <= i < |pending| && pending[i].arrival == a;
        assert TaggedEntry(trace, pending[i]);
        OfEpochHolds(pending, epoch, i);
      }
    }
  }

  lemma StartFlushStep(
    trace: seq<Event>, place: map<nat, Place>, epoch: nat, call: Option<nat>,
    pending: seq<PendingIce>, flushes: seq<Flush>)
    requires Inv(trace, place, epoch, call, pending, flushes) && call.Some?
    ensures var moved := OfEpoch(pending, epoch);
            Inv(trace, Moved(place, moved, InFlush(|flushes|)), epoch, call, [], flushes + [Flush(epoch, moved)])
  {
    var moved, now := OfEpoch(pending, epoch), InFlush(|flushes|);
    OfEpochKept(trace, place, pending, epoch);
    var flushes' := flushes + [Flush(epoch, moved)];
    MovedKept(trace, place, moved, now);
    HandedOkMoved(trace, place, moved, now);
    ConservedMoved(trace, place, epoch, pending, flushes);
    forall f | 0 <= f < |flushes'|
      ensures FlushOk(trace, Moved(place, moved, now), call, flushes'[f], f)
    {
      if f < |flushes| {
        assert FlushOk(trace, place, call, flushes[f], f);
        KeptMoved(trace, place, moved, now, flushes[f].rest, InFlush(f));
      }
    }
    hide Conserved;
    hide HandedOk;
    hide CallOk;
  }

  lemma StaleFlush(
    trace: seq<Event>, place: map<nat, Place>, call: Option<nat>, flush: Flush, f: nat, a: nat)
    requires FlushOk(trace, place, call, flush, f) && flush.epoch != TearDowns(trace) && Holds(flush.rest, a)
    ensures !CurrentArrival(trace, a)
  {
    var i :| 0 <= i < |flush.rest| && flush.rest[i].arrival == a;
    assert TaggedEntry(trace, flush.rest[i]);
  }

  /** Giving a flush up loses nothing of the current dialog: that flush belongs to an older one. */
  lemma AbandonStep(
    trace: seq<Event>, place: map<nat, Place>, epoch: nat, call: Option<nat>,
    pending: seq<PendingIce>, flushes: seq<Flush>, f: nat)
    requires Inv(trace, place, epoch, call, pending, flushes)
    requires f < |flushes| && flushes[f].rest != [] && (flushes[f].epoch != epoch || call.None?)
    ensures Inv(trace, place, epoch, call, pending, flushes[f := Flush(flushes[f].epoch, [])])
  {
    var flushes' := flushes[f := Flush(flushes[f].epoch, [])];
    assert FlushOk(trace, place, call, flushes[f], f);
    forall g | 0 <= g < |flushes'|
      ensures FlushOk(trace, place, call, flushes'[g], g)
    {
      assert FlushOk(trace, place, call, flushes[g], g);
    }
    forall a | Holds(flushes[f].rest, a)
      ensures !CurrentArrival(trace, a)
    {
      StaleFlush(trace, place, call, flushes[f], f, a);
    }
    forall a | CurrentArrival(trace, a)
      ensures Locates(trace, place, pending, flushes', a)
    {
      assert Locates(trace, place, pending, flushes, a);
    }
  }

  // ---- the client ----------------------------------------------------------------------------

  class Client {
    /** The current `WebRtcCall`, named by the position of its creation in the trace. */
    var call: Option<nat>
    var pendingIceCandidates: seq<PendingIce>
    var dialogEpoch: nat
    /** The flushes started so far, each suspended at its `await` or finished. */
    var flushes: seq<Flush>
    var trace: seq<Event>
    ghost var place: map<nat, Place>

    ghost predicate Valid()
      reads this
    {
      Inv(trace, place, dialogEpoch, call, pendingIceCandidates, flushes)
    }

    function View(): State
      reads this
    {
      State(call, pendingIceCandidates, dialogEpoch, flushes, trace)
    }

    constructor ()
      ensures Valid() && View() == State(None, [], 0, [], [])
    {
      call, pendingIceCandidates, dialogEpoch, flushes, trace := None, [], 0, [], [];
      place := map[];
    }

    /** `teardownCall`: part of "offer", "bye", "cancel", hang-up, log-out and every failed set-up. */
    method TeardownCall()
      requires Valid()
      modifies this
      ensures Valid() && trace == old(trace) + [TornDown] && call.None?
      ensures dialogEpoch == old(dialogEpoch) + 1
      ensures pendingIceCandidates == old(pendingIceCandidates) && flushes == old(flushes)
    {
      hide Inv;
      TearDownStep(trace, place, dialogEpoch, call, pendingIceCandidates, flushes);
      trace := trace + [TornDown];
      call := None;
      dialogEpoch := dialogEpoch + 1;
    }

    /** The synchronous start of `placeCall` and `acceptIncoming`. */
    method CreateCall()
      requires Valid()
      modifies this
      ensures Valid() && trace == old(trace) + [CallCreated] && call == Some(|old(trace)|)
      ensures dialogEpoch == old(dialogEpoch)
      ensures pendingIceCandidates == old(pendingIceCandidates) && flushes == old(flushes)
    {
      hide Inv;
      CreateCallStep(trace, place, dialogEpoch, call, pendingIceCandidates, flushes);
      call := Some(|trace|);
      trace := trace + [CallCreated];
    }

    /** The "ice" message. */
    method ReceiveIce(candidate: string)
      requires Valid()
      modifies this
      ensures Valid() && call == old(call) && dialogEpoch == old(dialogEpoch) && flushes == old(flushes)
      ensures call.Some? ==>
        && pendingIceCandidates == old(pendingIceCandidates)
        && trace == old(trace) + [Arrived(candidate)] + [Handed(|old(trace)|, candidate, call.value)]
      ensures call.None? ==>
        && pendingIceCandidates == old(pendingIceCandidates) + [PendingIce(dialogEpoch, candidate, |old(trace)|)]
        && trace == old(trace) + [Arrived(candidate)]
    {
      hide Inv;
      if call.Some? {
        DirectStep(trace, place, dialogEpoch, call, pendingIceCandidates, flushes, candidate);
        place := place[|trace| := HandedOver];
        trace := trace + [Arrived(candidate)] + [Handed(|trace|, candidate, call.value)];
      } else {
        BufferStep(trace, place, dialogEpoch, call, pendingIceCandidates, flushes, candidate);
        place := place[|trace| := Buffered];
        pendingIceCandidates := pendingIceCandidates + [PendingIce(dialogEpoch, candidate, |trace|)];
        trace := trace + [Arrived(candidate)];
      }
    }

    /** `flushPendingIce` up to its first `await`. */
    method StartFlush()
      requires Valid()
      modifies this
      ensures Valid() && call == old(call) && dialogEpoch == old(dialogEpoch)
      ensures call.None? ==>
        trace == old(trace) && pendingIceCandidates == old(pendingIceCandidates) && flushes == old(flushes)
      ensures call.Some? ==>
        var moved := OfEpoch(old(pendingIceCandidates), dialogEpoch);
        && pendingIceCandidates == [] && |flushes| == |old(flushes)| + 1
        && flushes[..|old(flushes)|] == old(flushes)
        && flushes[|old(flushes)|] == Flush(dialogEpoch, if moved == [] then [] else moved[1..])
        && trace == if moved == [] then old(trace)
                    else old(trace) + [Handed(moved[0].arrival, moved[0].candidate, call.value)]
    {
      if call.None? {
        return;
      }
      hide Inv;
      StartFlushStep(trace, place, dialogEpoch, call, pendingIceCandidates, flushes);
      var buffered := OfEpoch(pendingIceCandidates, dialogEpoch);
      place := Moved(place, buffered, InFlush(|flushes|));
      pendingIceCandidates := [];
      flushes := flushes + [Flush(dialogEpoch, buffered)];
      ResumeFlush(|flushes| - 1);
    }

    /** One turn of the loop of flush `f`, from one `await` to the next or to its end. */
    method ResumeFlush(f: nat)
      requires Valid() && f < |flushes|
      modifies this
      ensures Valid() && call == old(call) && dialogEpoch == old(dialogEpoch)
      ensures pendingIceCandidates == old(pendingIceCandidates)
      ensures old(flushes)[f].rest == [] ==> trace == old(trace) && flushes == old(flushes)
      ensures old(flushes)[f].rest != [] && (call.None? || dialogEpoch != old(flushes)[f].epoch) ==>
        trace == old(trace) && flushes == old(flushes)[f := Flush(old(flushes)[f].epoch, [])]
      ensures old(flushes)[f].rest != [] && call.Some? && dialogEpoch == old(flushes)[f].epoch ==>
        var p := old(flushes)[f].rest[0];
        && trace == old(trace) + [Handed(p.arrival, p.candidate, call.value)]
        && flushes == Shortened(old(flushes), f)
    {
      hide Inv;
      var flush := flushes[f];
      if flush.rest == [] {
        return;
      }
      if call.None? || dialogEpoch != flush.epoch {
        AbandonStep(trace, place, dialogEpoch, call, pendingIceCandidates, flushes, f);
        flushes := flushes[f := Flush(flush.epoch, [])];
        return;
      }
      var p := flush.rest[0];
      FlushHandStep(trace, place, dialogEpoch, call, pendingIceCandidates, flushes, f);
      place := place[p.arrival := HandedOver];
      trace := trace + [Handed(p.arrival, p.candidate, call.value)];
      flushes := flushes[f := Flush(flush.epoch, flush.rest[1..])];
    }
  }

  /** What may happen next in the browser, in any order. */
  datatype Step = Ice(candidate: string) | Teardown | NewCall | BeginFlush | Resume(f: nat)

  /** The variables of the client, with the trace. */
  datatype State = State(call: Option<nat>, pending: seq<PendingIce>, epoch: nat, flushes: seq<Flush>, trace: seq<Event>)

  function Loop(s: State, f: nat): State {
    if f >= |s.flushes| || s.flushes[f].rest == [] then s
    else
      var flush := s.flushes[f];
      if s.call.None? || s.epoch != flush.epoch then s.(flushes := s.flushes[f := Flush(flush.epoch, [])])
      else
        var p := flush.rest[0];
        s.(flushes := s.flushes[f := Flush(flush.epoch, flush.rest[1..])],
           trace := s.trace + [Handed(p.arrival, p.candidate, s.call.value)])
  }

  function After(s: State, step: Step): State {
    match step
    case Ice(candidate) =>
      var t := s.trace + [Arrived(candidate)];
      if s.call.Some? then s.(trace := t + [Handed(|s.trace|, candidate, s.call.value)])
      else s.(trace := t, pending := s.pending + [PendingIce(s.epoch, candidate, |s.trace|)])
    case Teardown => s.(call := None, epoch := s.epoch + 1, trace := s.trace + [TornDown])
    case NewCall => s.(call := Some(|s.trace|), trace := s.trace + [CallCreated])
    case BeginFlush =>
      if s.call.None? then s
      else Loop(s.(pending := [], flushes := s.flushes + [Flush(s.epoch, OfEpoch(s.pending, s.epoch))]), |s.flushes|)
    case Resume(f) => Loop(s, f)
  }

  ghost function AfterAll(schedule: seq<Step>): State {
    if schedule == [] then State(None, [], 0, [], [])
    else After(AfterAll(schedule[..|schedule| - 1]), schedule[|schedule| - 1])
  }

  method Perform(client: Client, step: Step)
    requires client.Valid()
    modifies client
    ensures client.Valid() && client.View() == After(old(client.View()), step)
  {
    hide Inv;
    hide OfEpoch;
    match step {
      case Ice(candidate) => client.ReceiveIce(candidate);
      case Teardown => client.TeardownCall();
      case NewCall => client.CreateCall();
      case BeginFlush => client.StartFlush();
      case Resume(f) =>
        if f < |client.flushes| {
          client.ResumeFlush(f);
        }
    }
  }

  /** Every interleaving is sound, and within the dialog going on at its end no candidate is lost:
      each is buffered, waiting in a suspended flush, or handed over. */
  method RunClient(schedule: seq<Step>) returns (s: State)
    ensures s == AfterAll(schedule)
    ensures Sound(s.trace)
    ensures forall a :: CurrentArrival(s.trace, a) ==> Accounted(s.trace, s.pending, s.flushes, a)
  {
    var client := new Client();
    for k := 0 to |schedule|
      invariant client.Valid() && fresh(client) && client.View() == AfterAll(schedule[..k])
    {
      hide Inv;
      hide After;
      assert schedule[..k + 1][..k] == schedule[..k];
      Perform(client, schedule[k]);
    }
    assert schedule[..|schedule|] == schedule;
    s := client.View();
    forall a | CurrentArrival(s.trace, a)
      ensures Accounted(s.trace, s.pending, s.flushes, a)
    {
      assert Locates(s.trace, client.place, s.pending, s.flushes, a);
    }
  }

  /** Nothing that arrived before a teardown is handed over after it. */
  lemma NotAcrossTeardown(trace: seq<Event>, arrival: nat, teardown: nat, j: nat)
    requires Sound(trace) && arrival < teardown < j < |trace|
    requires trace[teardown].TornDown?
    ensures !(trace[j].Handed? && trace[j].arrival == arrival)
  {
    if trace[j].Handed? {
      assert FromSameDialog(trace, j);
    }
  }

  ghost predicate HandedAt(trace: seq<Event>, arrival: nat, j: int) {
    0 <= j < |trace| && trace[j].Handed? && trace[j].arrival == arrival
  }

  /** Once the flushes of the current dialog have run to their end and nothing is buffered, every
      candidate of the dialog has been handed over, exactly once. */
  lemma AllDelivered(trace: seq<Event>, flushes: seq<Flush>, a: nat)
    requires Sound(trace) && Accounted(trace, [], flushes, a)
    requires forall f :: 0 <= f < |flushes| ==> flushes[f].rest == []
    ensures exists j :: HandedAt(trace, a, j) && forall k :: HandedAt(trace, a, k) ==> k == j
  {
    var j :| 0 <= j < |trace| && trace[j].Handed? && trace[j].arrival == a;
    assert HandedAt(trace, a, j);
    assert forall k :: HandedAt(trace, a, k) ==> k == j;
  }

  // ---- exactly which candidates get through -------------------------------------------------

  ghost predicate InvOf(s: State, place: map<nat, Place>) {
    Inv(s.trace, place, s.epoch, s.call, s.pending, s.flushes)
  }

  lemma LoopKeeps(s: State, place: map<nat, Place>, f: nat) returns (place': map<nat, Place>)
    requires InvOf(s, place)
    ensures InvOf(Loop(s, f), place')
  {
    place' := place;
    if f < |s.flushes| && s.flushes[f].rest != [] {
      hide Inv;
      if s.call.None? || s.epoch != s.flushes[f].epoch {
        AbandonStep(s.trace, place, s.epoch, s.call, s.pending, s.flushes, f);
      } else {
        FlushHandStep(s.trace, place, s.epoch, s.call, s.pending, s.flushes, f);
        place' := place[s.flushes[f].rest[0].arrival := HandedOver];
      }
    }
  }

  lemma AfterKeeps(s: State, place: map<nat, Place>, step: Step) returns (place': map<nat, Place>)
    requires InvOf(s, place)
    ensures InvOf(After(s, step), place')
  {
    hide Inv;
    hide OfEpoch;
    hide Loop;
    place' := place;
    match step {
      case Ice(candidate) =>
        if s.call.Some? {
          DirectStep(s.trace, place, s.epoch, s.call, s.pending, s.flushes, candidate);
          place' := place[|s.trace| := HandedOver];
        } else {
          BufferStep(s.trace, place, s.epoch, s.call, s.pending, s.flushes, candidate);
          place' := place[|s.trace| := Buffered];
        }
      case Teardown => TearDownStep(s.trace, place, s.epoch, s.call, s.pending, s.flushes);
      case NewCall => CreateCallStep(s.trace, place, s.epoch, s.call, s.pending, s.flushes);
      case BeginFlush =>
        if s.call.Some? {
          var moved := OfEpoch(s.pending, s.epoch);
          StartFlushStep(s.trace, place, s.epoch, s.call, s.pending, s.flushes);
          place' := LoopKeeps(
            s.(pending := [], flushes := s.flushes + [Flush(s.epoch, moved)]),
            Moved(place, moved, InFlush(|s.flushes|)), |s.flushes|);
        }
      case Resume(f) => place' := LoopKeeps(s, place, f);
    }
  }

  lemma {:induction false} InvAfterAll(schedule: seq<Step>) returns (place: map<nat, Place>)
    ensures InvOf(AfterAll(schedule), place)
  {
    if schedule == [] {
      place := map[];
    } else {
      hide Inv;
      hide InvOf;
      place := InvAfterAll(schedule[..|schedule| - 1]);
      place := AfterKeeps(AfterAll(schedule[..|schedule| - 1]), place, schedule[|schedule| - 1]);
    }
  }

  /** The state before step `n`. */
  ghost function StateAt(schedule: seq<Step>, n: nat): State
    requires n <= |schedule|
  {
    AfterAll(schedule[..n])
  }

  lemma StateNext(schedule: seq<Step>, n: nat)
    requires n < |schedule|
    ensures StateAt(schedule, n + 1) == After(StateAt(schedule, n), schedule[n])
  {
    assert schedule[..n + 1][..n] == schedule[..n];
  }

  /** The steps after `i` and before `t` tear no dialog down. */
  ghost predicate Quiet(schedule: seq<Step>, i: nat, t: nat) {
    i < t <= |schedule| && forall k :: i < k < t ==> schedule[k] != Teardown
  }

  lemma OneStep(s: State, step: Step)
    ensures s.trace <= After(s, step).trace
    ensures step != Teardown ==> After(s, step).epoch == s.epoch && (s.call.Some? ==> After(s, step).call.Some?)
    ensures |s.flushes| <= |After(s, step).flushes|
  {
    hide OfEpoch;
  }

  ghost predicate Extends<T>(a: seq<T>, b: seq<T>) {
    a <= b
  }

  lemma ExtendsTwice<T>(a: seq<T>, b: seq<T>, c: seq<T>)
    requires Extends(a, b) && Extends(b, c)
    ensures Extends(a, c)
  {
  }

  lemma TraceGrowsOnce(schedule: seq<Step>, n: nat)
    requires n < |schedule|
    ensures Extends(StateAt(schedule, n).trace, StateAt(schedule, n + 1).trace)
  {
    StateNext(schedule, n);
    OneStep(StateAt(schedule, n), schedule[n]);
    hide StateAt;
    hide After;
  }

  lemma {:induction false} TraceExtends(schedule: seq<Step>, i: nat, n: nat)
    requires i <= n <= |schedule|
    ensures Extends(StateAt(schedule, i).trace, StateAt(schedule, n).trace)
  {
    if i < n {
      hide *;
      TraceExtends(schedule, i, n - 1);
      TraceGrowsOnce(schedule, n - 1);
      ExtendsTwice(StateAt(schedule, i).trace, StateAt(schedule, n - 1).trace, StateAt(schedule, n).trace);
    }
  }

  lemma TraceGrows(schedule: seq<Step>, i: nat, n: nat)
    requires i <= n <= |schedule|
    ensures StateAt(schedule, i).trace <= StateAt(schedule, n).trace
  {
    TraceExtends(schedule, i, n);
    hide StateAt;
  }

  lemma {:induction false} QuietKeeps(schedule: seq<Step>, i: nat, n: nat)
    requires Quiet(schedule, i, n) && schedule[i] != Teardown
    ensures StateAt(schedule, n).epoch == StateAt(schedule, i).epoch
    ensures StateAt(schedule, i).call.Some? ==> StateAt(schedule, n).call.Some?
  {
    StateNext(schedule, n - 1);
    OneStep(StateAt(schedule, n - 1), schedule[n - 1]);
    hide StateAt;
    hide After;
    if i < n - 1 {
      QuietKeeps(schedule, i, n - 1);
    }
  }

  lemma HandedStays(trace: seq<Event>, trace': seq<Event>, a: nat)
    requires HandedIn(trace, a) && trace <= trace'
    ensures HandedIn(trace', a)
  {
    var j :| 0 <= j < |trace| && trace[j].Handed? && trace[j].arrival == a;
    assert trace'[j] == trace[j];
  }

  /** A candidate that is buffered or waits in a flush has not been handed over. */
  lemma WaitingIsNotHanded(schedule: seq<Step>, a: nat)
    requires Holds(AfterAll(schedule).pending, a) ||
             exists f :: 0 <= f < |AfterAll(schedule).flushes| && Holds(AfterAll(schedule).flushes[f].rest, a)
    ensures !HandedIn(AfterAll(schedule).trace, a)
  {
    var s := AfterAll(schedule);
    var place := InvAfterAll(schedule);
    if Holds(s.pending, a) {
      assert PlaceOf(place, a) == Buffered;
    } else {
      var f :| 0 <= f < |s.flushes| && Holds(s.flushes[f].rest, a);
      assert FlushOk(s.trace, place, s.call, s.flushes[f], f);
      assert PlaceOf(place, a) == InFlush(f);
    }
    hide Inv;
  }

  /** Arrival `a` waits in flush `f` of the running epoch, behind `ahead` others. */
  ghost predicate Queued(s: State, f: nat, a: nat, ahead: nat) {
    && f < |s.flushes| && s.flushes[f].epoch == s.epoch
    && ahead < |s.flushes[f].rest| && s.flushes[f].rest[ahead].arrival == a
  }

  /** Only a turn of its own flush moves a waiting candidate, by one place. */
  lemma QueuedStep(s: State, step: Step, f: nat, a: nat, ahead: nat)
    requires Queued(s, f, a, ahead) && s.call.Some? && step != Teardown
    ensures step != Resume(f) ==> Queued(After(s, step), f, a, ahead)
    ensures step == Resume(f) && ahead > 0 ==> Queued(After(s, step), f, a, ahead - 1)
    ensures step == Resume(f) && ahead == 0 ==> HandedIn(After(s, step).trace, a)
  {
    hide OfEpoch;
    if step == Resume(f) {
      var s' := After(s, step);
      assert s'.trace[|s.trace|].arrival == s.flushes[f].rest[0].arrival;
    }
  }

  /** How often the schedule resumes flush `f` from step `from` up to step `to`. */
  ghost function Resumes(schedule: seq<Step>, f: nat, from: nat, to: nat): nat
    requires to <= |schedule|
  {
    if to <= from then 0 else Resumes(schedule, f, from, to - 1) + if schedule[to - 1] == Resume(f) then 1 else 0
  }

  /** Step `b` starts a flush that takes arrival `a` with it, behind `ahead` others. */
  ghost predicate TakenAt(schedule: seq<Step>, b: nat, a: nat, ahead: nat) {
    && b < |schedule| && schedule[b] == BeginFlush && StateAt(schedule, b).call.Some?
    && var taken := OfEpoch(StateAt(schedule, b).pending, StateAt(schedule, b).epoch);
       ahead < |taken| && taken[ahead].arrival == a
  }

  lemma FlushBegins(s: State, a: nat, ahead: nat)
    requires s.call.Some? && ahead < |OfEpoch(s.pending, s.epoch)| && OfEpoch(s.pending, s.epoch)[ahead].arrival == a
    ensures ahead > 0 ==> Queued(After(s, BeginFlush), |s.flushes|, a, ahead - 1)
    ensures ahead == 0 ==> HandedIn(After(s, BeginFlush).trace, a)
  {
    var taken, s' := OfEpoch(s.pending, s.epoch), After(s, BeginFlush);
    hide OfEpoch;
    assert s'.trace[|s.trace|].arrival == taken[0].arrival;
  }

  /** After `turns` turns of its flush, a candidate taken behind `ahead` others has been handed over or waits. */
  ghost predicate Reached(s: State, f: nat, a: nat, ahead: nat, turns: nat) {
    if turns >= ahead then HandedIn(s.trace, a) else Queued(s, f, a, ahead - 1 - turns)
  }

  lemma ReachedStep(s: State, step: Step, f: nat, a: nat, ahead: nat, turns: nat)
    requires Reached(s, f, a, ahead, turns) && s.call.Some? && step != Teardown
    ensures Reached(After(s, step), f, a, ahead, turns + if step == Resume(f) then 1 else 0)
  {
    hide After;
    hide Queued;
    hide HandedIn;
    if turns >= ahead {
      OneStep(s, step);
      HandedStays(s.trace, After(s, step).trace, a);
    } else {
      QueuedStep(s, step, f, a, ahead - 1 - turns);
    }
  }

  /** A candidate taken by a flush behind `ahead` others is handed over once the flush was resumed that
      often in the same dialog, and waits until then. */
  lemma {:induction false} Followed(schedule: seq<Step>, b: nat, a: nat, ahead: nat, n: nat)
    requires TakenAt(schedule, b, a, ahead) && Quiet(schedule, b, n)
    ensures var f := |StateAt(schedule, b).flushes|;
            Reached(StateAt(schedule, n), f, a, ahead, Resumes(schedule, f, b + 1, n))
  {
    hide StateAt;
    hide Reached;
    hide Resumes;
    hide TakenAt;
    if n == b + 1 {
      TakenFirst(schedule, b, a, ahead);
    } else {
      Followed(schedule, b, a, ahead, n - 1);
      FollowedOn(schedule, b, a, ahead, n - 1);
    }
  }

  lemma TakenFirst(schedule: seq<Step>, b: nat, a: nat, ahead: nat)
    requires TakenAt(schedule, b, a, ahead)
    ensures var f := |StateAt(schedule, b).flushes|;
            Reached(StateAt(schedule, b + 1), f, a, ahead, Resumes(schedule, f, b + 1, b + 1))
  {
    hide After;
    hide StateAt;
    hide OfEpoch;
    hide Queued;
    hide HandedIn;
    StateNext(schedule, b);
    FlushBegins(StateAt(schedule, b), a, ahead);
  }

  lemma FollowedOn(schedule: seq<Step>, b: nat, a: nat, ahead: nat, n: nat)
    requires TakenAt(schedule, b, a, ahead) && Quiet(schedule, b, n + 1) && b < n
    requires var f := |StateAt(schedule, b).flushes|;
             Reached(StateAt(schedule, n), f, a, ahead, Resumes(schedule, f, b + 1, n))
    ensures var f := |StateAt(schedule, b).flushes|;
            Reached(StateAt(schedule, n + 1), f, a, ahead, Resumes(schedule, f, b + 1, n + 1))
  {
    hide StateAt;
    hide After;
    hide Reached;
    hide OfEpoch;
    var f := |StateAt(schedule, b).flushes|;
    StateNext(schedule, n);
    QuietKeeps(schedule, b, n);
    ReachedStep(StateAt(schedule, n), schedule[n], f, a, ahead, Resumes(schedule, f, b + 1, n));
  }

  /** A buffered candidate of the running dialog stays buffered unless a flush takes it. */
  lemma BufferedStep(s: State, place: map<nat, Place>, step: Step, a: nat)
    requires InvOf(s, place) && Holds(s.pending, a) && CurrentArrival(s.trace, a) && step != Teardown
    ensures Holds(After(s, step).pending, a) || (step == BeginFlush && s.call.Some? && Holds(OfEpoch(s.pending, s.epoch), a))
  {
    var i :| 0 <= i < |s.pending| && s.pending[i].arrival == a;
    assert TaggedEntry(s.trace, s.pending[i]);
    OfEpochHolds(s.pending, s.epoch, i);
    if step.Ice? && s.call.None? {
      assert After(s, step).pending[i].arrival == a;
    }
    hide Inv;
  }

  lemma TakenOrBuffered(schedule: seq<Step>, n: nat, a: nat)
    requires n < |schedule| && schedule[n] != Teardown
    requires Holds(StateAt(schedule, n).pending, a) && CurrentArrival(StateAt(schedule, n).trace, a)
    ensures Holds(StateAt(schedule, n + 1).pending, a) || exists ahead :: TakenAt(schedule, n, a, ahead)
  {
    var s := StateAt(schedule, n);
    var place := InvAfterAll(schedule[..n]);
    StateNext(schedule, n);
    BufferedStep(s, place, schedule[n], a);
    hide InvOf;
    if !Holds(After(s, schedule[n]).pending, a) {
      var taken := OfEpoch(s.pending, s.epoch);
      var ahead :| 0 <= ahead < |taken| && taken[ahead].arrival == a;
      assert TakenAt(schedule, n, a, ahead);
    }
  }

  /** The arrival that step `i` causes. */
  ghost function ArrivalOf(schedule: seq<Step>, i: nat): nat
    requires i < |schedule|
  {
    |StateAt(schedule, i).trace|
  }

  lemma CurrentWhileQuiet(schedule: seq<Step>, i: nat, n: nat)
    requires Quiet(schedule, i, n) && schedule[i].Ice?
    ensures CurrentArrival(StateAt(schedule, n).trace, ArrivalOf(schedule, i))
  {
    var s := StateAt(schedule, i);
    StateNext(schedule, i);
    TraceGrows(schedule, i + 1, n);
    TraceGrows(schedule, i, n);
    QuietKeeps(schedule, i, n);
    EpochOfTrace(schedule[..i]);
    EpochOfTrace(schedule[..n]);
    assert After(s, schedule[i]).trace[|s.trace|].Arrived?;
    assert StateAt(schedule, n).trace[..|s.trace|] == s.trace;
    hide After;
  }

  lemma EpochOfTrace(schedule: seq<Step>)
    ensures AfterAll(schedule).epoch == TearDowns(AfterAll(schedule).trace)
  {
    var place := InvAfterAll(schedule);
  }

  /** Without a call at its arrival and without a flush to take it, a candidate stays in the buffer. */
  lemma {:induction false} StaysBuffered(schedule: seq<Step>, i: nat, n: nat)
    requires Quiet(schedule, i, n) && schedule[i].Ice? && StateAt(schedule, i).call.None?
    requires forall b, ahead :: i < b < n ==> !TakenAt(schedule, b, ArrivalOf(schedule, i), ahead)
    ensures Holds(StateAt(schedule, n).pending, ArrivalOf(schedule, i))
  {
    var a, s := ArrivalOf(schedule, i), StateAt(schedule, i);
    if n == i + 1 {
      StateNext(schedule, i);
      assert After(s, schedule[i]).pending[|s.pending|].arrival == a;
    } else {
      hide *;
      StaysBuffered(schedule, i, n - 1);
      CurrentWhileQuiet(schedule, i, n - 1);
      TakenOrBuffered(schedule, n - 1, a);
    }
  }

  /** The candidate of step `i` gets through before step `t`: a call existed when it arrived, or a flush
      took it and was resumed often enough to reach it. */
  ghost predicate Served(schedule: seq<Step>, i: nat, t: nat)
    requires i < t <= |schedule|
  {
    || StateAt(schedule, i).call.Some?
    || exists b, ahead :: i < b < t && TakenAt(schedule, b, ArrivalOf(schedule, i), ahead)
         && Resumes(schedule, |StateAt(schedule, b).flushes|, b + 1, t) >= ahead
  }

  lemma TakenIsFollowed(schedule: seq<Step>, i: nat, t: nat, b: nat, ahead: nat)
    requires Quiet(schedule, i, t) && i < b < t && TakenAt(schedule, b, ArrivalOf(schedule, i), ahead)
    ensures HandedIn(StateAt(schedule, t).trace, ArrivalOf(schedule, i)) <==>
            Resumes(schedule, |StateAt(schedule, b).flushes|, b + 1, t) >= ahead
  {
    var a, f := ArrivalOf(schedule, i), |StateAt(schedule, b).flushes|;
    Followed(schedule, b, a, ahead, t);
    var s, turns := StateAt(schedule, t), Resumes(schedule, f, b + 1, t);
    if turns < ahead {
      assert s.flushes[f].rest[ahead - 1 - turns].arrival == a;
      assert Holds(s.flushes[f].rest, a);
      WaitingIsNotHanded(schedule[..t], a);
    }
  }

  lemma ServedWhileQuiet(schedule: seq<Step>, i: nat, t: nat)
    requires Quiet(schedule, i, t) && schedule[i].Ice?
    ensures HandedIn(StateAt(schedule, t).trace, ArrivalOf(schedule, i)) <==> Served(schedule, i, t)
  {
    var a, s := ArrivalOf(schedule, i), StateAt(schedule, i);
    hide StateAt;
    hide TakenAt;
    if s.call.Some? {
      StateNext(schedule, i);
      TraceGrows(schedule, i + 1, t);
      assert After(s, schedule[i]).trace[a + 1].Handed? && After(s, schedule[i]).trace[a + 1].arrival == a;
      HandedStays(StateAt(schedule, i + 1).trace, StateAt(schedule, t).trace, a);
    } else if exists b, ahead :: i < b < t && TakenAt(schedule, b, a, ahead) {
      forall b, ahead | i < b < t && TakenAt(schedule, b, a, ahead)
        ensures HandedIn(StateAt(schedule, t).trace, a) <==>
                Resumes(schedule, |StateAt(schedule, b).flushes|, b + 1, t) >= ahead
      {
        TakenIsFollowed(schedule, i, t, b, ahead);
      }
    } else {
      StaysBuffered(schedule, i, t);
      BufferedNotHanded(schedule, t, a);
    }
  }

  lemma BufferedNotHanded(schedule: seq<Step>, t: nat, a: nat)
    requires t <= |schedule| && Holds(StateAt(schedule, t).pending, a)
    ensures !HandedIn(StateAt(schedule, t).trace, a)
  {
    WaitingIsNotHanded(schedule[..t], a);
  }

  lemma HandedBefore(all: seq<Event>, before: seq<Event>, a: nat)
    requires Sound(all) && before + [TornDown] <= all && a < |before|
    ensures HandedIn(all, a) <==> HandedIn(before, a)
  {
    assert all[|before|] == (before + [TornDown])[|before|];
    forall j | |before| < j < |all|
      ensures !(all[j].Handed? && all[j].arrival == a)
    {
      NotAcrossTeardown(all, a, |before|, j);
    }
    assert forall j :: 0 <= j < |before| ==> before[j] == all[j];
    hide Sound;
  }

  lemma SoundAlways(schedule: seq<Step>)
    ensures Sound(AfterAll(schedule).trace)
  {
    var place := InvAfterAll(schedule);
  }

  /** A teardown settles what has been handed over of everything before it. */
  lemma SettledByTeardown(schedule: seq<Step>, i: nat, t: nat)
    requires i < t < |schedule| && schedule[i].Ice? && schedule[t] == Teardown
    ensures HandedIn(AfterAll(schedule).trace, ArrivalOf(schedule, i)) <==>
            HandedIn(StateAt(schedule, t).trace, ArrivalOf(schedule, i))
  {
    var before := StateAt(schedule, t).trace;
    assert schedule[..|schedule|] == schedule;
    StateNext(schedule, i);
    StateNext(schedule, t);
    OneIsMore(StateAt(schedule, i), schedule[i]);
    assert StateAt(schedule, t + 1).trace == before + [TornDown];
    TraceGrows(schedule, i + 1, t);
    TraceGrows(schedule, t + 1, |schedule|);
    assert AfterAll(schedule) == StateAt(schedule, |schedule|);
    assert ArrivalOf(schedule, i) < |before|;
    hide *;
    SoundAlways(schedule);
    HandedBefore(AfterAll(schedule).trace, before, ArrivalOf(schedule, i));
  }

  lemma OneIsMore(s: State, step: Step)
    requires step.Ice?
    ensures |After(s, step).trace| > |s.trace|
  {
  }

  /** Over every schedule: the candidate that arrives at step `i` is handed over, then or ever, exactly
      when a call exists at its arrival or, before the next teardown at step `t` (or the end), a flush
      takes it and is resumed often enough to reach it. */
  lemma DeliveredIff(schedule: seq<Step>, i: nat, t: nat)
    requires Quiet(schedule, i, t) && schedule[i].Ice? && (t < |schedule| ==> schedule[t] == Teardown)
    ensures HandedIn(AfterAll(schedule).trace, ArrivalOf(schedule, i)) <==> Served(schedule, i, t)
  {
    ServedWhileQuiet(schedule, i, t);
    if t < |schedule| {
      SettledByTeardown(schedule, i, t);
    } else {
      assert schedule[..t] == schedule;
    }
    hide Served;
    hide HandedIn;
  }

  /** The code comments count the race of a candidate overtaking its own "offer" as solved. The handler
      of the offer tears down first, so such a candidate is handed over exactly when a call exists at
      its arrival, and that is the call being torn down. Otherwise no later step brings it back. */
  lemma OvertakingCandidate(schedule: seq<Step>, i: nat)
    requires i + 1 < |schedule| && schedule[i].Ice? && schedule[i + 1] == Teardown
    ensures HandedIn(AfterAll(schedule).trace, ArrivalOf(schedule, i)) <==> StateAt(schedule, i).call.Some?
    ensures StateAt(schedule, i).call.Some? ==>
      var a, call := ArrivalOf(schedule, i), StateAt(schedule, i).call.value;
      a + 1 < |AfterAll(schedule).trace| && AfterAll(schedule).trace[a + 1] == Handed(a, schedule[i].candidate, call)
  {
    DeliveredIff(schedule, i, i + 1);
    if StateAt(schedule, i).call.Some? {
      HandedAtOnce(schedule, i);
    }
    hide AfterAll;
    hide HandedIn;
  }

  /** A candidate that finds a call is handed to that call in the same step. */
  lemma HandedAtOnce(schedule: seq<Step>, i: nat)
    requires i < |schedule| && schedule[i].Ice? && StateAt(schedule, i).call.Some?
    ensures var a, call := ArrivalOf(schedule, i), StateAt(schedule, i).call.value;
            a + 1 < |AfterAll(schedule).trace| && AfterAll(schedule).trace[a + 1] == Handed(a, schedule[i].candidate, call)
  {
    var s := StateAt(schedule, i);
    StateNext(schedule, i);
    TraceGrows(schedule, i + 1, |schedule|);
    assert schedule[..|schedule|] == schedule;
    assert After(s, schedule[i]).trace[|s.trace| + 1] == Handed(|s.trace|, schedule[i].candidate, s.call.value);
    assert StateAt(schedule, |schedule|) == AfterAll(schedule);
    hide After;
    hide StateAt;
    hide AfterAll;
  }

  /** The shortest case: the candidate, its offer, the answer and the flush. Nothing is handed over, nothing waits. */
  lemma OvertakingCandidateIsLost(candidate: string)
    ensures AfterAll([Ice(candidate), Teardown, NewCall, BeginFlush])
         == State(Some(2), [], 1, [Flush(1, [])], [Arrived(candidate), TornDown, CallCreated])
  {
    var all := [Ice(candidate), Teardown, NewCall, BeginFlush];
    assert all[..3] == [Ice(candidate), Teardown, NewCall];
    assert all[..3][..2] == [Ice(candidate), Teardown];
    assert all[..3][..2][..1] == [Ice(candidate)];
    assert all[..3][..2][..1][..0] == [];
    assert AfterAll(all[..3][..2][..1]) == State(None, [PendingIce(0, candidate, 0)], 0, [], [Arrived(candidate)]);
    assert AfterAll(all[..3])
        == State(Some(2), [PendingIce(0, candidate, 0)], 1, [], [Arrived(candidate), TornDown, CallCreated]);
    assert OfEpoch([PendingIce(0, candidate, 0)], 1) == [];
  }
}
