/** The in-memory call history: a ring buffer keyed by Call-ID. Times are integer nanoseconds of the
    system clock, which may run backwards. */
module CallLog {
  import opened Prelude

  datatype Direction = Outbound | Inbound

  datatype Outcome = Answered | Missed | FailedWith(status: u16) | Cancelled

  datatype Entry = Entry(
    direction: Direction,
    remoteNumber: string,
    startTime: int,
    duration: Option<nat>,
    outcome: Option<Outcome>,
    callId: string)

  datatype Event =
    | Start(direction: Direction, remoteNumber: string, callId: string, now: int)
    | End(callId: string, outcome: Outcome, now: int)

  // ---- the log as a function of the whole history -------------------------------------

  ghost function LastN<T>(s: seq<T>, n: nat): seq<T> {
    if |s| <= n then s else s[|s| - n..]
  }

  /** Positions of the accepted starts: a start is refused only while its Call-ID is among the last
      `max` accepted ones. */
  ghost function Accepted(h: seq<Event>, max: nat): seq<nat> {
    if h == [] then []
    else
      var before := Accepted(h[..|h| - 1], max);
      if h[|h| - 1].Start? && !IdAmong(h, LastN(before, max), h[|h| - 1].callId) then before + [|h| - 1] else before
  }

  ghost predicate IdAmong(h: seq<Event>, starts: seq<nat>, id: string) {
    exists i :: 0 <= i < |starts| && starts[i] < |h| && h[starts[i]].callId == id
  }

  /** The outcomes recorded for `id` after position `k`, with their times, in order. */
  ghost function EndsAfter(h: seq<Event>, k: nat, id: string): seq<(Outcome, int)> {
    if |h| <= k + 1 then []
    else
      var e := h[|h| - 1];
      var before := EndsAfter(h[..|h| - 1], k, id);
      if e.End? && e.callId == id then before + [(e.outcome, e.now)] else before
  }

  /** The entry of the start at position `k`: the latest recorded end gives the outcome, the first one
      the duration, which stays unknown when the clock had run backwards. */
  ghost function EntryFor(h: seq<Event>, k: nat): Entry
    requires k < |h| && h[k].Start?
  {
    var s := h[k];
    var ends := EndsAfter(h, k, s.callId);
    Entry(
      s.direction, s.remoteNumber, s.now,
      if ends == [] then None else Elapsed(s.now, ends[0].1),
      if ends == [] then None else Some(ends[|ends| - 1].0),
      s.callId)
  }

  function Elapsed(start: int, now: int): Option<nat> {
    if now >= start then Some(now - start) else None
  }

  ghost predicate Starts(h: seq<Event>, ks: seq<nat>) {
    forall i :: 0 <= i < |ks| ==> ks[i] < |h| && h[ks[i]].Start?
  }

  ghost function EntriesFor(h: seq<Event>, ks: seq<nat>): (es: seq<Entry>)
    requires Starts(h, ks)
    ensures |es| == |ks|
  {
    seq(|ks|, i requires 0 <= i < |ks| => EntryFor(h, ks[i]))
  }

  lemma {:induction false} AcceptedAreStarts(h: seq<Event>, max: nat)
    ensures Starts(h, Accepted(h, max))
  {
    if h != [] {
      var before := h[..|h| - 1];
      AcceptedAreStarts(before, max);
      assert forall k :: 0 <= k < |before| ==> before[k] == h[k];
    }
  }

  /** Positions of the starts whose calls are in the log. */
  ghost function Logged(h: seq<Event>, max: nat): (ks: seq<nat>)
    ensures Starts(h, ks)
  {
    AcceptedAreStarts(h, max);
    LastN(Accepted(h, max), max)
  }

  /** What the log must hold after `h`: the last `max` accepted starts, in order. */
  ghost function Buffer(h: seq<Event>, max: nat): (es: seq<Entry>)
    ensures |es| <= max
  {
    EntriesFor(h, Logged(h, max))
  }

  // ---- how one more event changes it -----------------------------------------------------

  lemma EndsSnoc(h: seq<Event>, e: Event, k: nat, id: string)
    requires k < |h|
    ensures EndsAfter(h + [e], k, id)
         == if e.End? && e.callId == id then EndsAfter(h, k, id) + [(e.outcome, e.now)] else EndsAfter(h, k, id)
  {
    assert (h + [e])[..|h|] == h;
  }

  /** What an end event does to one entry. */
  function Ended(entry: Entry, outcome: Outcome, now: int): Entry {
    entry.(
      duration := if entry.outcome.None? then Elapsed(entry.startTime, now) else entry.duration,
      outcome := Some(outcome))
  }

  lemma EntrySnoc(h: seq<Event>, e: Event, k: nat)
    requires k < |h| && h[k].Start?
    ensures EntryFor(h + [e], k)
         == if e.End? && e.callId == h[k].callId then Ended(EntryFor(h, k), e.outcome, e.now) else EntryFor(h, k)
  {
    EndsSnoc(h, e, k, h[k].callId);
    assert (h + [e])[k] == h[k];
  }

  lemma NewEntry(h: seq<Event>, e: Event)
    requires e.Start?
    ensures EntryFor(h + [e], |h|) == Entry(e.direction, e.remoteNumber, e.now, None, None, e.callId)
  {
  }

  lemma AcceptedSnoc(h: seq<Event>, e: Event, max: nat)
    ensures Accepted(h + [e], max)
         == if e.Start? && !IdAmong(h + [e], LastN(Accepted(h, max), max), e.callId)
            then Accepted(h, max) + [|h|] else Accepted(h, max)
  {
    assert (h + [e])[..|h|] == h;
  }

  class CallLog {
    var entries: seq<Entry>
    const maxSize: nat
    ghost var history: seq<Event>

    ghost predicate Valid()
      reads this
    {
      entries == Buffer(history, maxSize) && Distinct(entries)
    }

    constructor (maxSize: nat)
      ensures Valid() && history == [] && this.maxSize == maxSize
    {
      this.maxSize, entries, history := maxSize, [], [];
    }

    method RecordStart(direction: Direction, remoteNumber: string, callId: string, now: int)
      requires Valid()
      modifies this
      ensures Valid() && history == old(history) + [Start(direction, remoteNumber, callId, now)]
      // A logged Call-ID is refused; otherwise the new entry is the last one and the oldest makes room.
      ensures (exists i :: 0 <= i < |old(entries)| && old(entries)[i].callId == callId) ==> entries == old(entries)
      ensures (forall i :: 0 <= i < |old(entries)| ==> old(entries)[i].callId != callId) ==>
        && |entries| == (if |old(entries)| < maxSize then |old(entries)| + 1 else maxSize)
        && (entries != [] ==> entries[|entries| - 1] == Entry(direction, remoteNumber, now, None, None, callId))
        && forall i :: 0 <= i < |entries| - 1 ==> entries[i] == old(entries)[|old(entries)| - |entries| + 1 + i]
    {
      hide Buffer;
      StartStep(history, Start(direction, remoteNumber, callId, now), maxSize);
      history := history + [Start(direction, remoteNumber, callId, now)];
      if exists i :: 0 <= i < |entries| && entries[i].callId == callId {
        return;
      }
      if maxSize == 0 {
        assert LastN(entries + [Entry(direction, remoteNumber, now, None, None, callId)], 0) == [];
        return;
      }
      PushAndTrim(Entry(direction, remoteNumber, now, None, None, callId));
    }

    method PushAndTrim(entry: Entry)
      modifies this`entries
      ensures entries == LastN(old(entries) + [entry], maxSize)
    {
      entries := entries + [entry];
      while |entries| > maxSize
        invariant LastN(entries, maxSize) == LastN(old(entries) + [entry], maxSize)
        decreases |entries|
      {
        entries := entries[1..];
      }
    }

    method RecordEnd(callId: string, outcome: Outcome, now: int)
      requires Valid()
      modifies this
      ensures Valid() && history == old(history) + [End(callId, outcome, now)]
      // The entry of the Call-ID gets the outcome, and its duration if it had no outcome before.
      ensures |entries| == |old(entries)|
      ensures forall i :: 0 <= i < |entries| ==>
        var before, after := old(entries)[i], entries[i];
        && (before.callId != callId ==> after == before)
        && (before.callId == callId ==>
              && after == before.(duration := after.duration, outcome := Some(outcome))
              && (before.outcome.Some? ==> after.duration == before.duration)
              && (before.outcome.None? && now >= before.startTime ==> after.duration == Some(now - before.startTime))
              && (before.outcome.None? && now < before.startTime ==> after.duration == None))
    {
      hide Buffer;
      EndStep(history, End(callId, outcome, now), maxSize);
      history := history + [End(callId, outcome, now)];
      var i: nat := |entries|;
      while i > 0
        invariant i <= |entries| && entries == old(entries)
        invariant forall j :: i <= j < |entries| ==> entries[j].callId != callId
      {
        i := i - 1;
        if entries[i].callId == callId {
          var entry := entries[i];
          if entry.outcome.None? {
            entry := entry.(duration := if now >= entry.startTime then Some(now - entry.startTime) else None);
          }
          entry := entry.(outcome := Some(outcome));
          UpdateOne(entries, callId, outcome, now, i);
          entries := entries[i := entry];
          return;
        }
      }
      UpdateNone(entries, callId, outcome, now);
    }

    method Recent(n: nat) returns (r: seq<Entry>)
      ensures |r| == if n < |entries| then n else |entries|
      ensures forall i :: 0 <= i < |r| ==> r[i] == entries[|entries| - 1 - i]
    {
      var take := Min(n, |entries|);
      r := [];
      for k := 0 to take
        invariant |r| == k && forall i :: 0 <= i < k ==> r[i] == entries[|entries| - 1 - i]
      {
        r := r + [entries[|entries| - 1 - k]];
      }
    }
  }

  ghost predicate Distinct(entries: seq<Entry>) {
    forall i, j :: 0 <= i < j < |entries| ==> entries[i].callId != entries[j].callId
  }

  /** Every entry of `callId` is ended. */
  ghost function EndAll(entries: seq<Entry>, callId: string, outcome: Outcome, now: int): seq<Entry> {
    seq(|entries|, i requires 0 <= i < |entries| =>
      if entries[i].callId == callId then Ended(entries[i], outcome, now) else entries[i])
  }

  lemma UpdateOne(entries: seq<Entry>, callId: string, outcome: Outcome, now: int, i: nat)
    requires Distinct(entries) && i < |entries| && entries[i].callId == callId
    ensures EndAll(entries, callId, outcome, now) == entries[i := Ended(entries[i], outcome, now)]
  {
  }

  lemma UpdateNone(entries: seq<Entry>, callId: string, outcome: Outcome, now: int)
    requires forall j :: 0 <= j < |entries| ==> entries[j].callId != callId
    ensures EndAll(entries, callId, outcome, now) == entries
  {
  }

  lemma EndStep(h: seq<Event>, e: Event, max: nat)
    requires e.End? && Distinct(Buffer(h, max))
    ensures Buffer(h + [e], max) == EndAll(Buffer(h, max), e.callId, e.outcome, e.now)
    ensures Distinct(Buffer(h + [e], max))
  {
    AcceptedSnoc(h, e, max);
    AcceptedAreStarts(h, max);
    EntriesEnded(h, e, LastN(Accepted(h, max), max));
  }

  lemma EntriesEnded(h: seq<Event>, e: Event, ks: seq<nat>)
    requires e.End? && Starts(h, ks)
    ensures Starts(h + [e], ks)
    ensures EntriesFor(h + [e], ks) == EndAll(EntriesFor(h, ks), e.callId, e.outcome, e.now)
  {
    forall i | 0 <= i < |ks|
      ensures (h + [e])[ks[i]] == h[ks[i]]
      ensures EntryFor(h + [e], ks[i])
           == if h[ks[i]].callId == e.callId then Ended(EntryFor(h, ks[i]), e.outcome, e.now) else EntryFor(h, ks[i])
    {
      EntrySnoc(h, e, ks[i]);
    }
  }

  lemma EntriesUnmoved(h: seq<Event>, e: Event, ks: seq<nat>)
    requires e.Start? && Starts(h, ks)
    ensures Starts(h + [e], ks) && EntriesFor(h + [e], ks) == EntriesFor(h, ks)
  {
    forall i | 0 <= i < |ks|
      ensures (h + [e])[ks[i]] == h[ks[i]] && EntryFor(h + [e], ks[i]) == EntryFor(h, ks[i])
    {
      EntrySnoc(h, e, ks[i]);
    }
  }

  ghost predicate HasId(entries: seq<Entry>, callId: string) {
    exists i :: 0 <= i < |entries| && entries[i].callId == callId
  }

  lemma SameIds(h: seq<Event>, e: Event, ks: seq<nat>, callId: string)
    requires Starts(h, ks)
    ensures IdAmong(h + [e], ks, callId) <==> HasId(EntriesFor(h, ks), callId)
  {
    var es := EntriesFor(h, ks);
    assert forall i :: 0 <= i < |ks| ==> es[i].callId == h[ks[i]].callId && (h + [e])[ks[i]] == h[ks[i]];
    if IdAmong(h + [e], ks, callId) {
      var i :| 0 <= i < |ks| && ks[i] < |h + [e]| && (h + [e])[ks[i]].callId == callId;
      assert es[i].callId == callId;
    }
    if HasId(es, callId) {
      var i :| 0 <= i < |es| && es[i].callId == callId;
      assert (h + [e])[ks[i]].callId == callId;
    }
  }

  lemma StartStep(h: seq<Event>, e: Event, max: nat)
    requires e.Start? && Distinct(Buffer(h, max))
    ensures Buffer(h + [e], max)
         == if HasId(Buffer(h, max), e.callId) then Buffer(h, max)
            else LastN(Buffer(h, max) + [Entry(e.direction, e.remoteNumber, e.now, None, None, e.callId)], max)
    ensures Distinct(Buffer(h + [e], max))
  {
    var all := Accepted(h, max);
    AcceptedSnoc(h, e, max);
    AcceptedAreStarts(h, max);
    SameIds(h, e, LastN(all, max), e.callId);
    EntriesUnmoved(h, e, LastN(all, max));
    if !HasId(Buffer(h, max), e.callId) {
      AcceptedAreStarts(h + [e], max);
      AppendStep(h, e, all, max);
      DistinctPush(Buffer(h, max), Entry(e.direction, e.remoteNumber, e.now, None, None, e.callId), max);
    }
    hide Accepted;
    hide LastN;
    hide Distinct;
    hide IdAmong;
    hide HasId;
    hide EntriesFor;
    hide Starts;
  }

  lemma DistinctPush(entries: seq<Entry>, entry: Entry, max: nat)
    requires Distinct(entries) && !HasId(entries, entry.callId)
    ensures Distinct(LastN(entries + [entry], max))
  {
    assert Distinct(entries + [entry]);
  }

  lemma LastNSnoc<T>(s: seq<T>, x: T, n: nat)
    ensures LastN(s + [x], n) == LastN(LastN(s, n) + [x], n)
  {
  }

  lemma EntriesSnoc(h: seq<Event>, ks: seq<nat>, k: nat)
    requires Starts(h, ks) && k < |h| && h[k].Start?
    ensures Starts(h, ks + [k]) && EntriesFor(h, ks + [k]) == EntriesFor(h, ks) + [EntryFor(h, k)]
  {
    hide EntryFor;
  }

  lemma EntriesOfLast(h: seq<Event>, ks: seq<nat>, n: nat)
    requires Starts(h, ks)
    ensures Starts(h, LastN(ks, n)) && EntriesFor(h, LastN(ks, n)) == LastN(EntriesFor(h, ks), n)
  {
    hide EntryFor;
  }

  lemma AppendStep(h: seq<Event>, e: Event, all: seq<nat>, max: nat)
    requires e.Start? && Starts(h, LastN(all, max)) && Starts(h + [e], LastN(all, max))
    requires EntriesFor(h + [e], LastN(all, max)) == EntriesFor(h, LastN(all, max))
    ensures Starts(h + [e], LastN(all + [|h|], max))
    ensures EntriesFor(h + [e], LastN(all + [|h|], max))
         == LastN(EntriesFor(h, LastN(all, max)) + [Entry(e.direction, e.remoteNumber, e.now, None, None, e.callId)], max)
  {
    hide EntryFor;
    hide EntriesFor;
    hide Starts;
    var n: nat := |h|;
    var ks: seq<nat> := LastN(all, max) + [n];
    LastNSnoc<nat>(all, n, max);
    NewEntry(h, e);
    EntriesSnoc(h + [e], LastN(all, max), n);
    EntriesOfLast(h + [e], ks, max);
  }

  // ---- whole runs ---------------------------------------------------------------------------

  /** After any run the log is the last `maxSize` accepted starts with their outcomes, no Call-ID
      twice, and `recent` holds its newest entries, newest first. */
  method RunLog(maxSize: nat, events: seq<Event>, n: nat) returns (entries: seq<Entry>, recent: seq<Entry>)
    ensures entries == Buffer(events, maxSize) && Distinct(entries)
    ensures |recent| == if n < |entries| then n else |entries|
    ensures forall i :: 0 <= i < |recent| ==> recent[i] == entries[|entries| - 1 - i]
  {
    var log := new CallLog(maxSize);
    hide *;
    for k := 0 to |events|
      invariant log.Valid() && fresh(log) && log.maxSize == maxSize && log.history == events[..k]
    {
      TakeNext(events, k);
      Record(log, events[k]);
    }
    assert events[..|events|] == events;
    ValidMeans(log);
    entries := log.entries;
    recent := log.Recent(n);
  }

  method Record(log: CallLog, e: Event)
    requires log.Valid()
    modifies log
    ensures log.Valid() && log.history == old(log.history) + [e]
  {
    hide *;
    match e {
      case Start(direction, remoteNumber, callId, now) =>
        log.RecordStart(direction, remoteNumber, callId, now);
      case End(callId, outcome, now) =>
        log.RecordEnd(callId, outcome, now);
    }
  }

  lemma ValidMeans(log: CallLog)
    requires log.Valid()
    ensures log.entries == Buffer(log.history, log.maxSize) && Distinct(log.entries)
  {
  }

  /** An evicted or unknown Call-ID is ended without trace. */
  lemma EndWithoutStart(h: seq<Event>, max: nat, callId: string, outcome: Outcome, now: int)
    requires Distinct(Buffer(h, max)) && !HasId(Buffer(h, max), callId)
    ensures Buffer(h + [End(callId, outcome, now)], max) == Buffer(h, max)
  {
    hide Buffer;
    EndStep(h, End(callId, outcome, now), max);
    UpdateNone(Buffer(h, max), callId, outcome, now);
  }

  // ---- when an entry has a duration ----------------------------------------------------------

  /** The event at `j` ends the call started at `k`. */
  ghost predicate Ends(h: seq<Event>, k: nat, j: int)
    requires k < |h|
  {
    k < j < |h| && h[j].End? && h[j].callId == h[k].callId
  }

  ghost predicate FirstEnd(h: seq<Event>, k: nat, j: int)
    requires k < |h|
  {
    Ends(h, k, j) && forall m :: Ends(h, k, m) ==> j <= m
  }

  ghost predicate LatestEnd(h: seq<Event>, k: nat, j: int)
    requires k < |h|
  {
    Ends(h, k, j) && forall m :: Ends(h, k, m) ==> m <= j
  }

  /** The newest event ends the call, or only the earlier ones can. */
  lemma EndsSplit(h: seq<Event>, e: Event, k: nat, j: int)
    requires k < |h|
    ensures Ends(h, k, j) ==> Ends(h + [e], k, j) && j < |h| && (h + [e])[j] == h[j] && h[j].End?
    ensures Ends(h + [e], k, j) ==> Ends(h, k, j) || j == |h|
    ensures Ends(h + [e], k, |h|) <==> e.End? && e.callId == h[k].callId
  {
  }

  lemma FirstStays(h: seq<Event>, e: Event, k: nat, j: int)
    requires k < |h| && FirstEnd(h, k, j)
    ensures FirstEnd(h + [e], k, j)
  {
    forall m
      ensures Ends(h + [e], k, m) ==> Ends(h, k, m) || m == |h|
      ensures Ends(h, k, m) ==> Ends(h + [e], k, m) && m < |h|
    {
      EndsSplit(h, e, k, m);
    }
    hide Ends;
  }

  lemma FirstIsNew(h: seq<Event>, e: Event, k: nat)
    requires k < |h| && Ends(h + [e], k, |h|) && NeverEnds(h, k)
    ensures FirstEnd(h + [e], k, |h|)
  {
    forall m
      ensures Ends(h + [e], k, m) ==> Ends(h, k, m) || m == |h|
    {
      EndsSplit(h, e, k, m);
    }
    hide Ends;
  }

  lemma LatestStays(h: seq<Event>, e: Event, k: nat, j: int)
    requires k < |h| && LatestEnd(h, k, j) && !Ends(h + [e], k, |h|)
    ensures LatestEnd(h + [e], k, j)
  {
    forall m
      ensures Ends(h + [e], k, m) ==> Ends(h, k, m) || m == |h|
      ensures Ends(h, k, m) ==> Ends(h + [e], k, m) && m < |h|
    {
      EndsSplit(h, e, k, m);
    }
    hide Ends;
  }

  lemma LatestIsNew(h: seq<Event>, e: Event, k: nat)
    requires k < |h| && Ends(h + [e], k, |h|)
    ensures LatestEnd(h + [e], k, |h|)
  {
  }

  ghost predicate NeverEnds(h: seq<Event>, k: nat)
    requires k < |h|
  {
    forall j :: !Ends(h, k, j)
  }

  lemma NeverEndsStays(h: seq<Event>, e: Event, k: nat)
    requires k < |h| && NeverEnds(h, k) && !Ends(h + [e], k, |h|)
    ensures NeverEnds(h + [e], k)
  {
    forall j
      ensures !Ends(h + [e], k, j)
    {
      EndsSplit(h, e, k, j);
    }
    hide Ends;
  }

  /** The event at `j` is the first, or the latest, to end the call, and it recorded `end`. */
  ghost predicate FirstEndIs(h: seq<Event>, k: nat, j: int, end: (Outcome, int))
    requires k < |h|
  {
    FirstEnd(h, k, j) && h[j].End? && end == (h[j].outcome, h[j].now)
  }

  ghost predicate LatestEndIs(h: seq<Event>, k: nat, j: int, end: (Outcome, int))
    requires k < |h|
  {
    LatestEnd(h, k, j) && h[j].End? && end == (h[j].outcome, h[j].now)
  }

  lemma FirstEndIsStays(h: seq<Event>, e: Event, k: nat, j: int, end: (Outcome, int))
    requires k < |h| && FirstEndIs(h, k, j, end)
    ensures FirstEndIs(h + [e], k, j, end)
  {
    FirstStays(h, e, k, j);
    EndsSplit(h, e, k, j);
  }

  lemma LatestEndIsStays(h: seq<Event>, e: Event, k: nat, j: int, end: (Outcome, int))
    requires k < |h| && LatestEndIs(h, k, j, end) && !Ends(h + [e], k, |h|)
    ensures LatestEndIs(h + [e], k, j, end)
  {
    LatestStays(h, e, k, j);
    EndsSplit(h, e, k, j);
  }

  /** What an end at the end of the history is to its call. */
  lemma NewEndIs(h: seq<Event>, e: Event, k: nat)
    requires k < |h| && Ends(h + [e], k, |h|)
    ensures e.End? && LatestEndIs(h + [e], k, |h|, (e.outcome, e.now))
    ensures NeverEnds(h, k) ==> FirstEndIs(h + [e], k, |h|, (e.outcome, e.now))
  {
    LatestIsNew(h, e, k);
    if NeverEnds(h, k) {
      FirstIsNew(h, e, k);
    }
    hide FirstEnd;
    hide LatestEnd;
    hide NeverEnds;
  }

  /** Recorded ends are none, or they run from the first to the latest end in the history. */
  ghost predicate EndsFound(h: seq<Event>, k: nat, ends: seq<(Outcome, int)>)
    requires k < |h|
  {
    if ends == [] then NeverEnds(h, k)
    else
      var first, latest := ends[0], ends[|ends| - 1];
      (exists j :: FirstEndIs(h, k, j, first)) && exists j :: LatestEndIs(h, k, j, latest)
  }

  lemma EndsFoundNext(h: seq<Event>, e: Event, k: nat, ends: seq<(Outcome, int)>)
    requires k < |h| && EndsFound(h, k, ends)
    ensures e.End? && e.callId == h[k].callId ==> EndsFound(h + [e], k, ends + [(e.outcome, e.now)])
    ensures !(e.End? && e.callId == h[k].callId) ==> EndsFound(h + [e], k, ends)
  {
    EndsSplit(h, e, k, |h|);
    hide Ends;
    hide FirstEndIs;
    hide LatestEndIs;
    hide NeverEnds;
    if ends != [] {
      var j :| FirstEndIs(h, k, j, ends[0]);
      FirstEndIsStays(h, e, k, j, ends[0]);
    }
    if Ends(h + [e], k, |h|) {
      NewEndIs(h, e, k);
      var ends' := ends + [(e.outcome, e.now)];
      assert ends'[|ends'| - 1] == (e.outcome, e.now);
      assert exists j :: FirstEndIs(h + [e], k, j, ends'[0]);
    } else if ends == [] {
      NeverEndsStays(h, e, k);
    } else {
      var j :| LatestEndIs(h, k, j, ends[|ends| - 1]);
      LatestEndIsStays(h, e, k, j, ends[|ends| - 1]);
    }
  }

  /** The recorded ends of a call are those of the history. */
  lemma {:induction false} EndsAreFound(h: seq<Event>, k: nat)
    requires k < |h|
    ensures EndsFound(h, k, EndsAfter(h, k, h[k].callId))
  {
    if |h| > k + 1 {
      var before, e := h[..|h| - 1], h[|h| - 1];
      assert before + [e] == h;
      EndsAreFound(before, k);
      EndsSnoc(before, e, k, h[k].callId);
      EndsFoundNext(before, e, k, EndsAfter(before, k, h[k].callId));
    } else {
      assert NeverEnds(h, k);
    }
  }

  lemma OneFirstEnd(h: seq<Event>, k: nat, i: int, j: int)
    requires k < |h|
    ensures FirstEnd(h, k, i) && FirstEnd(h, k, j) ==> i == j
    ensures LatestEnd(h, k, i) && LatestEnd(h, k, j) ==> i == j
  {
  }

  /** The call started at `k` ended, at a time not before its start. */
  ghost predicate EndedInOrder(h: seq<Event>, k: nat)
    requires k < |h| && h[k].Start?
  {
    exists j :: FirstEnd(h, k, j) && h[j].now >= h[k].now
  }

  ghost predicate LastlyAnswered(h: seq<Event>, k: nat)
    requires k < |h|
  {
    exists j :: LatestEnd(h, k, j) && h[j].outcome == Answered
  }

  /** An entry has a duration exactly when an end was recorded, of whatever outcome, and the first one
      does not lie before the start. */
  lemma DurationIff(h: seq<Event>, k: nat)
    requires k < |h| && h[k].Start?
    ensures EntryFor(h, k).duration.Some? <==> EndedInOrder(h, k)
    ensures EntryFor(h, k).outcome == Some(Answered) <==> LastlyAnswered(h, k)
  {
    EndsAreFound(h, k);
    hide FirstEnd;
    hide LatestEnd;
    hide EndsAfter;
    forall i, j
      ensures FirstEnd(h, k, i) && FirstEnd(h, k, j) ==> i == j
      ensures LatestEnd(h, k, i) && LatestEnd(h, k, j) ==> i == j
    {
      OneFirstEnd(h, k, i, j);
    }
    if EndsAfter(h, k, h[k].callId) == [] {
      NoEnds(h, k);
    }
  }

  lemma NoEnds(h: seq<Event>, k: nat)
    requires k < |h| && NeverEnds(h, k)
    ensures forall j :: !FirstEnd(h, k, j) && !LatestEnd(h, k, j)
  {
  }

  /** The doc comment promises a duration for answered calls only. The log keeps that promise exactly
      when every call in it whose first end is in order was last reported answered. */
  lemma DurationOnlyAnsweredIff(h: seq<Event>, max: nat)
    ensures (forall i :: 0 <= i < |Buffer(h, max)| && Buffer(h, max)[i].duration.Some? ==>
               Buffer(h, max)[i].outcome == Some(Answered)) <==>
            forall i :: 0 <= i < |Logged(h, max)| && EndedInOrder(h, Logged(h, max)[i]) ==>
              LastlyAnswered(h, Logged(h, max)[i])
  {
    var ks := Logged(h, max);
    forall i | 0 <= i < |ks|
      ensures Buffer(h, max)[i].duration.Some? <==> EndedInOrder(h, ks[i])
      ensures Buffer(h, max)[i].outcome == Some(Answered) <==> LastlyAnswered(h, ks[i])
    {
      DurationIff(h, ks[i]);
    }
    hide EndedInOrder;
    hide LastlyAnswered;
    hide EntryFor;
  }

  /** A missed call gets a duration. */
  lemma MissedCallHasDuration(direction: Direction, number: string, id: string, start: int, end: int, max: nat)
    requires start <= end && max > 0
    ensures Buffer([Start(direction, number, id, start), End(id, Missed, end)], max)
         == [Entry(direction, number, start, Some(end - start), Some(Missed), id)]
  {
    var s, e := Start(direction, number, id, start), End(id, Missed, end);
    var entry := Entry(direction, number, start, None, None, id);
    assert Buffer([], max) == [];
    assert LastN([] + [entry], max) == [entry];
    hide *;
    StartFromEmpty(s, max);
    EndStep([s], e, max);
    EndOnly(entry, id, Missed, end);
    assert [s] + [e] == [s, e];
  }

  lemma StartFromEmpty(s: Event, max: nat)
    requires s.Start? && max > 0
    ensures Buffer([s], max) == [Entry(s.direction, s.remoteNumber, s.now, None, None, s.callId)] && Distinct(Buffer([s], max))
  {
    var entry := Entry(s.direction, s.remoteNumber, s.now, None, None, s.callId);
    var none: seq<Event> := [];
    assert Buffer(none, max) == [] && Distinct([]) && !HasId([], s.callId);
    assert LastN([entry], max) == [entry];
    hide *;
    assert none + [s] == [s] && [] + [entry] == [entry];
    StartStep(none, s, max);
  }

  lemma EndOnly(entry: Entry, id: string, outcome: Outcome, now: int)
    requires entry.callId == id && entry.outcome.None? && now >= entry.startTime
    ensures EndAll([entry], id, outcome, now)
         == [entry.(duration := Some(now - entry.startTime), outcome := Some(outcome))]
  {
  }

  /** Once an end of the call is recorded its duration is settled: nothing that happens later changes it. */
  lemma {:induction false} DurationSettled(h: seq<Event>, more: seq<Event>, k: nat)
    requires k < |h| && h[k].Start? && EntryFor(h, k).outcome.Some?
    ensures EntryFor(h + more, k).duration == EntryFor(h, k).duration && EntryFor(h + more, k).outcome.Some?
  {
    if more == [] {
      assert h + more == h;
    } else {
      var init, last := more[..|more| - 1], more[|more| - 1];
      assert h + more == (h + init) + [last];
      DurationSettled(h, init, k);
      EntrySnoc(h + init, last, k);
      hide EntryFor;
    }
  }
}
