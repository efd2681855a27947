/** The RTP relay: two `forward_loop`s that share two peer cells and learn addresses from each
      other's traffic. */
module Bridge {
  import opened Prelude

  type Addr = string

  datatype Datagram = Datagram(bytes: seq<u8>, source: Addr)

  /** What became of one received datagram. `readAt` counts the addresses the other leg had learned
      when this loop read its cell. */
  datatype Fate =
    | Forwarded(readAt: nat, dest: Addr)
    | SendFailed(readAt: nat, dest: Addr)
    | NoDestination(readAt: nat)

  /** Where a loop stands between two locks or awaits. */
  datatype Phase =
    | Waiting
    | Got
    | Learned
    | HasDest(readAt: nat, dest: Addr)
    | Uncounted
    | Stopped

  datatype Delivery = Delivery(bytes: seq<u8>, dest: Addr)

  /** One loop and its logs: datagrams received, their fates, datagrams put on the wire. */
  datatype Loop = Loop(phase: Phase, received: seq<Datagram>, fates: seq<Fate>, counter: nat, wire: seq<Delivery>)

  /** The content of a peer cell that started at `seed` and then saw datagrams from `learned`. */
  function Cell(seed: Option<Addr>, learned: seq<Addr>): Option<Addr> {
    if learned == [] then seed else Some(learned[|learned| - 1])
  }

  ghost function Sources(received: seq<Datagram>): (s: seq<Addr>)
    ensures |s| == |received|
  {
    seq(|received|, i requires 0 <= i < |received| => received[i].source)
  }

  /** The forwarded datagrams, unmodified and in order of arrival. */
  ghost function Deliveries(received: seq<Datagram>, fates: seq<Fate>): seq<Delivery>
    requires |fates| <= |received|
  {
    if fates == [] then []
    else
      var n := |fates| - 1;
      match fates[n]
      case Forwarded(_, dest) => Deliveries(received, fates[..n]) + [Delivery(received[n].bytes, dest)]
      case _ => Deliveries(received, fates[..n])
  }

  ghost function Forwards(fates: seq<Fate>): nat {
    if fates == [] then 0 else Forwards(fates[..|fates| - 1]) + if fates[|fates| - 1].Forwarded? then 1 else 0
  }

  /** A fate is what the cell of the other leg demanded at the moment it was read. */
  ghost predicate Justified(fate: Fate, seed: Option<Addr>, learned: seq<Addr>) {
    fate.readAt <= |learned| &&
    match fate
    case Forwarded(at, dest) => Cell(seed, learned[..at]) == Some(dest)
    case SendFailed(at, dest) => Cell(seed, learned[..at]) == Some(dest)
    case NoDestination(at) => Cell(seed, learned[..at]) == None
  }

  /** `fates` are justified by the cell of the other leg, which they read in the order of its learning. */
  ghost predicate FatesOk(fates: seq<Fate>, seed: Option<Addr>, learned: seq<Addr>) {
    && (forall i :: 0 <= i < |fates| ==> Justified(fates[i], seed, learned))
    && (forall i, j :: 0 <= i <= j < |fates| ==> fates[i].readAt <= fates[j].readAt)
  }

  ghost predicate Unfinished(phase: Phase) {
    phase.Got? || phase.Learned? || phase.HasDest?
  }

  /** What a loop keeps at every point where the other may run: every datagram received so far has its
      fate, except one in hand, and the counter equals the forwards, except one not yet counted. */
  ghost predicate LoopOk(l: Loop, fromLearned: seq<Addr>, toSeed: Option<Addr>, toLearned: seq<Addr>) {
    && |l.received| == |l.fates| + (if Unfinished(l.phase) then 1 else 0)
    && fromLearned == Sources(l.received)[..if l.phase.Got? then |l.received| - 1 else |l.received|]
    && FatesOk(l.fates, toSeed, toLearned)
    && l.wire == Deliveries(l.received, l.fates)
    && Forwards(l.fates) == l.counter + (if l.phase.Uncounted? then 1 else 0)
    && (l.phase.HasDest? ==>
          && Justified(Forwarded(l.phase.readAt, l.phase.dest), toSeed, toLearned)
          && forall i :: 0 <= i < |l.fates| ==> l.fates[i].readAt <= l.phase.readAt)
  }

  // ---- what each step does to the invariant ------------------------------------------

  lemma JustifiedGrows(fate: Fate, seed: Option<Addr>, learned: seq<Addr>, learned': seq<Addr>)
    requires Justified(fate, seed, learned) && learned <= learned'
    ensures Justified(fate, seed, learned')
  {
    assert learned'[..fate.readAt] == learned[..fate.readAt];
  }

  lemma FatesGrow(fates: seq<Fate>, seed: Option<Addr>, learned: seq<Addr>, learned': seq<Addr>)
    requires FatesOk(fates, seed, learned) && learned <= learned'
    ensures FatesOk(fates, seed, learned')
  {
    forall i | 0 <= i < |fates|
      ensures Justified(fates[i], seed, learned')
    {
      JustifiedGrows(fates[i], seed, learned, learned');
    }
  }

  /** The other loop's learning never disturbs this loop. */
  lemma OtherLearns(l: Loop, fromLearned: seq<Addr>, toSeed: Option<Addr>, toLearned: seq<Addr>, toLearned': seq<Addr>)
    requires LoopOk(l, fromLearned, toSeed, toLearned) && toLearned <= toLearned'
    ensures LoopOk(l, fromLearned, toSeed, toLearned')
  {
    FatesGrow(l.fates, toSeed, toLearned, toLearned');
    if l.phase.HasDest? {
      JustifiedGrows(Forwarded(l.phase.readAt, l.phase.dest), toSeed, toLearned, toLearned');
    }
  }

  lemma {:induction false} DeliveriesStable(received: seq<Datagram>, more: seq<Datagram>, fates: seq<Fate>)
    requires |fates| <= |received|
    ensures Deliveries(received + more, fates) == Deliveries(received, fates)
  {
    if fates != [] {
      DeliveriesStable(received, more, fates[..|fates| - 1]);
    }
  }

  lemma ReceiveStep(l: Loop, d: Datagram, fromLearned: seq<Addr>, toSeed: Option<Addr>, toLearned: seq<Addr>)
    requires LoopOk(l, fromLearned, toSeed, toLearned) && l.phase.Waiting?
    ensures LoopOk(l.(phase := Got, received := l.received + [d]), fromLearned, toSeed, toLearned)
  {
    DeliveriesStable(l.received, [d], l.fates);
    assert Sources(l.received + [d])[..|l.received|] == Sources(l.received);
    hide FatesOk;
  }

  lemma LearnStep(l: Loop, fromLearned: seq<Addr>, toSeed: Option<Addr>, toLearned: seq<Addr>)
    requires LoopOk(l, fromLearned, toSeed, toLearned) && l.phase.Got?
    ensures LoopOk(l.(phase := Learned), fromLearned + [l.received[|l.received| - 1].source], toSeed, toLearned)
  {
    hide FatesOk;
  }

  lemma FatesPlus(fates: seq<Fate>, fate: Fate, seed: Option<Addr>, learned: seq<Addr>)
    requires FatesOk(fates, seed, learned) && Justified(fate, seed, learned)
    requires forall i :: 0 <= i < |fates| ==> fates[i].readAt <= fate.readAt
    ensures FatesOk(fates + [fate], seed, learned)
  {
    hide Justified;
  }

  /** What one more fate adds to the wire and to the count of forwards. */
  lemma FateSnoc(received: seq<Datagram>, fates: seq<Fate>, fate: Fate)
    requires |fates| < |received|
    ensures Deliveries(received, fates + [fate])
         == if fate.Forwarded? then Deliveries(received, fates) + [Delivery(received[|fates|].bytes, fate.dest)]
            else Deliveries(received, fates)
    ensures Forwards(fates + [fate]) == Forwards(fates) + if fate.Forwarded? then 1 else 0
  {
    assert (fates + [fate])[..|fates|] == fates;
  }

  /** Every earlier read saw no more of the other leg than is there now. */
  lemma ReadsSoFar(fates: seq<Fate>, seed: Option<Addr>, learned: seq<Addr>)
    requires FatesOk(fates, seed, learned)
    ensures forall i :: 0 <= i < |fates| ==> fates[i].readAt <= |learned|
  {
    assert forall i :: 0 <= i < |fates| ==> Justified(fates[i], seed, learned);
  }

  lemma ReadDestStep(l: Loop, fromLearned: seq<Addr>, toSeed: Option<Addr>, toLearned: seq<Addr>)
    requires LoopOk(l, fromLearned, toSeed, toLearned) && l.phase.Learned?
    ensures match Cell(toSeed, toLearned)
            case Some(dest) => LoopOk(l.(phase := HasDest(|toLearned|, dest)), fromLearned, toSeed, toLearned)
            case None => LoopOk(l.(phase := Waiting, fates := l.fates + [NoDestination(|toLearned|)]), fromLearned, toSeed, toLearned)
  {
    ReadsSoFar(l.fates, toSeed, toLearned);
    assert toLearned[..|toLearned|] == toLearned;
    hide FatesOk;
    hide Cell;
    if Cell(toSeed, toLearned).None? {
      FatesPlus(l.fates, NoDestination(|toLearned|), toSeed, toLearned);
      FateSnoc(l.received, l.fates, NoDestination(|toLearned|));
    }
    hide Sources;
    hide Deliveries;
    hide Forwards;
  }

  lemma SendStep(l: Loop, sent: bool, fromLearned: seq<Addr>, toSeed: Option<Addr>, toLearned: seq<Addr>)
    requires LoopOk(l, fromLearned, toSeed, toLearned) && l.phase.HasDest?
    ensures LoopOk(AfterSend(l, sent), fromLearned, toSeed, toLearned)
  {
    hide FatesOk;
    hide Sources;
    hide Deliveries;
    hide Forwards;
    hide Cell;
    var at, dest := l.phase.readAt, l.phase.dest;
    var fate := if sent then Forwarded(at, dest) else SendFailed(at, dest);
    assert Justified(fate, toSeed, toLearned);
    FatesPlus(l.fates, fate, toSeed, toLearned);
    FateSnoc(l.received, l.fates, fate);
    hide Justified;
    assert AfterSend(l, sent).fates == l.fates + [fate];
  }

  function AfterSend(l: Loop, sent: bool): Loop
    requires l.phase.HasDest? && l.received != []
  {
    var at, dest := l.phase.readAt, l.phase.dest;
    if sent
    then Loop(Uncounted, l.received, l.fates + [Forwarded(at, dest)], l.counter,
              l.wire + [Delivery(l.received[|l.received| - 1].bytes, dest)])
    else l.(phase := Waiting, fates := l.fates + [SendFailed(at, dest)])
  }

  /** One atomic stretch of a loop that finds `learned` behind the cell it reads. */
  function AfterTurn(l: Loop, toSeed: Option<Addr>, toLearned: seq<Addr>, arriving: Option<Datagram>, sendWorks: bool): Loop {
    match l.phase
    case Waiting =>
      if arriving.Some? then l.(phase := Got, received := l.received + [arriving.value]) else l.(phase := Stopped)
    case Got => l.(phase := Learned)
    case Learned =>
      var cell := Cell(toSeed, toLearned);
      if cell.Some? then l.(phase := HasDest(|toLearned|, cell.value))
      else l.(phase := Waiting, fates := l.fates + [NoDestination(|toLearned|)])
    case HasDest(_, _) => if l.received != [] then AfterSend(l, sendWorks) else l
    case Uncounted => l.(phase := Waiting, counter := l.counter + 1)
    case Stopped => l
  }

  function NewlyLearned(l: Loop): seq<Addr> {
    if l.phase.Got? && l.received != [] then [l.received[|l.received| - 1].source] else []
  }

  /** Both loops and both cells. */
  datatype Bridged = Bridged(toExt: Loop, toNgn: Loop, ngnLearned: seq<Addr>, extLearned: seq<Addr>)

  ghost function BridgeAfter(ngnSeed: Option<Addr>, extSeed: Option<Addr>, schedule: seq<Turn>): Bridged {
    if schedule == [] then Bridged(Loop(Waiting, [], [], 0, []), Loop(Waiting, [], [], 0, []), [], [])
    else Turned(BridgeAfter(ngnSeed, extSeed, schedule[..|schedule| - 1]), schedule[|schedule| - 1], ngnSeed, extSeed)
  }

  /** One atomic stretch of one of the loops. */
  function Turned(s: Bridged, t: Turn, ngnSeed: Option<Addr>, extSeed: Option<Addr>): Bridged {
    if t.toExt then
      s.(toExt := AfterTurn(s.toExt, extSeed, s.extLearned, t.arriving, t.sendWorks),
         ngnLearned := s.ngnLearned + NewlyLearned(s.toExt))
    else
      s.(toNgn := AfterTurn(s.toNgn, ngnSeed, s.ngnLearned, t.arriving, t.sendWorks),
         extLearned := s.extLearned + NewlyLearned(s.toNgn))
  }

  // ---- the two loops over shared cells ----------------------------------------------------

  class LegState {
    const seed: Option<Addr>
    var peer: Option<Addr>
    /** The sources this cell has been told about, in order. */
    var learned: seq<Addr>

    ghost predicate Valid()
      reads this
    {
      peer == Cell(seed, learned)
    }

    constructor (seed: Option<Addr>)
      ensures Valid() && this.seed == seed && learned == []
    {
      this.seed, peer, learned := seed, seed, [];
    }

    method Learn(source: Addr)
      requires Valid()
      modifies this
      ensures Valid() && learned == old(learned) + [source] && peer == Some(source)
    {
      if peer != Some(source) {
        peer := Some(source);
      }
      learned := learned + [source];
    }
  }

  class ForwardLoop {
    const from: LegState
    const to: LegState
    var phase: Phase
    var received: seq<Datagram>
    var fates: seq<Fate>
    var counter: nat
    var wire: seq<Delivery>

    function View(): Loop
      reads this
    {
      Loop(phase, received, fates, counter, wire)
    }

    ghost predicate Valid()
      reads this, from, to
    {
      && from != to && from.Valid() && to.Valid()
      && LoopOk(View(), from.learned, to.seed, to.learned)
    }

    constructor (from: LegState, to: LegState)
      requires from != to && from.Valid() && to.Valid() && from.learned == []
      ensures Valid() && this.from == from && this.to == to && View() == Loop(Waiting, [], [], 0, [])
    {
      this.from, this.to := from, to;
      phase, received, fates, counter, wire := Waiting, [], [], 0, [];
    }

    method Receive(d: Datagram)
      requires Valid() && phase.Waiting?
      modifies this
      ensures Valid() && View() == old(View()).(phase := Got, received := old(received) + [d])
    {
      ReceiveStep(View(), d, from.learned, to.seed, to.learned);
      hide LoopOk;
      received := received + [d];
      phase := Got;
    }

    /** A receive error ends the loop. */
    method Stop()
      requires Valid() && phase.Waiting?
      modifies this
      ensures Valid() && View() == old(View()).(phase := Stopped)
    {
      phase := Stopped;
    }

    method LearnSource()
      requires Valid() && phase.Got? && received != []
      modifies this, from
      ensures Valid() && View() == old(View()).(phase := Learned)
      ensures from.learned == old(from.learned) + [received[|received| - 1].source]
    {
      LearnStep(View(), from.learned, to.seed, to.learned);
      hide LoopOk;
      from.Learn(received[|received| - 1].source);
      phase := Learned;
    }

    method ReadDest()
      requires Valid() && phase.Learned?
      modifies this
      ensures Valid()
      ensures View() == match to.peer
        case Some(dest) => old(View()).(phase := HasDest(|to.learned|, dest))
        case None => old(View()).(phase := Waiting, fates := old(fates) + [NoDestination(|to.learned|)])
    {
      ReadDestStep(View(), from.learned, to.seed, to.learned);
      hide LoopOk;
      match to.peer {
        case Some(dest) =>
          phase := HasDest(|to.learned|, dest);
        case None =>
          fates := fates + [NoDestination(|to.learned|)];
          phase := Waiting;
      }
    }

    method Send(sent: bool)
      requires Valid() && phase.HasDest? && received != []
      modifies this
      ensures Valid() && View() == AfterSend(old(View()), sent)
      ensures sent ==>
        && phase == Uncounted && wire == old(wire) + [Delivery(received[|received| - 1].bytes, old(phase).dest)]
        && fates == old(fates) + [Forwarded(old(phase).readAt, old(phase).dest)]
      ensures !sent ==>
        && phase == Waiting && wire == old(wire)
        && fates == old(fates) + [SendFailed(old(phase).readAt, old(phase).dest)]
      ensures received == old(received) && counter == old(counter)
    {
      SendStep(View(), sent, from.learned, to.seed, to.learned);
      hide LoopOk;
      var at, dest := phase.readAt, phase.dest;
      if sent {
        wire := wire + [Delivery(received[|received| - 1].bytes, dest)];
        fates := fates + [Forwarded(at, dest)];
        phase := Uncounted;
      } else {
        fates := fates + [SendFailed(at, dest)];
        phase := Waiting;
      }
    }

    method Count()
      requires Valid() && phase.Uncounted?
      modifies this
      ensures Valid() && View() == old(View()).(phase := Waiting, counter := old(counter) + 1)
    {
      counter := counter + 1;
      phase := Waiting;
    }

    /** The next atomic stretch of this loop; `arriving` is what its socket would deliver. */
    method Advance(arriving: Option<Datagram>, sendWorks: bool)
      requires Valid()
      modifies this, from
      ensures Valid()
      ensures View() == AfterTurn(old(View()), to.seed, to.learned, arriving, sendWorks)
      ensures from.learned == old(from.learned) + NewlyLearned(old(View()))
    {
      hide LoopOk;
      hide Cell;
      InHand(View(), from.learned, to.seed, to.learned);
      match phase {
        case Waiting =>
          if arriving.Some? {
            Receive(arriving.value);
          } else {
            Stop();
          }
        case Got =>
          LearnSource();
        case Learned =>
          ReadDest();
        case HasDest(_, _) =>
          Send(sendWorks);
        case Uncounted =>
          Count();
        case Stopped =>
      }
    }
  }

  lemma InHand(l: Loop, fromLearned: seq<Addr>, toSeed: Option<Addr>, toLearned: seq<Addr>)
    requires LoopOk(l, fromLearned, toSeed, toLearned)
    ensures Unfinished(l.phase) ==> l.received != []
  {
  }

  datatype Turn = Turn(toExt: bool, arriving: Option<Datagram>, sendWorks: bool)

  /** Both loops, interleaved at every lock and send in any order, over the two shared cells. */
  method RunBridge(ngnSeed: Option<Addr>, extSeed: Option<Addr>, schedule: seq<Turn>) returns (s: Bridged)
    ensures s == BridgeAfter(ngnSeed, extSeed, schedule)
    ensures LoopOk(s.toExt, s.ngnLearned, extSeed, s.extLearned)
    ensures LoopOk(s.toNgn, s.extLearned, ngnSeed, s.ngnLearned)
  {
    var ngn := new LegState(ngnSeed);
    var ext := new LegState(extSeed);
    var a := new ForwardLoop(ngn, ext);
    var b := new ForwardLoop(ext, ngn);
    assert Coupled(a, b) && Both(a, b) == BridgeAfter(ngnSeed, extSeed, []);
    assert schedule[..0] == [];
    hide *;
    for k := 0 to |schedule|
      invariant fresh(ngn) && fresh(ext) && fresh(a) && fresh(b)
      invariant a.from == ngn && b.from == ext && ngn.seed == ngnSeed && ext.seed == extSeed
      invariant Coupled(a, b) && Both(a, b) == BridgeAfter(ngnSeed, extSeed, schedule[..k])
    {
      BridgeNext(ngnSeed, extSeed, schedule, k);
      TakeTurn(a, b, schedule[k]);
    }
    assert schedule[..|schedule|] == schedule;
    CoupledMeans(a, b);
    s := Bridged(a.View(), b.View(), ngn.learned, ext.learned);
  }

  lemma BridgeNext(ngnSeed: Option<Addr>, extSeed: Option<Addr>, schedule: seq<Turn>, k: nat)
    requires k < |schedule|
    ensures BridgeAfter(ngnSeed, extSeed, schedule[..k + 1])
         == Turned(BridgeAfter(ngnSeed, extSeed, schedule[..k]), schedule[k], ngnSeed, extSeed)
  {
    assert schedule[..k + 1][..k] == schedule[..k];
    hide Turned;
  }

  /** Two loops over the same two cells, one in each direction. */
  ghost predicate Coupled(a: ForwardLoop, b: ForwardLoop)
    reads a, b, a.from, a.to, b.from, b.to
  {
    a != b && a.to == b.from && b.to == a.from && a.Valid() && b.Valid()
  }

  ghost function Both(a: ForwardLoop, b: ForwardLoop): Bridged
    reads a, b, a.from, b.from
  {
    Bridged(a.View(), b.View(), a.from.learned, b.from.learned)
  }

  lemma CoupledMeans(a: ForwardLoop, b: ForwardLoop)
    requires Coupled(a, b)
    ensures Both(a, b) == Bridged(a.View(), b.View(), a.from.learned, b.from.learned)
    ensures LoopOk(a.View(), a.from.learned, b.from.seed, b.from.learned)
    ensures LoopOk(b.View(), b.from.learned, a.from.seed, a.from.learned)
  {
  }

  method TakeTurn(a: ForwardLoop, b: ForwardLoop, t: Turn)
    requires Coupled(a, b)
    modifies a, b, a.from, b.from
    ensures Coupled(a, b) && Both(a, b) == Turned(old(Both(a, b)), t, a.from.seed, b.from.seed)
  {
    hide LoopOk;
    hide AfterTurn;
    hide NewlyLearned;
    hide Cell;
    ghost var ngn0, ext0 := a.from.learned, b.from.learned;
    if t.toExt {
      a.Advance(t.arriving, t.sendWorks);
      OtherLearns(b.View(), ext0, a.from.seed, ngn0, a.from.learned);
    } else {
      b.Advance(t.arriving, t.sendWorks);
      OtherLearns(a.View(), ngn0, b.from.seed, ext0, b.from.learned);
    }
  }

  // ---- every turn of a schedule ---------------------------------------------------------------

  /** The loop towards the extension, or the one towards the NGN. */
  function Side(s: Bridged, toExt: bool): Loop {
    if toExt then s.toExt else s.toNgn
  }

  /** The datagrams that the turns of one loop received: one at each turn that found it waiting. */
  ghost function Arrivals(ngnSeed: Option<Addr>, extSeed: Option<Addr>, schedule: seq<Turn>, toExt: bool): seq<Datagram> {
    if schedule == [] then []
    else
      var before, t := schedule[..|schedule| - 1], schedule[|schedule| - 1];
      Arrivals(ngnSeed, extSeed, before, toExt)
      + if t.toExt == toExt && t.arriving.Some? && Side(BridgeAfter(ngnSeed, extSeed, before), toExt).phase.Waiting?
        then [t.arriving.value] else []
  }

  /** Turn `k` of the schedule found a loop waiting and its socket closed. */
  ghost predicate Closes(ngnSeed: Option<Addr>, extSeed: Option<Addr>, schedule: seq<Turn>, toExt: bool, k: int) {
    && 0 <= k < |schedule| && schedule[k].toExt == toExt && schedule[k].arriving.None?
    && Side(BridgeAfter(ngnSeed, extSeed, schedule[..k]), toExt).phase.Waiting?
  }

  /** What one turn does to one loop's intake: only a turn that finds it waiting receives or stops it. */
  lemma IntakeOfTurn(s: Bridged, t: Turn, ngnSeed: Option<Addr>, extSeed: Option<Addr>, toExt: bool)
    ensures var l, l' := Side(s, toExt), Side(Turned(s, t, ngnSeed, extSeed), toExt);
            var mine := t.toExt == toExt && l.phase.Waiting?;
            && l'.received == l.received + (if mine && t.arriving.Some? then [t.arriving.value] else [])
            && (l'.phase.Stopped? <==> l.phase.Stopped? || (mine && t.arriving.None?))
  {
    hide Cell;
  }

  /** Whatever else happens, failed sends included, a loop receives exactly the datagrams that its waiting
      turns find, and it stops exactly when one of those turns finds the socket closed. */
  lemma {:induction false} IntakeExactly(ngnSeed: Option<Addr>, extSeed: Option<Addr>, schedule: seq<Turn>, toExt: bool)
    ensures var l := Side(BridgeAfter(ngnSeed, extSeed, schedule), toExt);
            && l.received == Arrivals(ngnSeed, extSeed, schedule, toExt)
            && (l.phase.Stopped? <==> exists k :: Closes(ngnSeed, extSeed, schedule, toExt, k))
  {
    if schedule == [] {
      assert forall k :: !Closes(ngnSeed, extSeed, schedule, toExt, k);
    } else {
      var n := |schedule| - 1;
      var before := schedule[..n];
      IntakeExactly(ngnSeed, extSeed, before, toExt);
      IntakeOfTurn(BridgeAfter(ngnSeed, extSeed, before), schedule[n], ngnSeed, extSeed, toExt);
      ClosesLater(ngnSeed, extSeed, schedule, toExt);
      hide Turned;
      hide Closes;
    }
  }

  lemma ClosesLater(ngnSeed: Option<Addr>, extSeed: Option<Addr>, schedule: seq<Turn>, toExt: bool)
    requires schedule != []
    ensures var n := |schedule| - 1;
            (exists k :: Closes(ngnSeed, extSeed, schedule, toExt, k)) <==>
            (exists k :: Closes(ngnSeed, extSeed, schedule[..n], toExt, k))
            || (schedule[n].toExt == toExt && schedule[n].arriving.None?
                && Side(BridgeAfter(ngnSeed, extSeed, schedule[..n]), toExt).phase.Waiting?)
  {
    var n := |schedule| - 1;
    forall k
      ensures Closes(ngnSeed, extSeed, schedule, toExt, k) <==>
              Closes(ngnSeed, extSeed, schedule[..n], toExt, k) || (k == n && Closes(ngnSeed, extSeed, schedule, toExt, n))
    {
      if 0 <= k < n {
        assert schedule[..n][..k] == schedule[..k];
      }
    }
    if exists k :: Closes(ngnSeed, extSeed, schedule[..n], toExt, k) {
      var k :| Closes(ngnSeed, extSeed, schedule[..n], toExt, k);
      assert Closes(ngnSeed, extSeed, schedule, toExt, k);
    }
    if Closes(ngnSeed, extSeed, schedule, toExt, n) {
      assert exists k :: Closes(ngnSeed, extSeed, schedule, toExt, k);
    }
  }

  /** The invariant of both loops holds after every schedule. */
  lemma {:induction false} BridgeOk(ngnSeed: Option<Addr>, extSeed: Option<Addr>, schedule: seq<Turn>)
    ensures var s := BridgeAfter(ngnSeed, extSeed, schedule);
            LoopOk(s.toExt, s.ngnLearned, extSeed, s.extLearned) && LoopOk(s.toNgn, s.extLearned, ngnSeed, s.ngnLearned)
  {
    if schedule != [] {
      var s, t := BridgeAfter(ngnSeed, extSeed, schedule[..|schedule| - 1]), schedule[|schedule| - 1];
      BridgeOk(ngnSeed, extSeed, schedule[..|schedule| - 1]);
      hide LoopOk;
      hide AfterTurn;
      hide NewlyLearned;
      if t.toExt {
        TurnKeeps(s.toExt, s.ngnLearned, extSeed, s.extLearned, t);
        OtherLearns(s.toNgn, s.extLearned, ngnSeed, s.ngnLearned, s.ngnLearned + NewlyLearned(s.toExt));
      } else {
        TurnKeeps(s.toNgn, s.extLearned, ngnSeed, s.ngnLearned, t);
        OtherLearns(s.toExt, s.ngnLearned, extSeed, s.extLearned, s.extLearned + NewlyLearned(s.toNgn));
      }
    }
  }

  lemma TurnKeeps(l: Loop, fromLearned: seq<Addr>, toSeed: Option<Addr>, toLearned: seq<Addr>, t: Turn)
    requires LoopOk(l, fromLearned, toSeed, toLearned)
    ensures LoopOk(
      AfterTurn(l, toSeed, toLearned, t.arriving, t.sendWorks), fromLearned + NewlyLearned(l), toSeed, toLearned)
  {
    InHand(l, fromLearned, toSeed, toLearned);
    assert fromLearned + [] == fromLearned;
    hide Cell;
    match l.phase {
      case Waiting =>
        if t.arriving.Some? {
          ReceiveStep(l, t.arriving.value, fromLearned, toSeed, toLearned);
        } else {
          StopStep(l, fromLearned, toSeed, toLearned);
        }
      case Got => LearnStep(l, fromLearned, toSeed, toLearned);
      case Learned => ReadDestStep(l, fromLearned, toSeed, toLearned);
      case HasDest(_, _) => SendStep(l, t.sendWorks, fromLearned, toSeed, toLearned);
      case Uncounted => CountStep(l, fromLearned, toSeed, toLearned);
      case Stopped =>
    }
    hide LoopOk;
    hide AfterSend;
  }

  lemma StopStep(l: Loop, fromLearned: seq<Addr>, toSeed: Option<Addr>, toLearned: seq<Addr>)
    requires LoopOk(l, fromLearned, toSeed, toLearned) && l.phase.Waiting?
    ensures LoopOk(l.(phase := Stopped), fromLearned, toSeed, toLearned)
  {
    hide FatesOk;
  }

  lemma CountStep(l: Loop, fromLearned: seq<Addr>, toSeed: Option<Addr>, toLearned: seq<Addr>)
    requires LoopOk(l, fromLearned, toSeed, toLearned) && l.phase.Uncounted?
    ensures LoopOk(l.(phase := Waiting, counter := l.counter + 1), fromLearned, toSeed, toLearned)
  {
    hide FatesOk;
  }

  /** How many of its datagrams a loop has learned from: all but one that it has just received. */
  function LearnedFrom(l: Loop): int {
    |l.received| - if l.phase.Got? then 1 else 0
  }

  /** Where a loop sends now: to the source of the newest datagram that the other loop has learned from, or
      to the seed of the other leg before there is one. */
  ghost function Target(s: Bridged, toExt: bool, ngnSeed: Option<Addr>, extSeed: Option<Addr>): Option<Addr> {
    var other := Side(s, !toExt);
    var n := LearnedFrom(other);
    if n <= 0 then (if toExt then extSeed else ngnSeed) else Some(other.received[n - 1].source)
  }

  /** Turn `k` reads the destination at that very moment: the loop that has just learned goes on to send to
      the target of the moment, or drops the datagram when there is none. */
  lemma ReadAtTurn(ngnSeed: Option<Addr>, extSeed: Option<Addr>, schedule: seq<Turn>, k: nat)
    requires k < |schedule|
    requires Side(BridgeAfter(ngnSeed, extSeed, schedule[..k]), schedule[k].toExt).phase.Learned?
    ensures var toExt := schedule[k].toExt;
            var s, s' := BridgeAfter(ngnSeed, extSeed, schedule[..k]), BridgeAfter(ngnSeed, extSeed, schedule[..k + 1]);
            var l, l', target := Side(s, toExt), Side(s', toExt), Target(s, toExt, ngnSeed, extSeed);
            && LearnedFrom(Side(s, !toExt)) >= 0
            && (target.Some? ==> l' == l.(phase := HasDest(LearnedFrom(Side(s, !toExt)), target.value)))
            && (target.None? ==>
                  l' == l.(phase := Waiting, fates := l.fates + [NoDestination(LearnedFrom(Side(s, !toExt)))]))
  {
    BridgeNext(ngnSeed, extSeed, schedule, k);
    BridgeOk(ngnSeed, extSeed, schedule[..k]);
    var toExt, s := schedule[k].toExt, BridgeAfter(ngnSeed, extSeed, schedule[..k]);
    TargetIs(s, toExt, ngnSeed, extSeed);
    var toSeed, toLearned := if toExt then extSeed else ngnSeed, if toExt then s.extLearned else s.ngnLearned;
    ReadTurn(Side(s, toExt), toSeed, toLearned, schedule[k]);
    hide *;
    assert Side(Turned(s, schedule[k], ngnSeed, extSeed), toExt)
        == AfterTurn(Side(s, toExt), toSeed, toLearned, schedule[k].arriving, schedule[k].sendWorks) by {
      TurnOf(s, schedule[k], ngnSeed, extSeed);
    }
  }

  lemma TurnOf(s: Bridged, t: Turn, ngnSeed: Option<Addr>, extSeed: Option<Addr>)
    ensures Side(Turned(s, t, ngnSeed, extSeed), t.toExt)
         == AfterTurn(
              Side(s, t.toExt), if t.toExt then extSeed else ngnSeed, if t.toExt then s.extLearned else s.ngnLearned,
              t.arriving, t.sendWorks)
  {
  }

  lemma TargetIs(s: Bridged, toExt: bool, ngnSeed: Option<Addr>, extSeed: Option<Addr>)
    requires LoopOk(s.toExt, s.ngnLearned, extSeed, s.extLearned)
    requires LoopOk(s.toNgn, s.extLearned, ngnSeed, s.ngnLearned)
    ensures var toLearned := if toExt then s.extLearned else s.ngnLearned;
            && LearnedFrom(Side(s, !toExt)) == |toLearned|
            && Target(s, toExt, ngnSeed, extSeed)
               == if toLearned == [] then (if toExt then extSeed else ngnSeed) else Some(toLearned[|toLearned| - 1])
  {
    LearnedIs(s.toExt, s.ngnLearned, extSeed, s.extLearned);
    LearnedIs(s.toNgn, s.extLearned, ngnSeed, s.ngnLearned);
    hide LoopOk;
  }

  lemma ReadTurn(l: Loop, toSeed: Option<Addr>, toLearned: seq<Addr>, t: Turn)
    requires l.phase.Learned?
    ensures var target := if toLearned == [] then toSeed else Some(toLearned[|toLearned| - 1]);
            AfterTurn(l, toSeed, toLearned, t.arriving, t.sendWorks)
            == if target.Some? then l.(phase := HasDest(|toLearned|, target.value))
               else l.(phase := Waiting, fates := l.fates + [NoDestination(|toLearned|)])
  {
  }

  lemma LearnedIs(l: Loop, fromLearned: seq<Addr>, toSeed: Option<Addr>, toLearned: seq<Addr>)
    requires LoopOk(l, fromLearned, toSeed, toLearned)
    ensures |fromLearned| == LearnedFrom(l)
    ensures fromLearned != [] ==> fromLearned[|fromLearned| - 1] == l.received[LearnedFrom(l) - 1].source
  {
    hide FatesOk;
    hide Deliveries;
    hide Forwards;
  }

  /** Turn `k` sends: the datagram in hand, unmodified, to the destination read for it. A failed send leaves
      wire and counter alone, and the loop waits for the next datagram. */
  lemma SendAtTurn(ngnSeed: Option<Addr>, extSeed: Option<Addr>, schedule: seq<Turn>, k: nat)
    requires k < |schedule|
    requires Side(BridgeAfter(ngnSeed, extSeed, schedule[..k]), schedule[k].toExt).phase.HasDest?
    ensures var t := schedule[k];
            var s, s' := BridgeAfter(ngnSeed, extSeed, schedule[..k]), BridgeAfter(ngnSeed, extSeed, schedule[..k + 1]);
            var l, l' := Side(s, t.toExt), Side(s', t.toExt);
            && l.received != [] && l'.received == l.received && l'.counter == l.counter
            && (t.sendWorks ==>
                  && l'.wire == l.wire + [Delivery(l.received[|l.received| - 1].bytes, l.phase.dest)]
                  && l'.phase == Uncounted)
            && (!t.sendWorks ==> l'.wire == l.wire && l'.phase == Waiting)
  {
    BridgeNext(ngnSeed, extSeed, schedule, k);
    BridgeOk(ngnSeed, extSeed, schedule[..k]);
    var s := BridgeAfter(ngnSeed, extSeed, schedule[..k]);
    InHand(s.toExt, s.ngnLearned, extSeed, s.extLearned);
    InHand(s.toNgn, s.extLearned, ngnSeed, s.ngnLearned);
    var t := schedule[k];
    SendTurn(Side(s, t.toExt), if t.toExt then extSeed else ngnSeed, if t.toExt then s.extLearned else s.ngnLearned, t);
    hide LoopOk;
    hide AfterTurn;
    hide NewlyLearned;
    hide BridgeAfter;
  }

  lemma SendTurn(l: Loop, toSeed: Option<Addr>, toLearned: seq<Addr>, t: Turn)
    requires l.phase.HasDest? && l.received != []
    ensures var l' := AfterTurn(l, toSeed, toLearned, t.arriving, t.sendWorks);
            && l'.received == l.received && l'.counter == l.counter
            && (t.sendWorks ==>
                  && l'.wire == l.wire + [Delivery(l.received[|l.received| - 1].bytes, l.phase.dest)]
                  && l'.phase == Uncounted)
            && (!t.sendWorks ==> l'.wire == l.wire && l'.phase == Waiting)
  {
  }

  // ---- what the invariant means for one direction --------------------------------------------

  ghost function NoDestinations(fates: seq<Fate>): nat {
    if fates == [] then 0
    else NoDestinations(fates[..|fates| - 1]) + if fates[|fates| - 1].NoDestination? then 1 else 0
  }

  ghost function SendFailures(fates: seq<Fate>): nat {
    if fates == [] then 0
    else SendFailures(fates[..|fates| - 1]) + if fates[|fates| - 1].SendFailed? then 1 else 0
  }

  lemma {:induction false} FatesAddUp(fates: seq<Fate>)
    ensures |fates| == Forwards(fates) + NoDestinations(fates) + SendFailures(fates)
  {
    if fates != [] {
      FatesAddUp(fates[..|fates| - 1]);
    }
  }

  /** Received = forwarded + dropped for want of a destination + failed sends, up to the one in hand;
      the counter is the number of forwards, up to the one not yet counted. */
  lemma Conservation(l: Loop, fromLearned: seq<Addr>, toSeed: Option<Addr>, toLearned: seq<Addr>)
    requires LoopOk(l, fromLearned, toSeed, toLearned)
    ensures var inHand := |l.received| - |l.fates|;
            && 0 <= inHand <= 1 && (l.phase.Waiting? || l.phase.Stopped? ==> inHand == 0)
            && |l.received| == Forwards(l.fates) + NoDestinations(l.fates) + SendFailures(l.fates) + inHand
    ensures l.counter <= Forwards(l.fates) <= l.counter + 1
    ensures l.phase.Waiting? || l.phase.Stopped? ==> l.counter == Forwards(l.fates) == |l.wire|
  {
    FatesAddUp(l.fates);
    WireCount(l.received, l.fates);
  }

  lemma {:induction false} WireCount(received: seq<Datagram>, fates: seq<Fate>)
    requires |fates| <= |received|
    ensures |Deliveries(received, fates)| == Forwards(fates)
  {
    if fates != [] {
      WireCount(received, fates[..|fates| - 1]);
    }
  }

  /** Drops for want of a destination are a prefix of the history of the direction. */
  lemma DropsArePrefix(l: Loop, fromLearned: seq<Addr>, toSeed: Option<Addr>, toLearned: seq<Addr>, i: nat, j: nat)
    requires LoopOk(l, fromLearned, toSeed, toLearned)
    requires i <= j < |l.fates| && l.fates[j].NoDestination?
    ensures l.fates[i].NoDestination?
  {
    assert Justified(l.fates[i], toSeed, toLearned) && Justified(l.fates[j], toSeed, toLearned);
    assert l.fates[i].readAt <= l.fates[j].readAt;
  }

  /** Each forwarded datagram went to the address of the newest datagram that the other loop had
      learned from when the cell was read, or to the seed when there was none. */
  lemma DestinationIsNewest(
    l: Loop, other: Loop, fromLearned: seq<Addr>, toSeed: Option<Addr>, toLearned: seq<Addr>, fromSeed: Option<Addr>, i: nat)
    requires LoopOk(l, fromLearned, toSeed, toLearned) && LoopOk(other, toLearned, fromSeed, fromLearned)
    requires i < |l.fates| && l.fates[i].Forwarded?
    ensures var at := l.fates[i].readAt;
            && at <= |other.received|
            && Some(l.fates[i].dest) == if at == 0 then toSeed else Some(other.received[at - 1].source)
  {
    assert Justified(l.fates[i], toSeed, toLearned);
    var at := l.fates[i].readAt;
    if at > 0 {
      assert toLearned[..at][at - 1] == toLearned[at - 1] == Sources(other.received)[at - 1];
    }
  }

  /** The wire is an in-order, unmodified subsequence of what was received: `at` gives the positions. */
  lemma {:induction false} WireIsSubsequence(received: seq<Datagram>, fates: seq<Fate>) returns (at: seq<nat>)
    requires |fates| <= |received|
    ensures |at| == |Deliveries(received, fates)|
    ensures forall k :: 0 <= k < |at| ==>
      at[k] < |fates| && fates[at[k]].Forwarded?
      && Deliveries(received, fates)[k] == Delivery(received[at[k]].bytes, fates[at[k]].dest)
    ensures forall k, m :: 0 <= k < m < |at| ==> at[k] < at[m]
  {
    at := [];
    if fates != [] {
      var n := |fates| - 1;
      at := WireIsSubsequence(received, fates[..n]);
      if fates[n].Forwarded? {
        at := at + [n];
      }
    }
  }
}
