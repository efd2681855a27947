/** `fork_to_extensions`: the collector that takes the first answering leg of a forked INVITE. */
module ForkCollector {
  import opened Prelude

  /** The outcome one worker sends for its target. `plan` and dialog objects play no part. */
  datatype LegOutcome = Established(response: string) | Failed(status: u16) | Errored

  datatype Receipt = Receipt(target: string, outcome: LegOutcome)

  datatype ForkResult =
    | Answered(winner: string, response: string)
    | AllFailed(lastStatus: Option<u16>)
    | Timeout

  ghost function TargetsOf(arrivals: seq<Receipt>): multiset<string> {
    if arrivals == [] then multiset{} else TargetsOf(arrivals[..|arrivals| - 1]) + multiset{arrivals[|arrivals| - 1].target}
  }

  /** Outcomes reach the channel from spawned workers: at most one per target. */
  ghost predicate FromWorkers(arrivals: seq<Receipt>, targets: seq<string>) {
    TargetsOf(arrivals) <= multiset(targets)
  }

  /** The last `Failed` status, ignoring transport errors. */
  function LastStatus(arrivals: seq<Receipt>): Option<u16> {
    if arrivals == [] then None
    else match arrivals[|arrivals| - 1].outcome
      case Failed(status) => Some(status)
      case _ => LastStatus(arrivals[..|arrivals| - 1])
  }

  /** None when no worker reported a status, else the status of the last report that carries one. */
  lemma {:induction false} LastStatusIs(arrivals: seq<Receipt>)
    ensures LastStatus(arrivals).None? ==> forall i :: 0 <= i < |arrivals| ==> !arrivals[i].outcome.Failed?
    ensures LastStatus(arrivals).Some? ==>
      exists i :: 0 <= i < |arrivals| && arrivals[i].outcome == Failed(LastStatus(arrivals).value)
        && forall j :: i < j < |arrivals| ==> !arrivals[j].outcome.Failed?
  {
    if arrivals != [] && !arrivals[|arrivals| - 1].outcome.Failed? {
      LastStatusIs(arrivals[..|arrivals| - 1]);
    }
  }

  ghost predicate NoAnswer(arrivals: seq<Receipt>) {
    forall i :: 0 <= i < |arrivals| ==> !arrivals[i].outcome.Established?
  }

  lemma {:induction false} TargetCount(arrivals: seq<Receipt>)
    ensures |TargetsOf(arrivals)| == |arrivals|
  {
    if arrivals != [] {
      TargetCount(arrivals[..|arrivals| - 1]);
    }
  }

  lemma {:induction false} TargetHasReceipt(arrivals: seq<Receipt>, target: string)
    requires target in TargetsOf(arrivals)
    ensures exists i :: 0 <= i < |arrivals| && arrivals[i].target == target
  {
    var n := |arrivals| - 1;
    if arrivals[n].target != target {
      TargetHasReceipt(arrivals[..n], target);
    }
  }

  lemma SameSizeSubset<T>(a: multiset<T>, b: multiset<T>)
    requires a <= b && |a| == |b|
    ensures a == b
  {
    assert b == a + (b - a);
    assert |b - a| == 0;
  }

  /** When as many outcomes arrived as there are targets, every target sent one. */
  lemma EveryTargetArrived(arrivals: seq<Receipt>, targets: seq<string>, target: string)
    requires FromWorkers(arrivals, targets) && |arrivals| == |targets| && target in targets
    ensures exists i :: 0 <= i < |arrivals| && arrivals[i].target == target
  {
    TargetCount(arrivals);
    SameSizeSubset(TargetsOf(arrivals), multiset(targets));
    assert target in multiset(targets);
    TargetHasReceipt(arrivals, target);
  }

  ghost predicate FailedLeg(arrivals: seq<Receipt>, target: string) {
    exists i :: 0 <= i < |arrivals| && arrivals[i].target == target && !arrivals[i].outcome.Established?
  }

  lemma EveryTargetFailed(arrivals: seq<Receipt>, targets: seq<string>)
    requires FromWorkers(arrivals, targets) && |arrivals| == |targets| && NoAnswer(arrivals)
    ensures forall t :: t in targets ==> FailedLeg(arrivals, t)
  {
    forall t | t in targets
      ensures FailedLeg(arrivals, t)
    {
      EveryTargetArrived(arrivals, targets, t);
    }
  }

  /** `arrivals` is the order in which outcomes reach the channel, complete once every worker has
      ended; `expiry` is the turn of the loop at which the deadline wins. `received` counts receipts. */
  method Collect(targets: seq<string>, arrivals: seq<Receipt>, expiry: nat)
    returns (r: ForkResult, received: nat, closedExit: bool)
    requires FromWorkers(arrivals, targets)
    // The first answering leg in arrival order wins, and only a leg that answered can win.
    ensures r.Answered? <==>
      exists k :: 0 <= k < |arrivals| && k < expiry && arrivals[k].outcome.Established?
    ensures r.Answered? ==>
      && 0 < received <= |arrivals|
      && arrivals[received - 1] == Receipt(r.winner, Established(r.response))
      && forall i :: 0 <= i < received - 1 ==> !arrivals[i].outcome.Established?
    // All-failed needs a failing outcome from every worker that will ever send one.
    ensures r.AllFailed? <==>
      || targets == []
      || ((forall i :: 0 <= i < |arrivals| ==> !arrivals[i].outcome.Established?)
          && (if |arrivals| == |targets| then |arrivals| <= expiry else |arrivals| < expiry))
    ensures r.AllFailed? ==> received == |arrivals| && r.lastStatus == LastStatus(arrivals)
    ensures r.AllFailed? && |arrivals| == |targets| ==>
      forall t :: t in targets ==> FailedLeg(arrivals, t)
    ensures r.Timeout? ==>
      && received == expiry <= |arrivals|
      && forall i :: 0 <= i < received ==> !arrivals[i].outcome.Established?
    // Bounded, and never through the closed channel unless a worker died silently.
    ensures received <= |targets|
    ensures closedExit ==> |arrivals| < |targets|
  {
    AtMostOneEach(arrivals, targets);
    hide FromWorkers;
    hide FailedLeg;
    received, closedExit := 0, false;
    if targets == [] {
      return AllFailed(None), 0, false;
    }
    var total := |targets|;
    var lastStatus: Option<u16> := None;
    while true
      invariant received <= |arrivals| && received < total && received <= expiry
      invariant forall i :: 0 <= i < received ==> !arrivals[i].outcome.Established?
      invariant lastStatus == LastStatus(arrivals[..received])
      invariant !closedExit
      decreases total - received
    {
      if received == expiry {
        return Timeout, received, false;
      }
      if received == |arrivals| {
        closedExit := true;
        break;
      }
      var next := arrivals[received];
      TakeNext(arrivals, received);
      received := received + 1;
      match next.outcome {
        case Established(response) =>
          return Answered(next.target, response), received, false;
        case Failed(status) =>
          lastStatus := Some(status);
        case Errored =>
      }
      if received >= total {
        break;
      }
    }
    assert arrivals[..|arrivals|] == arrivals;
    r := AllFailed(lastStatus);
    if |arrivals| == |targets| {
      EveryTargetFailed(arrivals, targets);
    }
  }

  lemma AtMostOneEach(arrivals: seq<Receipt>, targets: seq<string>)
    requires FromWorkers(arrivals, targets)
    ensures |arrivals| <= |targets|
  {
    TargetCount(arrivals);
    SubsetSize(TargetsOf(arrivals), multiset(targets));
    assert |multiset(targets)| == |targets|;
  }

  lemma SubsetSize<T>(a: multiset<T>, b: multiset<T>)
    requires a <= b
    ensures |a| <= |b|
  {
    assert b == a + (b - a);
  }
}
