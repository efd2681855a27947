/** Extension-to-extension calls: the doubly indexed registry and its racy admission check. */
module Intercom {
  import opened Prelude

  datatype InternalCall = InternalCall(
    callerCallId: string,
    calleeCallId: string,
    callerAor: string,
    calleeAor: string,
    bridgeCallId: nat)

  type ByCaller = map<string, InternalCall>
  type CalleeIndex = map<string, string>

  // ---- the two indices as one set of calls --------------------------------------

  /** The indices are inverse to each other: every call is reachable from both of its Call-IDs. */
  ghost predicate Mirrored(table: ByCaller, index: CalleeIndex) {
    && (forall c :: c in table ==> table[c].callerCallId == c && table[c].calleeCallId in index && index[table[c].calleeCallId] == c)
    && (forall d :: d in index ==> index[d] in table && table[index[d]].calleeCallId == d)
  }

  ghost function Calls(table: ByCaller): set<InternalCall> {
    set c | c in table :: table[c]
  }

  /** No live call uses either Call-ID of `e`. */
  ghost predicate Fresh(calls: set<InternalCall>, e: InternalCall) {
    forall x :: x in calls ==> x.callerCallId != e.callerCallId && x.calleeCallId != e.calleeCallId
  }

  /** Inserting `e` keeps the indices inverse: each of its Call-IDs is new, or the pair is re-inserted. */
  ghost predicate Admissible(table: ByCaller, index: CalleeIndex, e: InternalCall) {
    && (e.callerCallId in table ==> table[e.callerCallId].calleeCallId == e.calleeCallId)
    && (e.calleeCallId in index ==> index[e.calleeCallId] == e.callerCallId)
  }

  /** Which inserts keep the indices inverse: exactly the admissible ones. */
  lemma InsertMirrored(table: ByCaller, index: CalleeIndex, e: InternalCall)
    requires Mirrored(table, index)
    ensures Mirrored(table[e.callerCallId := e], index[e.calleeCallId := e.callerCallId]) <==> Admissible(table, index, e)
  {
    var table', index' := table[e.callerCallId := e], index[e.calleeCallId := e.callerCallId];
    if Mirrored(table', index') {
      if e.callerCallId in table {
        var d := table[e.callerCallId].calleeCallId;
        assert d in index';
      }
      if e.calleeCallId in index {
        var c := index[e.calleeCallId];
        assert c in table';
      }
    }
  }

  lemma FreshIsAdmissible(table: ByCaller, index: CalleeIndex, e: InternalCall)
    requires Mirrored(table, index) && Fresh(Calls(table), e)
    ensures Admissible(table, index, e) && e.callerCallId !in table && e.calleeCallId !in index
    ensures Calls(table[e.callerCallId := e]) == Calls(table) + {e}
  {
    assert forall c :: c in table ==> table[c] in Calls(table);
    assert forall d :: d in index ==> table[index[d]].calleeCallId == d;
    var table' := table[e.callerCallId := e];
    forall x | x in Calls(table) + {e}
      ensures x in Calls(table')
    {
      if x == e {
        assert table'[e.callerCallId] == e;
      } else {
        var c :| c in table && table[c] == x;
        assert table'[c] == x;
      }
    }
  }

  ghost predicate Keyed(table: ByCaller) {
    forall c :: c in table ==> table[c].callerCallId == c
  }

  lemma RemoveCalls(table: ByCaller, c: string)
    requires Keyed(table) && c in table
    ensures Calls(table - {c}) == Calls(table) - {table[c]} && table[c] in Calls(table)
  {
    var table' := table - {c};
    forall x | x in Calls(table) - {table[c]}
      ensures x in Calls(table')
    {
      var k :| k in table && table[k] == x;
      assert table'[k] == x;
    }
  }

  /** Removing one call from both indices keeps them inverse and removes exactly that call. */
  lemma RemoveMirrored(table: ByCaller, index: CalleeIndex, c: string)
    requires Mirrored(table, index) && c in table
    ensures Mirrored(table - {c}, index - {table[c].calleeCallId})
    ensures Calls(table - {c}) == Calls(table) - {table[c]}
  {
    RemoveCalls(table, c);
  }

  lemma {:induction false} CallCount(table: ByCaller)
    requires Keyed(table)
    ensures |Calls(table)| == |table|
    decreases |table|
  {
    if table == map[] {
      assert Calls(table) == {};
    } else {
      var c :| c in table;
      var rest := table - {c};
      assert table.Keys == rest.Keys + {c};
      CallCount(rest);
      RemoveCalls(table, c);
    }
  }

  /** The live call found from either end is the same one. */
  lemma LookupsAgree(table: ByCaller, index: CalleeIndex, e: InternalCall)
    requires Mirrored(table, index) && e in Calls(table)
    ensures e.callerCallId in table && table[e.callerCallId] == e
    ensures e.calleeCallId in index && index[e.calleeCallId] == e.callerCallId
  {
    var c :| c in table && table[c] == e;
  }

  /** Reusing a caller's Call-ID leaves a stale callee entry that outlives the call. */
  lemma StaleIndex(table: ByCaller, index: CalleeIndex, first: InternalCall, second: InternalCall)
    requires Mirrored(table, index) && Fresh(Calls(table), first)
    requires second.callerCallId == first.callerCallId && second.calleeCallId != first.calleeCallId
    ensures var table' := table[first.callerCallId := first][second.callerCallId := second] - {second.callerCallId};
            var index' := index[first.calleeCallId := first.callerCallId]
              [second.calleeCallId := second.callerCallId] - {second.calleeCallId};
            first.calleeCallId in index' && index'[first.calleeCallId] !in table'
  {
  }

  class InternalCallRegistry {
    var byCaller: ByCaller
    var calleeToCaller: CalleeIndex

    ghost predicate Consistent()
      reads this
    {
      Mirrored(byCaller, calleeToCaller)
    }

    constructor ()
      ensures Consistent() && byCaller == map[] && calleeToCaller == map[]
    {
      byCaller, calleeToCaller := map[], map[];
    }

    method Insert(entry: InternalCall)
      modifies this
      ensures byCaller == old(byCaller)[entry.callerCallId := entry]
      ensures calleeToCaller == old(calleeToCaller)[entry.calleeCallId := entry.callerCallId]
      ensures old(Consistent()) ==> (Consistent() <==> Admissible(old(byCaller), old(calleeToCaller), entry))
      ensures old(Consistent()) && Fresh(Calls(old(byCaller)), entry) ==>
        Consistent() && Calls(byCaller) == Calls(old(byCaller)) + {entry}
    {
      if Consistent() {
        InsertMirrored(byCaller, calleeToCaller, entry);
        if Fresh(Calls(byCaller), entry) {
          FreshIsAdmissible(byCaller, calleeToCaller, entry);
        }
      }
      calleeToCaller := calleeToCaller[entry.calleeCallId := entry.callerCallId];
      byCaller := byCaller[entry.callerCallId := entry];
    }

    method LookupByCaller(callerCallId: string) returns (r: Option<InternalCall>)
      ensures r == Registry(byCaller, calleeToCaller).Find(ByCallerId(callerCallId))
      ensures Consistent() ==> IsAnswer(Calls(byCaller), ByCallerId(callerCallId), r)
    {
      r := if callerCallId in byCaller then Some(byCaller[callerCallId]) else None;
      if Consistent() {
        AnswerByCaller(byCaller, calleeToCaller, callerCallId);
      }
    }

    method LookupByCallee(calleeCallId: string) returns (r: Option<InternalCall>)
      ensures r == Registry(byCaller, calleeToCaller).Find(ByCalleeId(calleeCallId))
      ensures Consistent() ==> IsAnswer(Calls(byCaller), ByCalleeId(calleeCallId), r)
    {
      r := None;
      if calleeCallId in calleeToCaller {
        var callerId := calleeToCaller[calleeCallId];
        r := if callerId in byCaller then Some(byCaller[callerId]) else None;
      }
      if Consistent() {
        AnswerByCallee(byCaller, calleeToCaller, calleeCallId);
      }
    }

    method RemoveByCaller(callerCallId: string) returns (r: Option<InternalCall>)
      modifies this
      ensures r == Registry(old(byCaller), old(calleeToCaller)).Find(ByCallerId(callerCallId))
      ensures byCaller == old(byCaller) - {callerCallId}
      ensures calleeToCaller == if callerCallId in old(byCaller)
        then old(calleeToCaller) - {old(byCaller)[callerCallId].calleeCallId} else old(calleeToCaller)
      ensures old(Consistent()) ==>
        && Consistent()
        && IsAnswer(Calls(old(byCaller)), ByCallerId(callerCallId), r)
        && Calls(byCaller) == Without(Calls(old(byCaller)), r)
    {
      if Consistent() {
        AnswerByCaller(byCaller, calleeToCaller, callerCallId);
      }
      if callerCallId !in byCaller {
        assert byCaller - {callerCallId} == byCaller;
        return None;
      }
      var entry := byCaller[callerCallId];
      if Consistent() {
        RemoveMirrored(byCaller, calleeToCaller, callerCallId);
      }
      byCaller := byCaller - {callerCallId};
      calleeToCaller := calleeToCaller - {entry.calleeCallId};
      r := Some(entry);
    }

    method RemoveByCallee(calleeCallId: string) returns (r: Option<InternalCall>)
      modifies this
      ensures r == Registry(old(byCaller), old(calleeToCaller)).Find(ByCalleeId(calleeCallId))
      ensures calleeToCaller == old(calleeToCaller) - {calleeCallId}
      ensures byCaller == if calleeCallId in old(calleeToCaller)
        then old(byCaller) - {old(calleeToCaller)[calleeCallId]} else old(byCaller)
      ensures old(Consistent()) ==>
        && Consistent()
        && IsAnswer(Calls(old(byCaller)), ByCalleeId(calleeCallId), r)
        && Calls(byCaller) == Without(Calls(old(byCaller)), r)
    {
      if Consistent() {
        AnswerByCallee(byCaller, calleeToCaller, calleeCallId);
      }
      if calleeCallId !in calleeToCaller {
        assert calleeToCaller - {calleeCallId} == calleeToCaller;
        return None;
      }
      var callerId := calleeToCaller[calleeCallId];
      if Consistent() {
        RemoveMirrored(byCaller, calleeToCaller, callerId);
      }
      calleeToCaller := calleeToCaller - {calleeCallId};
      r := if callerId in byCaller then Some(byCaller[callerId]) else None;
      byCaller := byCaller - {callerId};
    }

    method Len() returns (n: nat)
      ensures n == |byCaller|
      ensures Consistent() ==> n == |Calls(byCaller)|
    {
      n := |byCaller|;
      if Consistent() {
        CallCount(byCaller);
      }
    }

    method CanAccept(max: nat) returns (b: bool)
      ensures b <==> |byCaller| < max
    {
      b := |byCaller| < max;
    }
  }

  /** A question to the registry, by one Call-ID. */
  datatype Key = ByCallerId(id: string) | ByCalleeId(id: string)

  predicate Matches(x: InternalCall, key: Key) {
    match key
    case ByCallerId(id) => x.callerCallId == id
    case ByCalleeId(id) => x.calleeCallId == id
  }

  /** The right answer over a plain set: the matching call, or `None` when there is none. */
  ghost predicate IsAnswer(calls: set<InternalCall>, key: Key, r: Option<InternalCall>) {
    match r
    case Some(x) => x in calls && Matches(x, key)
    case None => forall x :: x in calls ==> !Matches(x, key)
  }

  ghost function Without(calls: set<InternalCall>, r: Option<InternalCall>): set<InternalCall> {
    if r.Some? then calls - {r.value} else calls
  }

  lemma AnswerByCaller(table: ByCaller, index: CalleeIndex, id: string)
    requires Mirrored(table, index)
    ensures IsAnswer(Calls(table), ByCallerId(id), Registry(table, index).Find(ByCallerId(id)))
  {
    forall x | x in Calls(table)
      ensures x.callerCallId in table && table[x.callerCallId] == x
    {
      LookupsAgree(table, index, x);
    }
  }

  lemma AnswerByCallee(table: ByCaller, index: CalleeIndex, id: string)
    requires Mirrored(table, index)
    ensures id in index ==> index[id] in table
    ensures IsAnswer(Calls(table), ByCalleeId(id), Registry(table, index).Find(ByCalleeId(id)))
  {
    forall x | x in Calls(table)
      ensures x.calleeCallId in index
    {
      LookupsAgree(table, index, x);
    }
  }

  // ---- whole runs of the registry ------------------------------------------------

  datatype Op = Insert(entry: InternalCall) | Lookup(key: Key) | Remove(key: Key)

  /** Both indices. */
  datatype Registry = Registry(table: ByCaller, index: CalleeIndex) {
    function Find(key: Key): Option<InternalCall> {
      match key
      case ByCallerId(id) => if id in table then Some(table[id]) else None
      case ByCalleeId(id) => if id in index && index[id] in table then Some(table[index[id]]) else None
    }

    function After(op: Op): Registry {
      match op
      case Insert(e) => Registry(table[e.callerCallId := e], index[e.calleeCallId := e.callerCallId])
      case Lookup(_) => this
      case Remove(ByCallerId(id)) => if id in table then Registry(table - {id}, index - {table[id].calleeCallId}) else this
      case Remove(ByCalleeId(id)) => if id in index then Registry(table - {index[id]}, index - {id}) else this
    }

    ghost predicate Consistent() {
      Mirrored(table, index)
    }
  }

  ghost function RegistryAfter(ops: seq<Op>): Registry {
    if ops == [] then Registry(map[], map[]) else RegistryAfter(ops[..|ops| - 1]).After(ops[|ops| - 1])
  }

  /** The registry before operation `k`. */
  ghost function RegistryAt(ops: seq<Op>, k: nat): Registry
    requires k <= |ops|
  {
    RegistryAfter(ops[..k])
  }

  /** What operation `k` answers: a lookup or a removal the call found, an insert nothing. */
  ghost function Reply(ops: seq<Op>, k: nat): Option<InternalCall>
    requires k < |ops|
  {
    if ops[k].Insert? then None else RegistryAt(ops, k).Find(ops[k].key)
  }

  lemma RegistryNext(ops: seq<Op>, k: nat)
    requires k < |ops|
    ensures RegistryAt(ops, k + 1) == RegistryAt(ops, k).After(ops[k])
  {
    assert ops[..k + 1][..k] == ops[..k];
  }

  /** Operation `k` keeps the indices inverse: it is no insert, or an admissible one where it happens. */
  ghost predicate Sane(ops: seq<Op>, k: nat)
    requires k < |ops|
  {
    ops[k].Insert? ==> Admissible(RegistryAt(ops, k).table, RegistryAt(ops, k).index, ops[k].entry)
  }

  lemma SaneStep(r: Registry, op: Op)
    requires r.Consistent()
    ensures r.After(op).Consistent() <==> (op.Insert? ==> Admissible(r.table, r.index, op.entry))
  {
    match op {
      case Insert(e) => InsertMirrored(r.table, r.index, e);
      case Lookup(_) =>
      case Remove(ByCallerId(id)) =>
        if id in r.table {
          RemoveMirrored(r.table, r.index, id);
        }
      case Remove(ByCalleeId(id)) =>
        if id in r.index {
          RemoveMirrored(r.table, r.index, r.index[id]);
        }
    }
    hide Mirrored;
  }

  /** The indices stay inverse through a whole run exactly when every insert is admissible where it
      happens: each of its Call-IDs is new there, or both name the same live call. */
  lemma {:induction false} ConsistentIff(ops: seq<Op>, n: nat)
    requires n <= |ops|
    ensures (forall k :: 0 <= k <= n ==> RegistryAt(ops, k).Consistent()) <==> forall k :: 0 <= k < n ==> Sane(ops, k)
  {
    if n == 0 {
      assert RegistryAt(ops, 0) == Registry(map[], map[]);
    } else {
      var r := RegistryAt(ops, n - 1);
      assert Sane(ops, n - 1) <==> (ops[n - 1].Insert? ==> Admissible(r.table, r.index, ops[n - 1].entry));
      hide *;
      ConsistentIff(ops, n - 1);
      RegistryNext(ops, n - 1);
      if r.Consistent() {
        SaneStep(r, ops[n - 1]);
      }
    }
  }

  ghost predicate SaneRun(ops: seq<Op>) {
    forall k :: 0 <= k < |ops| ==> Sane(ops, k)
  }

  /** What a run does to a plain set of calls: an insert replaces the call with the same Call-ID. */
  ghost function SpecStep(calls: set<InternalCall>, op: Op): set<InternalCall> {
    match op
    case Insert(e) => (set x | x in calls && x.callerCallId != e.callerCallId) + {e}
    case Lookup(_) => calls
    case Remove(key) => set x | x in calls && !Matches(x, key)
  }

  ghost function SpecRun(ops: seq<Op>): set<InternalCall> {
    if ops == [] then {} else SpecStep(SpecRun(ops[..|ops| - 1]), ops[|ops| - 1])
  }

  lemma SpecRunNext(ops: seq<Op>, k: nat)
    requires k < |ops|
    ensures SpecRun(ops[..k + 1]) == SpecStep(SpecRun(ops[..k]), ops[k])
  {
    assert ops[..k + 1][..k] == ops[..k];
  }

  lemma FindAnswers(r: Registry, key: Key)
    requires r.Consistent()
    ensures IsAnswer(Calls(r.table), key, r.Find(key))
  {
    match key {
      case ByCallerId(id) => AnswerByCaller(r.table, r.index, id);
      case ByCalleeId(id) => AnswerByCallee(r.table, r.index, id);
    }
  }

  lemma InsertReplaces(table: ByCaller, e: InternalCall)
    requires Keyed(table)
    ensures Calls(table[e.callerCallId := e]) == SpecStep(Calls(table), Insert(e))
  {
    var table' := table[e.callerCallId := e];
    forall x | x in SpecStep(Calls(table), Insert(e))
      ensures x in Calls(table')
    {
      if x == e {
        assert table'[e.callerCallId] == e;
      } else {
        var c :| c in table && table[c] == x;
        assert table'[c] == x;
      }
    }
  }

  lemma RemovesOne(r: Registry, key: Key)
    requires r.Consistent()
    ensures Calls(r.After(Remove(key)).table) == SpecStep(Calls(r.table), Remove(key))
  {
    FindAnswers(r, key);
    MirroredIsSeparate(r.table, r.index);
    WithoutIsSpec(Calls(r.table), key, r.Find(key));
    match key {
      case ByCallerId(id) =>
        if id in r.table {
          RemoveMirrored(r.table, r.index, id);
        }
      case ByCalleeId(id) =>
        if id in r.index {
          RemoveMirrored(r.table, r.index, r.index[id]);
        }
    }
    hide Calls;
    hide IsAnswer;
    hide Separate;
    hide SpecStep;
  }

  ghost predicate Separate(calls: set<InternalCall>) {
    forall x, y :: x in calls && y in calls && (x.callerCallId == y.callerCallId || x.calleeCallId == y.calleeCallId) ==> x == y
  }

  lemma MirroredIsSeparate(table: ByCaller, index: CalleeIndex)
    requires Mirrored(table, index)
    ensures Separate(Calls(table))
  {
  }

  lemma WithoutIsSpec(calls: set<InternalCall>, key: Key, r: Option<InternalCall>)
    requires Separate(calls) && IsAnswer(calls, key, r)
    ensures Without(calls, r) == SpecStep(calls, Remove(key))
  {
  }

  /** While its inserts are admissible the registry holds exactly the calls of the plain set. */
  lemma {:induction false} RefinesSet(ops: seq<Op>, n: nat)
    requires n <= |ops| && forall k :: 0 <= k < n ==> Sane(ops, k)
    ensures RegistryAt(ops, n).Consistent() && Calls(RegistryAt(ops, n).table) == SpecRun(ops[..n])
  {
    if n == 0 {
      assert ops[..0] == [];
    } else {
      var r, op := RegistryAt(ops, n - 1), ops[n - 1];
      RefinesSet(ops, n - 1);
      ConsistentIff(ops, n);
      RegistryNext(ops, n - 1);
      SpecRunNext(ops, n - 1);
      hide RegistryAt;
      hide Sane;
      match op {
        case Insert(e) => InsertReplaces(r.table, e);
        case Lookup(_) =>
        case Remove(key) => RemovesOne(r, key);
      }
      hide Calls;
      hide SpecStep;
      hide SpecRun;
    }
  }

  /** Call-IDs that no live call uses when they are inserted are always admissible. */
  lemma {:induction false} FreshIsSane(ops: seq<Op>, n: nat)
    requires n <= |ops| && forall k :: 0 <= k < n && ops[k].Insert? ==> Fresh(SpecRun(ops[..k]), ops[k].entry)
    ensures forall k :: 0 <= k < n ==> Sane(ops, k)
  {
    if n > 0 {
      FreshIsSane(ops, n - 1);
      RefinesSet(ops, n - 1);
      if ops[n - 1].Insert? {
        FreshIsAdmissible(RegistryAt(ops, n - 1).table, RegistryAt(ops, n - 1).index, ops[n - 1].entry);
      }
      hide Admissible;
      hide RegistryAt;
      hide SpecRun;
      hide Fresh;
      hide Mirrored;
    }
  }

  /** Every lookup and removal got the answer of the plain set. */
  ghost predicate AnswersRight(ops: seq<Op>, answers: seq<Option<InternalCall>>) {
    |answers| == |ops| &&
    forall k :: 0 <= k < |ops| && !ops[k].Insert? ==> IsAnswer(SpecRun(ops[..k]), ops[k].key, answers[k])
  }

  ghost predicate Replies(ops: seq<Op>, answers: seq<Option<InternalCall>>) {
    |answers| <= |ops| && forall k :: 0 <= k < |answers| ==> answers[k] == Reply(ops, k)
  }

  lemma RepliesAreRight(ops: seq<Op>, answers: seq<Option<InternalCall>>)
    requires SaneRun(ops) && Replies(ops, answers) && |answers| == |ops|
    ensures AnswersRight(ops, answers)
  {
    forall k | 0 <= k < |ops| && !ops[k].Insert?
      ensures IsAnswer(SpecRun(ops[..k]), ops[k].key, answers[k])
    {
      RefinesSet(ops, k);
      FindAnswers(RegistryAt(ops, k), ops[k].key);
    }
    hide IsAnswer;
  }

  /** Any run of the registry. While every insert is admissible it is a run of a plain set of calls: every
      lookup and removal, from either end, gives the answer of the set, and the length is the number
      of live calls. */
  method RunRegistry(ops: seq<Op>)
    returns (answers: seq<Option<InternalCall>>, table: ByCaller, index: CalleeIndex, count: nat)
    ensures Registry(table, index) == RegistryAfter(ops) && count == |table|
    ensures |answers| == |ops| && Replies(ops, answers)
    ensures SaneRun(ops) ==> Calls(table) == SpecRun(ops) && count == |SpecRun(ops)| && AnswersRight(ops, answers)
  {
    var registry := new InternalCallRegistry();
    answers := [];
    hide *;
    NothingRegistered(ops);
    for k := 0 to |ops|
      invariant fresh(registry) && Registry(registry.byCaller, registry.calleeToCaller) == RegistryAt(ops, k)
      invariant |answers| == k && Replies(ops, answers)
    {
      RegistryNext(ops, k);
      var r := Apply(registry, ops[k]);
      RepliesNext(ops, answers, r);
      answers := answers + [r];
    }
    table, index := registry.byCaller, registry.calleeToCaller;
    count := registry.Len();
    RunEnds(ops, answers, table, index);
  }

  lemma NothingRegistered(ops: seq<Op>)
    ensures RegistryAt(ops, 0) == Registry(map[], map[]) && Replies(ops, [])
  {
  }

  lemma RepliesNext(ops: seq<Op>, answers: seq<Option<InternalCall>>, r: Option<InternalCall>)
    requires Replies(ops, answers) && |answers| < |ops|
    requires r == if ops[|answers|].Insert? then None else RegistryAt(ops, |answers|).Find(ops[|answers|].key)
    ensures Replies(ops, answers + [r])
  {
    hide RegistryAt;
  }

  lemma RunEnds(ops: seq<Op>, answers: seq<Option<InternalCall>>, table: ByCaller, index: CalleeIndex)
    requires Registry(table, index) == RegistryAt(ops, |ops|) && |answers| == |ops| && Replies(ops, answers)
    ensures Registry(table, index) == RegistryAfter(ops)
    ensures SaneRun(ops) ==> Calls(table) == SpecRun(ops) && |table| == |SpecRun(ops)| && AnswersRight(ops, answers)
  {
    assert ops[..|ops|] == ops;
    if SaneRun(ops) {
      RefinesSet(ops, |ops|);
      CallCount(table);
      RepliesAreRight(ops, answers);
    }
    hide AnswersRight;
    hide Replies;
    hide Sane;
  }

  method Apply(registry: InternalCallRegistry, op: Op) returns (r: Option<InternalCall>)
    modifies registry
    ensures Registry(registry.byCaller, registry.calleeToCaller)
         == Registry(old(registry.byCaller), old(registry.calleeToCaller)).After(op)
    ensures r == if op.Insert? then None
                 else Registry(old(registry.byCaller), old(registry.calleeToCaller)).Find(op.key)
  {
    hide Mirrored;
    hide Calls;
    hide IsAnswer;
    hide Without;
    r := None;
    match op {
      case Insert(e) =>
        registry.Insert(e);
      case Lookup(ByCallerId(id)) =>
        r := registry.LookupByCaller(id);
      case Lookup(ByCalleeId(id)) =>
        r := registry.LookupByCallee(id);
      case Remove(ByCallerId(id)) =>
        r := registry.RemoveByCaller(id);
      case Remove(ByCalleeId(id)) =>
        r := registry.RemoveByCallee(id);
    }
  }

  // ---- admission -------------------------------------------------------------------

  datatype Config = Config(enabled: bool, maxConcurrentInternalCalls: nat)

  datatype Admission = Admitted | Disabled | AtCapacity(current: nat, max: nat)

  class IntercomService {
    const config: Config
    const registry: InternalCallRegistry

    constructor (config: Config)
      ensures this.config == config && fresh(registry) && registry.byCaller == map[] && registry.calleeToCaller == map[]
    {
      this.config := config;
      registry := new InternalCallRegistry();
    }

    /** `try_admit` up to its verdict, `None` for a full registry. It only reads: admitting a call and
        registering it are separate steps. */
    method TryAdmit() returns (a: Option<Admission>)
      ensures a == Some(Disabled) <==> !config.enabled
      ensures a == Some(Admitted) <==> config.enabled && |registry.byCaller| < config.maxConcurrentInternalCalls
      ensures a == None <==> config.enabled && |registry.byCaller| >= config.maxConcurrentInternalCalls
    {
      if !config.enabled {
        return Some(Disabled);
      }
      var accept := registry.CanAccept(config.maxConcurrentInternalCalls);
      a := if accept then Some(Admitted) else None;
    }

    /** The end of a refused `try_admit`: it takes the lock again to read the length it reports. */
    method Refuse() returns (a: Admission)
      ensures a == AtCapacity(|registry.byCaller|, config.maxConcurrentInternalCalls)
    {
      var current := registry.Len();
      a := AtCapacity(current, config.maxConcurrentInternalCalls);
    }

    method RegisterCall(entry: InternalCall)
      modifies registry
      ensures registry.byCaller == old(registry.byCaller)[entry.callerCallId := entry]
      ensures registry.calleeToCaller == old(registry.calleeToCaller)[entry.calleeCallId := entry.callerCallId]
    {
      registry.Insert(entry);
    }
  }

  /** What one of several concurrent dialers, or the end of a call, may do next. */
  datatype DialStep = Admit | Refuse | Register(entry: InternalCall) | Abandon | HangUp(callerCallId: string)

  /** The live calls, the dialers between admission and registration, the refused ones that have not
      read the length yet, and the refusals given so far. */
  datatype Dialing = Dialing(table: ByCaller, inFlight: nat, refused: nat, refusals: seq<Admission>)

  datatype Load = Load(live: nat, inFlight: nat)

  /** One step, when at most `dialers` may be between admission and registration. */
  ghost function Dialed(s: Dialing, step: DialStep, max: nat, dialers: nat): Dialing {
    match step
    case Admit =>
      if s.inFlight >= dialers then s
      else if |s.table| < max then s.(inFlight := s.inFlight + 1)
      else s.(refused := s.refused + 1)
    case Refuse =>
      if s.refused == 0 then s
      else s.(refused := s.refused - 1, refusals := s.refusals + [AtCapacity(|s.table|, max)])
    case Register(entry) =>
      if s.inFlight == 0 then s
      else s.(table := s.table[entry.callerCallId := entry], inFlight := s.inFlight - 1)
    case Abandon => if s.inFlight == 0 then s else s.(inFlight := s.inFlight - 1)
    case HangUp(id) => s.(table := s.table - {id})
  }

  ghost function DialingAfter(schedule: seq<DialStep>, max: nat, dialers: nat): Dialing {
    if schedule == [] then Dialing(map[], 0, 0, [])
    else Dialed(DialingAfter(schedule[..|schedule| - 1], max, dialers), schedule[|schedule| - 1], max, dialers)
  }

  ghost function LoadAfter(schedule: seq<DialStep>, max: nat, dialers: nat): Load {
    var s := DialingAfter(schedule, max, dialers);
    Load(|s.table|, s.inFlight)
  }

  lemma DialingSnoc(schedule: seq<DialStep>, step: DialStep, max: nat, dialers: nat)
    ensures DialingAfter(schedule + [step], max, dialers)
         == Dialed(DialingAfter(schedule, max, dialers), step, max, dialers)
  {
    assert (schedule + [step])[..|schedule|] == schedule;
  }

  lemma DialingAt(schedule: seq<DialStep>, k: nat, max: nat, dialers: nat)
    requires k < |schedule|
    ensures var s := DialingAfter(schedule[..k + 1], max, dialers);
            && s == Dialed(DialingAfter(schedule[..k], max, dialers), schedule[k], max, dialers)
            && LoadAfter(schedule[..k + 1], max, dialers) == Load(|s.table|, s.inFlight)
  {
    assert schedule[..k + 1][..k] == schedule[..k];
  }

  ghost predicate WithinBound(l: Load, max: nat, dialers: nat) {
    if max == 0 then l.live == 0 && l.inFlight == 0 else l.live + l.inFlight <= max - 1 + dialers && l.inFlight <= dialers
  }

  lemma InsertGrows(table: ByCaller, e: InternalCall)
    ensures |table| <= |table[e.callerCallId := e]| <= |table| + 1
    ensures e.callerCallId !in table ==> |table[e.callerCallId := e]| == |table| + 1
  {
    assert table[e.callerCallId := e].Keys == table.Keys + {e.callerCallId};
    assert table.Keys <= table[e.callerCallId := e].Keys;
  }

  lemma RemoveShrinks(table: ByCaller, c: string)
    ensures |table - {c}| <= |table|
  {
    assert (table - {c}).Keys == table.Keys - {c};
  }

  lemma {:induction false} AlwaysWithinBound(schedule: seq<DialStep>, max: nat, dialers: nat)
    requires dialers >= 1
    ensures WithinBound(LoadAfter(schedule, max, dialers), max, dialers)
  {
    if schedule == [] {
      assert LoadAfter(schedule, max, dialers) == Load(0, 0);
    } else {
      var before, step := schedule[..|schedule| - 1], schedule[|schedule| - 1];
      AlwaysWithinBound(before, max, dialers);
      var s := DialingAfter(before, max, dialers);
      if step.Register? {
        InsertGrows(s.table, step.entry);
      } else if step.HangUp? {
        RemoveShrinks(s.table, step.callerCallId);
      }
    }
  }

  // ---- schedules that reach a load -----------------------------------------------

  /** Call-IDs that are all different: their lengths are. */
  function Id(n: nat): (s: string)
    ensures |s| == n
  {
    if n == 0 then "" else Id(n - 1) + "x"
  }

  ghost predicate IdsBelow(table: ByCaller, n: nat) {
    |table| == n && forall c :: c in table ==> |c| < n
  }

  function CallNumber(n: nat): InternalCall {
    InternalCall(Id(n), Id(n), "", "", n)
  }

  /** After `schedule`, calls number `0` to `live - 1` are registered, and so many dialers are in flight
      or refused. */
  ghost predicate Holding(schedule: seq<DialStep>, max: nat, dialers: nat, live: nat, inFlight: nat, refused: nat) {
    var s := DialingAfter(schedule, max, dialers);
    IdsBelow(s.table, live) && s.inFlight == inFlight && s.refused == refused
  }

  lemma HoldingLoad(schedule: seq<DialStep>, max: nat, dialers: nat, live: nat, inFlight: nat, refused: nat)
    requires Holding(schedule, max, dialers, live, inFlight, refused)
    ensures LoadAfter(schedule, max, dialers) == Load(live, inFlight)
  {
  }

  lemma RegisterOne(before: seq<DialStep>, max: nat, dialers: nat, live: nat, inFlight: nat, refused: nat)
    requires Holding(before, max, dialers, live, inFlight, refused) && inFlight > 0
    ensures Holding(before + [Register(CallNumber(live))], max, dialers, live + 1, inFlight - 1, refused)
  {
    DialingSnoc(before, Register(CallNumber(live)), max, dialers);
    InsertGrows(DialingAfter(before, max, dialers).table, CallNumber(live));
    hide DialingAfter;
  }

  ghost predicate OnlyRegisters(schedule: seq<DialStep>, from: nat) {
    forall i :: from <= i < |schedule| ==> schedule[i].Register?
  }

  lemma {:induction false} RegisterMany(
    before: seq<DialStep>, max: nat, dialers: nat, live: nat, inFlight: nat, refused: nat, count: nat)
    returns (schedule: seq<DialStep>)
    requires Holding(before, max, dialers, live, inFlight, refused) && count <= inFlight
    ensures Holding(schedule, max, dialers, live + count, inFlight - count, refused)
    ensures |schedule| == |before| + count && before <= schedule && OnlyRegisters(schedule, |before|)
  {
    schedule := before;
    if count > 0 {
      hide Holding;
      schedule := RegisterMany(before, max, dialers, live, inFlight, refused, count - 1);
      RegisterOne(schedule, max, dialers, live + count - 1, inFlight - count + 1, refused);
      schedule := schedule + [Register(CallNumber(live + count - 1))];
    }
  }

  lemma AdmitOne(before: seq<DialStep>, max: nat, dialers: nat, live: nat, inFlight: nat)
    requires Holding(before, max, dialers, live, inFlight, 0) && inFlight < dialers
    ensures live < max ==> Holding(before + [Admit], max, dialers, live, inFlight + 1, 0)
    ensures live >= max ==> Holding(before + [Admit], max, dialers, live, inFlight, 1)
  {
    DialingSnoc(before, Admit, max, dialers);
  }

  lemma {:induction false} AdmitMany(
    before: seq<DialStep>, max: nat, dialers: nat, live: nat, inFlight: nat, count: nat) returns (schedule: seq<DialStep>)
    requires Holding(before, max, dialers, live, inFlight, 0) && live < max && inFlight + count <= dialers
    ensures Holding(schedule, max, dialers, live, inFlight + count, 0)
  {
    schedule := before;
    if count > 0 {
      hide Holding;
      schedule := AdmitMany(before, max, dialers, live, inFlight, count - 1);
      AdmitOne(schedule, max, dialers, live, inFlight + count - 1);
      schedule := schedule + [Admit];
    }
  }

  /** One dialer alone brings the calls up to any number within the limit. */
  lemma {:induction false} FillUp(n: nat, max: nat, dialers: nat) returns (schedule: seq<DialStep>)
    requires n <= max && dialers >= 1
    ensures Holding(schedule, max, dialers, n, 0, 0)
  {
    if n == 0 {
      schedule := [];
    } else {
      schedule := FillUp(n - 1, max, dialers);
      AdmitOne(schedule, max, dialers, n - 1, 0);
      RegisterOne(schedule + [Admit], max, dialers, n - 1, 1, 0);
      schedule := schedule + [Admit] + [Register(CallNumber(n - 1))];
      hide *;
    }
  }

  /** From `below` calls to `below + extra` live ones with `inFlight` more still on their way: first
      everyone is admitted, then `extra` dialers register. */
  lemma Overshoot(below: nat, extra: nat, inFlight: nat, max: nat, dialers: nat)
    returns (schedule: seq<DialStep>, admitted: nat)
    requires below < max && extra + inFlight <= dialers && dialers >= 1
    ensures |schedule| == admitted + extra && OnlyRegisters(schedule, admitted)
    ensures LoadAfter(schedule[..admitted], max, dialers) == Load(below, extra + inFlight)
    ensures LoadAfter(schedule, max, dialers) == Load(below + extra, inFlight)
  {
    hide *;
    var filled := FillUp(below, max, dialers);
    var admissions := AdmitMany(filled, max, dialers, below, 0, extra + inFlight);
    schedule := RegisterMany(admissions, max, dialers, below, extra + inFlight, 0, extra);
    admitted := |admissions|;
    HoldingLoad(admissions, max, dialers, below, extra + inFlight, 0);
    HoldingLoad(schedule, max, dialers, below + extra, inFlight, 0);
    assert schedule[..admitted] == admissions;
  }

  /** The bound is reached for every limit and every number of dialers: all dialers are admitted just
      below the limit, then all register, and live calls exceed the limit by `dialers - 1`. */
  lemma ReachBound(max: nat, dialers: nat) returns (schedule: seq<DialStep>, admitted: nat)
    requires max >= 1 && dialers >= 1
    ensures |schedule| == admitted + dialers && OnlyRegisters(schedule, admitted)
    ensures LoadAfter(schedule[..admitted], max, dialers) == Load(max - 1, dialers)
    ensures LoadAfter(schedule, max, dialers) == Load(max - 1 + dialers, 0)
  {
    hide *;
    schedule, admitted := Overshoot(max - 1, dialers, 0, max, dialers);
  }

  ghost predicate Reachable(l: Load, max: nat, dialers: nat) {
    exists schedule :: LoadAfter(schedule, max, dialers) == l
  }

  /** Which loads the racy check lets happen: exactly those with at most `dialers` in flight and, live
      calls included, at most `max - 1 + dialers`; with `max == 0` only the empty one. */
  lemma ReachableIff(l: Load, max: nat, dialers: nat)
    requires dialers >= 1
    ensures Reachable(l, max, dialers) <==> WithinBound(l, max, dialers)
  {
    if Reachable(l, max, dialers) {
      var schedule :| LoadAfter(schedule, max, dialers) == l;
      AlwaysWithinBound(schedule, max, dialers);
    }
    if WithinBound(l, max, dialers) {
      if max == 0 {
        assert LoadAfter([], max, dialers) == l;
      } else {
        var below: nat := Min(l.live, max - 1);
        var schedule, _ := Overshoot(below, l.live - below, l.inFlight, max, dialers);
      }
    }
    hide LoadAfter;
  }

  // ---- what a refusal can report ---------------------------------------------------

  ghost predicate CanReport(n: nat, max: nat, dialers: nat) {
    exists schedule :: AtCapacity(n, max) in DialingAfter(schedule, max, dialers).refusals
  }

  lemma {:induction false} RefusalsWithinBound(schedule: seq<DialStep>, max: nat, dialers: nat, a: Admission)
    requires dialers >= 1 && a in DialingAfter(schedule, max, dialers).refusals
    ensures a.AtCapacity? && a.max == max && WithinBound(Load(a.current, 0), max, dialers)
  {
    var before, step := schedule[..|schedule| - 1], schedule[|schedule| - 1];
    AlwaysWithinBound(before, max, dialers);
    if a in DialingAfter(before, max, dialers).refusals {
      RefusalsWithinBound(before, max, dialers, a);
    }
  }

  /** A refused dialer waits for the lock while `live` calls are registered. */
  ghost predicate Waiting(schedule: seq<DialStep>, max: nat, dialers: nat, live: nat) {
    var s := DialingAfter(schedule, max, dialers);
    |s.table| == live && s.refused > 0
  }

  lemma RefuseNow(before: seq<DialStep>, max: nat, dialers: nat, live: nat)
    requires Waiting(before, max, dialers, live)
    ensures CanReport(live, max, dialers)
  {
    DialingSnoc(before, Refuse, max, dialers);
    assert AtCapacity(live, max) in DialingAfter(before + [Refuse], max, dialers).refusals;
    hide DialingAfter;
  }

  lemma {:induction false} HangUpMany(before: seq<DialStep>, max: nat, dialers: nat, live: nat, count: nat)
    returns (schedule: seq<DialStep>)
    requires Waiting(before, max, dialers, live) && count <= live
    ensures Waiting(schedule, max, dialers, live - count)
  {
    schedule := before;
    if count > 0 {
      schedule := HangUpMany(before, max, dialers, live, count - 1);
      var table := DialingAfter(schedule, max, dialers).table;
      var id :| id in table;
      DialingSnoc(schedule, HangUp(id), max, dialers);
      assert (table - {id}).Keys == table.Keys - {id};
      schedule := schedule + [HangUp(id)];
      hide DialingAfter;
    }
  }

  /** A dialer is refused at the limit, and before it looks again calls end. */
  lemma WaitingBelow(n: nat, max: nat, dialers: nat) returns (schedule: seq<DialStep>)
    requires n <= max && dialers >= 1
    ensures Waiting(schedule, max, dialers, n)
  {
    var full := FillUp(max, max, dialers);
    AdmitOne(full, max, dialers, max, 0);
    assert Waiting(full + [Admit], max, dialers, max);
    hide *;
    schedule := HangUpMany(full + [Admit], max, dialers, max, max - n);
  }

  /** A dialer is refused at the limit while others are in flight, who register before it looks again. */
  lemma WaitingAbove(n: nat, max: nat, dialers: nat) returns (schedule: seq<DialStep>)
    requires 1 <= max <= n <= max - 1 + dialers
    ensures Waiting(schedule, max, dialers, n)
  {
    hide Holding;
    var below: nat, rest: nat := max - 1, n - max;
    var filled := FillUp(below, max, dialers);
    var admitted := AdmitMany(filled, max, dialers, below, 0, rest + 1);
    RegisterOne(admitted, max, dialers, below, rest + 1, 0);
    var full := admitted + [Register(CallNumber(below))];
    AdmitOne(full, max, dialers, max, rest);
    schedule := RegisterMany(full + [Admit], max, dialers, max, rest, 1, rest);
    HoldingWaits(schedule, max, dialers, n, 0);
  }

  lemma HoldingWaits(schedule: seq<DialStep>, max: nat, dialers: nat, live: nat, inFlight: nat)
    requires Holding(schedule, max, dialers, live, inFlight, 1)
    ensures Waiting(schedule, max, dialers, live)
  {
  }

  /** A refusal takes the lock a second time for the length it reports. It can report exactly the
      lengths that can occur, from none to the whole overshoot, whatever limit it was refused for. */
  lemma CanReportIff(n: nat, max: nat, dialers: nat)
    requires dialers >= 1
    ensures CanReport(n, max, dialers) <==> WithinBound(Load(n, 0), max, dialers)
  {
    if CanReport(n, max, dialers) {
      var schedule :| AtCapacity(n, max) in DialingAfter(schedule, max, dialers).refusals;
      RefusalsWithinBound(schedule, max, dialers, AtCapacity(n, max));
    }
    if WithinBound(Load(n, 0), max, dialers) {
      var schedule;
      if n <= max {
        schedule := WaitingBelow(n, max, dialers);
      } else {
        schedule := WaitingAbove(n, max, dialers);
      }
      RefuseNow(schedule, max, dialers, n);
    }
    hide Waiting;
    hide DialingAfter;
  }

  ghost predicate LoadsRight(loads: seq<Load>, schedule: seq<DialStep>, max: nat, dialers: nat) {
    |loads| <= |schedule| + 1 &&
    forall i :: 0 <= i < |loads| ==> loads[i] == LoadAfter(schedule[..i], max, dialers)
  }

  lemma LoadsSnoc(loads: seq<Load>, schedule: seq<DialStep>, max: nat, dialers: nat)
    requires LoadsRight(loads, schedule, max, dialers) && |loads| <= |schedule|
    ensures LoadsRight(loads + [LoadAfter(schedule[..|loads|], max, dialers)], schedule, max, dialers)
  {
    hide LoadAfter;
  }

  lemma LoadsBounded(loads: seq<Load>, schedule: seq<DialStep>, max: nat, dialers: nat)
    requires LoadsRight(loads, schedule, max, dialers) && dialers >= 1
    ensures forall i :: 0 <= i < |loads| ==> WithinBound(loads[i], max, dialers)
  {
    forall i | 0 <= i < |loads|
      ensures WithinBound(loads[i], max, dialers)
    {
      AlwaysWithinBound(schedule[..i], max, dialers);
    }
  }

  /** Admission, registration, abandonment and hang-up interleave freely between the dialers, and
      Call-IDs may collide: the registry always holds the calls that the schedule calls for, and live
      and in-flight calls stay within the bound, so that a lone dialer never exceeds `max`. */
  method RunDialers(max: nat, dialers: nat, schedule: seq<DialStep>)
    returns (loads: seq<Load>, live: ByCaller, refusals: seq<Admission>)
    requires dialers >= 1
    ensures |loads| == |schedule| + 1 && LoadsRight(loads, schedule, max, dialers)
    ensures forall i :: 0 <= i < |loads| ==> WithinBound(loads[i], max, dialers)
    ensures live == DialingAfter(schedule, max, dialers).table
    ensures refusals == DialingAfter(schedule, max, dialers).refusals
  {
    var service := new IntercomService(Config(true, max));
    var inFlight, refused := 0, 0;
    refusals := [];
    loads := [Load(0, 0)];
    assert LoadsRight(loads, schedule, max, dialers);
    for k := 0 to |schedule|
      invariant fresh(service.registry) && service.config == Config(true, max)
      invariant Dialing(service.registry.byCaller, inFlight, refused, refusals)
             == DialingAfter(schedule[..k], max, dialers)
      invariant |loads| == k + 1 && LoadsRight(loads, schedule, max, dialers)
    {
      hide *;
      DialingAt(schedule, k, max, dialers);
      LoadsSnoc(loads, schedule, max, dialers);
      inFlight, refused, refusals := Dial(service, schedule[k], inFlight, refused, refusals, dialers);
      loads := loads + [Load(|service.registry.byCaller|, inFlight)];
    }
    assert schedule[..|schedule|] == schedule;
    live := service.registry.byCaller;
    LoadsBounded(loads, schedule, max, dialers);
  }

  method Dial(
    service: IntercomService, step: DialStep, inFlight0: nat, refused0: nat, refusals0: seq<Admission>, dialers: nat)
    returns (inFlight: nat, refused: nat, refusals: seq<Admission>)
    requires service.config.enabled
    modifies service.registry
    ensures Dialing(service.registry.byCaller, inFlight, refused, refusals)
         == Dialed(
              Dialing(old(service.registry.byCaller), inFlight0, refused0, refusals0),
              step, service.config.maxConcurrentInternalCalls, dialers)
  {
    inFlight, refused, refusals := inFlight0, refused0, refusals0;
    match step {
      case Admit =>
        if inFlight < dialers {
          var a := service.TryAdmit();
          if a.Some? {
            inFlight := inFlight + 1;
          } else {
            refused := refused + 1;
          }
        }
      case Refuse =>
        if refused > 0 {
          var a := service.Refuse();
          refused, refusals := refused - 1, refusals + [a];
        }
      case Register(entry) =>
        if inFlight > 0 {
          service.RegisterCall(entry);
          inFlight := inFlight - 1;
        }
      case Abandon =>
        if inFlight > 0 {
          inFlight := inFlight - 1;
        }
      case HangUp(id) =>
        var _ := service.registry.RemoveByCaller(id);
    }
  }
}
