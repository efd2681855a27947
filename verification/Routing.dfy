/** The inbound routing rules: which extensions ring for a call. */
module Routing {
  import opened Prelude

  const DAY: nat := 86_400  // seconds

  /** A time of day in seconds. */
  type Second = n: nat | n < 86_400

  /** Parsed match conditions. A weekday or time range that does not parse is `None` inside. */
  datatype MatchSpec = MatchSpec(
    weekday: Option<seq<Option<nat>>>,
    timeRange: Option<Option<TimeRange>>,
    fromNumber: Option<seq<string>>)

  datatype TimeRange = TimeRange(start: Second, end: Second)

  datatype Rule = Rule(name: string, priority: int, spec: MatchSpec, fork: seq<string>)

  /** The moment of evaluation and the caller: weekday, second of the day, number. */
  datatype Context = Context(weekday: nat, time: Second, fromNumber: string)

  datatype Binding = Binding(aor: string, contact: string)

  datatype Decision = Matched(ruleName: string, bindings: seq<Binding>) | NoRule

  /** Half-open interval on the clock face; an end before the start wraps around midnight. */
  predicate TimeInRange(now: Second, r: TimeRange) {
    if r.start == r.end then false
    else if r.start < r.end then r.start <= now < r.end
    else now >= r.start || now < r.end
  }

  /** Going clockwise from `start`, `now` comes before `end`. */
  lemma TimeInRangeIsCyclic(now: Second, r: TimeRange)
    ensures TimeInRange(now, r) <==> Clockwise(r.start, now) < Clockwise(r.start, r.end)
  {
    CyclicDistance(r.start, now);
    CyclicDistance(r.start, r.end);
  }

  /** Seconds from `a` to the next `b`. */
  function Clockwise(a: Second, b: Second): int {
    var from: int, to: int := a, b;
    (to - from) % 86_400
  }

  lemma CyclicDistance(a: Second, b: Second)
    ensures Clockwise(a, b) == if b >= a then b as int - a as int else b as int - a as int + DAY
  {
  }

  predicate MatchesRule(rule: Rule, ctx: Context) {
    && (rule.spec.weekday.Some? ==> Some(ctx.weekday) in rule.spec.weekday.value)
    && (rule.spec.timeRange.Some? ==>
          rule.spec.timeRange.value.Some? && TimeInRange(ctx.time, rule.spec.timeRange.value.value))
    && (rule.spec.fromNumber.Some? ==> ctx.fromNumber in rule.spec.fromNumber.value)
  }

  /** Rule `i` is evaluated before rule `j`: higher priority first, declaration order among equals. */
  predicate Before(rules: seq<Rule>, i: nat, j: nat)
    requires i < |rules| && j < |rules|
  {
    rules[i].priority > rules[j].priority || (rules[i].priority == rules[j].priority && i < j)
  }

  /** `order` lists indices of `rules` in evaluation order. */
  ghost predicate Ordered(rules: seq<Rule>, order: seq<nat>) {
    && (forall k :: 0 <= k < |order| ==> order[k] < |rules|)
    && (forall k, m :: 0 <= k < m < |order| ==> Before(rules, order[k], order[m]))
  }

  /** The stable sort of the source, on indices. */
  method SortIndices(rules: seq<Rule>) returns (order: seq<nat>)
    ensures Ordered(rules, order)
    ensures forall i: nat :: i < |rules| ==> i in order
  {
    order := [];
    for i := 0 to |rules|
      invariant Ordered(rules, order)
      invariant forall j: nat :: j in order <==> j < i
    {
      order := InsertIndex(rules, order, i);
    }
  }

  method InsertIndex(rules: seq<Rule>, order: seq<nat>, i: nat) returns (r: seq<nat>)
    requires i < |rules| && Ordered(rules, order) && i !in order
    ensures Ordered(rules, r)
    ensures forall j: nat :: j in r <==> j in order || j == i
  {
    var at: nat := |order|;
    while at > 0 && Before(rules, i, order[at - 1])
      invariant at <= |order|
      invariant forall m :: at <= m < |order| ==> Before(rules, i, order[m])
    {
      at := at - 1;
    }
    r := order[..at] + [i] + order[at..];
    forall k | 0 <= k < at
      ensures Before(rules, order[k], i)
    {
      if k < at - 1 {
        assert Before(rules, order[k], order[at - 1]);
      }
      assert order[k] != i;
    }
    InsertedIsOrdered(rules, order, i, at);
    assert order == order[..at] + order[at..];
  }

  lemma InsertedIsOrdered(rules: seq<Rule>, order: seq<nat>, i: nat, at: nat)
    requires i < |rules| && Ordered(rules, order) && at <= |order|
    requires forall k :: 0 <= k < at ==> Before(rules, order[k], i)
    requires forall m :: at <= m < |order| ==> Before(rules, i, order[m])
    ensures Ordered(rules, order[..at] + [i] + order[at..])
  {
  }

  /** Rule `i` matches and comes before every other matching rule. */
  ghost predicate Chosen(rules: seq<Rule>, ctx: Context, i: nat) {
    && i < |rules| && MatchesRule(rules[i], ctx)
    && forall j :: 0 <= j < |rules| && MatchesRule(rules[j], ctx) && j != i ==> Before(rules, i, j)
  }

  ghost predicate NoneMatches(rules: seq<Rule>, ctx: Context) {
    forall j :: 0 <= j < |rules| ==> !MatchesRule(rules[j], ctx)
  }

  predicate Registered(all: seq<Binding>, aor: string) {
    exists k :: 0 <= k < |all| && all[k].aor == aor
  }

  /** The first registered binding of an AOR. */
  function FirstBinding(all: seq<Binding>, aor: string): (b: Binding)
    requires Registered(all, aor)
    ensures b in all && b.aor == aor
  {
    if all[0].aor == aor then all[0] else FirstBinding(all[1..], aor)
  }

  /** The registered AORs of `wanted`, in its order. */
  function RegisteredOnly(all: seq<Binding>, wanted: seq<string>): seq<string> {
    if wanted == [] then []
    else
      var before, aor := RegisteredOnly(all, wanted[..|wanted| - 1]), wanted[|wanted| - 1];
      if Registered(all, aor) then before + [aor] else before
  }

  /** The first binding of each registered AOR of `wanted`, in its order. */
  ghost function BindingsFor(all: seq<Binding>, wanted: seq<string>): seq<Binding> {
    if wanted == [] then []
    else
      var before, aor := BindingsFor(all, wanted[..|wanted| - 1]), wanted[|wanted| - 1];
      if Registered(all, aor) then before + [FirstBinding(all, aor)] else before
  }

  ghost function AorsOf(bindings: seq<Binding>): seq<string> {
    seq(|bindings|, i requires 0 <= i < |bindings| => bindings[i].aor)
  }

  method FilterBindingsByAor(all: seq<Binding>, wanted: seq<string>) returns (r: seq<Binding>)
    ensures r == BindingsFor(all, wanted) && AorsOf(r) == RegisteredOnly(all, wanted)
    ensures forall i :: 0 <= i < |r| ==> Registered(all, r[i].aor) && r[i] == FirstBinding(all, r[i].aor)
  {
    r := [];
    for k := 0 to |wanted|
      invariant r == BindingsFor(all, wanted[..k]) && AorsOf(r) == RegisteredOnly(all, wanted[..k])
      invariant forall i :: 0 <= i < |r| ==> Registered(all, r[i].aor) && r[i] == FirstBinding(all, r[i].aor)
    {
      assert wanted[..k + 1][..k] == wanted[..k];
      if Registered(all, wanted[k]) {
        var b := FirstBinding(all, wanted[k]);
        assert AorsOf(r + [b]) == AorsOf(r) + [b.aor];
        r := r + [b];
      }
    }
    assert wanted[..|wanted|] == wanted;
  }

  ghost predicate FirstOf(all: seq<Binding>, b: Binding) {
    exists m :: 0 <= m < |all| && all[m] == b && forall k :: 0 <= k < m ==> all[k].aor != b.aor
  }

  lemma {:induction false} FirstBindingIs(all: seq<Binding>, aor: string)
    requires Registered(all, aor)
    ensures FirstOf(all, FirstBinding(all, aor))
  {
    var b := FirstBinding(all, aor);
    if all[0].aor == aor {
      assert all[0] == b;
    } else {
      assert forall k :: 0 < k < |all| ==> all[k] == all[1..][k - 1];
      FirstBindingIs(all[1..], aor);
      var m :| 0 <= m < |all[1..]| && all[1..][m] == b && forall k :: 0 <= k < m ==> all[1..][k].aor != b.aor;
      assert all[m + 1] == b;
    }
  }

  /** Position by position: `at` lists the registered AORs of `wanted` in order, and `r` has for each the
      first binding registered for it. */
  ghost predicate Positions(all: seq<Binding>, wanted: seq<string>, r: seq<Binding>, at: seq<nat>) {
    && |at| == |r|
    && (forall i, j :: 0 <= i < j < |at| ==> at[i] < at[j])
    && (forall i :: 0 <= i < |at| ==> at[i] < |wanted| && r[i].aor == wanted[at[i]] && FirstOf(all, r[i]))
    && (forall j: nat :: j < |wanted| && j !in at ==> !Registered(all, wanted[j]))
  }

  lemma PositionsNext(all: seq<Binding>, wanted: seq<string>, aor: string, r: seq<Binding>, at: seq<nat>, b: Binding)
    requires Positions(all, wanted, r, at)
    ensures !Registered(all, aor) ==> Positions(all, wanted + [aor], r, at)
    ensures Registered(all, aor) && b.aor == aor && FirstOf(all, b) ==>
      Positions(all, wanted + [aor], r + [b], at + [|wanted|])
  {
    hide FirstOf;
    hide Registered;
    var at', n: nat := at + [|wanted|], |wanted|;
    assert at'[|at|] == n;
    assert forall j: nat :: j in at ==> j in at';
  }

  /** Which bindings ring. */
  lemma {:induction false} BindingsByPosition(all: seq<Binding>, wanted: seq<string>) returns (at: seq<nat>)
    ensures Positions(all, wanted, BindingsFor(all, wanted), at)
  {
    at := [];
    if wanted != [] {
      var n := |wanted| - 1;
      assert wanted[..n] + [wanted[n]] == wanted;
      at := BindingsByPosition(all, wanted[..n]);
      if Registered(all, wanted[n]) {
        FirstBindingIs(all, wanted[n]);
        PositionsNext(all, wanted[..n], wanted[n], BindingsFor(all, wanted[..n]), at, FirstBinding(all, wanted[n]));
        at := at + [n];
      } else {
        PositionsNext(all, wanted[..n], wanted[n], BindingsFor(all, wanted[..n]), at, Binding("", ""));
      }
      hide FirstOf;
      hide Positions;
      hide Registered;
    }
  }

  /** What a chosen rule makes of the call. */
  ghost function OutcomeOf(rule: Rule, all: seq<Binding>): Decision {
    Matched(rule.name, BindingsFor(all, rule.fork))
  }

  /** The decision is the outcome of the chosen rule, and `NoRule` exactly when no rule matches. */
  ghost predicate IsDecision(rules: seq<Rule>, ctx: Context, all: seq<Binding>, d: Decision) {
    if NoneMatches(rules, ctx) then d == NoRule
    else exists i: nat :: Chosen(rules, ctx, i) && d == OutcomeOf(rules[i], all)
  }

  /** The conditions of a rule, as its three fields state them: the weekday is listed, the time range parses
      and, going clockwise from its start, now comes before its end, and the caller is listed. */
  ghost predicate FieldsHold(spec: MatchSpec, ctx: Context) {
    && (spec.weekday.None? || Some(ctx.weekday) in spec.weekday.value)
    && (spec.timeRange.None?
        || (spec.timeRange.value.Some?
            && (ctx.time as int - spec.timeRange.value.value.start as int) % 86_400
               < (spec.timeRange.value.value.end as int - spec.timeRange.value.value.start as int) % 86_400))
    && (spec.fromNumber.None? || ctx.fromNumber in spec.fromNumber.value)
  }

  /** A rule matches exactly when its conditions hold: a listed weekday, a time range that parses and holds
      clockwise, a listed caller. */
  lemma MatchesByFields(rule: Rule, ctx: Context)
    ensures MatchesRule(rule, ctx) <==> FieldsHold(rule.spec, ctx)
  {
    if rule.spec.timeRange.Some? && rule.spec.timeRange.value.Some? {
      TimeInRangeIsCyclic(ctx.time, rule.spec.timeRange.value.value);
    }
    hide TimeInRange;
  }

  /** Field by field: the conditions of the winner hold (a missing field is no condition), and a rule whose
      conditions all hold rules out that nobody wins, and does not beat the winner. */
  ghost predicate ByFields(rules: seq<Rule>, ctx: Context, winner: Option<nat>) {
    && (winner.Some? ==> winner.value < |rules| && FieldsHold(rules[winner.value].spec, ctx))
    && forall j :: 0 <= j < |rules| && FieldsHold(rules[j].spec, ctx) ==>
         && winner.Some?
         && (rules[winner.value].priority > rules[j].priority
             || (rules[winner.value].priority == rules[j].priority && winner.value <= j))
  }

  lemma ChosenByFields(rules: seq<Rule>, ctx: Context, i: nat)
    requires Chosen(rules, ctx, i)
    ensures ByFields(rules, ctx, Some(i))
  {
    forall j | 0 <= j < |rules|
      ensures MatchesRule(rules[j], ctx) <==> FieldsHold(rules[j].spec, ctx)
    {
      MatchesByFields(rules[j], ctx);
    }
    hide MatchesRule;
    hide FieldsHold;
  }

  lemma NobodyByFields(rules: seq<Rule>, ctx: Context)
    requires NoneMatches(rules, ctx)
    ensures ByFields(rules, ctx, None)
  {
    forall j | 0 <= j < |rules|
      ensures MatchesRule(rules[j], ctx) <==> FieldsHold(rules[j].spec, ctx)
    {
      MatchesByFields(rules[j], ctx);
    }
    hide MatchesRule;
    hide FieldsHold;
  }

  /** Sort, then scan: the decision is that of the unique chosen rule, and there is none exactly when
      no rule matches. */
  method Evaluate(rules: seq<Rule>, ctx: Context, all: seq<Binding>) returns (d: Decision, winner: Option<nat>)
    ensures IsDecision(rules, ctx, all, d)
    ensures d.NoRule? <==> NoneMatches(rules, ctx)
    ensures d.NoRule? <==> winner.None?
    ensures winner.Some? ==> Chosen(rules, ctx, winner.value) && d == OutcomeOf(rules[winner.value], all)
    ensures ByFields(rules, ctx, winner)
  {
    hide MatchesRule;
    hide RegisteredOnly;
    hide BindingsFor;
    hide ByFields;
    if rules == [] {
      NobodyByFields(rules, ctx);
      return NoRule, None;
    }
    var order := SortIndices(rules);
    for k := 0 to |order|
      invariant forall m :: 0 <= m < k ==> !MatchesRule(rules[order[m]], ctx)
    {
      var i := order[k];
      if MatchesRule(rules[i], ctx) {
        FirstMatchIsChosen(rules, ctx, order, k);
        ChosenByFields(rules, ctx, i);
        var bindings := FilterBindingsByAor(all, rules[i].fork);
        return Matched(rules[i].name, bindings), Some(i);
      }
    }
    NoMatchAnywhere(rules, ctx, order);
    NobodyByFields(rules, ctx);
    d, winner := NoRule, None;
  }

  lemma FirstMatchIsChosen(rules: seq<Rule>, ctx: Context, order: seq<nat>, k: nat)
    requires Ordered(rules, order) && k < |order| && MatchesRule(rules[order[k]], ctx)
    requires forall i: nat :: i < |rules| ==> i in order
    requires forall m :: 0 <= m < k ==> !MatchesRule(rules[order[m]], ctx)
    ensures Chosen(rules, ctx, order[k])
  {
    forall j | 0 <= j < |rules| && MatchesRule(rules[j], ctx) && j != order[k]
      ensures Before(rules, order[k], j)
    {
      assert j in order;
      var m :| 0 <= m < |order| && order[m] == j;
      assert m > k;
    }
  }

  lemma NoMatchAnywhere(rules: seq<Rule>, ctx: Context, order: seq<nat>)
    requires forall i: nat :: i < |rules| ==> i in order
    requires forall k :: 0 <= k < |order| ==> order[k] < |rules| && !MatchesRule(rules[order[k]], ctx)
    ensures NoneMatches(rules, ctx)
  {
    forall j | 0 <= j < |rules|
      ensures !MatchesRule(rules[j], ctx)
    {
      assert j in order;
      var k :| 0 <= k < |order| && order[k] == j;
    }
  }

  /** At most one rule is chosen, and one is unless none matches. */
  lemma ChosenUnique(rules: seq<Rule>, ctx: Context, i: nat, j: nat)
    requires Chosen(rules, ctx, i) && Chosen(rules, ctx, j)
    ensures i == j
  {
  }

  ghost predicate DistinctPriorities(rules: seq<Rule>) {
    forall i, j :: 0 <= i < j < |rules| ==> rules[i].priority != rules[j].priority
  }

  ghost predicate Permuted(rules: seq<Rule>, shuffled: seq<Rule>) {
    multiset(rules) == multiset(shuffled)
  }

  lemma InPermuted(rules: seq<Rule>, shuffled: seq<Rule>, i: nat) returns (j: nat)
    requires Permuted(rules, shuffled) && i < |rules|
    ensures j < |shuffled| && shuffled[j] == rules[i]
  {
    assert rules[i] in multiset(shuffled);
    j :| 0 <= j < |shuffled| && shuffled[j] == rules[i];
  }

  /** Rule `i` matches and no matching rule has a higher priority. */
  ghost predicate Top(rules: seq<Rule>, ctx: Context, i: nat) {
    && i < |rules| && MatchesRule(rules[i], ctx)
    && forall j :: 0 <= j < |rules| && MatchesRule(rules[j], ctx) ==> rules[j].priority <= rules[i].priority
  }

  /** All matching rules of the highest priority come to the same outcome. */
  ghost predicate TopAgree(rules: seq<Rule>, ctx: Context, all: seq<Binding>) {
    forall i: nat, j: nat :: Top(rules, ctx, i) && Top(rules, ctx, j) ==> OutcomeOf(rules[i], all) == OutcomeOf(rules[j], all)
  }

  /** Every declaration order of the same rules leads to the same decision. */
  ghost predicate OrderFree(rules: seq<Rule>, ctx: Context, all: seq<Binding>) {
    forall a, b, d, d' ::
      Permuted(rules, a) && Permuted(rules, b) && IsDecision(a, ctx, all, d) && IsDecision(b, ctx, all, d') ==> d == d'
  }

  /** The rule chosen in any order is a top rule of the original order. */
  lemma ChosenIsTop(rules: seq<Rule>, shuffled: seq<Rule>, ctx: Context, j: nat) returns (i: nat)
    requires Permuted(rules, shuffled) && Chosen(shuffled, ctx, j)
    ensures Top(rules, ctx, i) && rules[i] == shuffled[j]
  {
    i := InPermuted(shuffled, rules, j);
    forall k: nat | k < |rules| && MatchesRule(rules[k], ctx)
      ensures rules[k].priority <= rules[i].priority
    {
      var m := InPermuted(rules, shuffled, k);
    }
  }

  ghost function MovedToFront(rules: seq<Rule>, i: nat): seq<Rule>
    requires i < |rules|
  {
    [rules[i]] + rules[..i] + rules[i + 1..]
  }

  /** A top rule declared first is chosen. */
  lemma FrontIsChosen(rules: seq<Rule>, ctx: Context, i: nat)
    requires Top(rules, ctx, i)
    ensures Permuted(rules, MovedToFront(rules, i)) && Chosen(MovedToFront(rules, i), ctx, 0)
    ensures MovedToFront(rules, i)[0] == rules[i]
  {
    var front := MovedToFront(rules, i);
    assert rules == rules[..i] + [rules[i]] + rules[i + 1..];
    forall k | 0 <= k < |front|
      ensures exists m :: 0 <= m < |rules| && front[k] == rules[m]
    {
      assert front[k] == rules[if k == 0 then i else if k <= i then k - 1 else k];
    }
    hide MatchesRule;
  }

  lemma FrontDecides(rules: seq<Rule>, ctx: Context, all: seq<Binding>, i: nat)
    requires Top(rules, ctx, i)
    ensures Permuted(rules, MovedToFront(rules, i))
    ensures IsDecision(MovedToFront(rules, i), ctx, all, OutcomeOf(rules[i], all))
  {
    FrontIsChosen(rules, ctx, i);
    assert !NoneMatches(MovedToFront(rules, i), ctx);
    hide Chosen;
    hide MovedToFront;
  }

  lemma SameOutcome(
    rules: seq<Rule>, a: seq<Rule>, b: seq<Rule>, ctx: Context, all: seq<Binding>, d: Decision, d': Decision)
    requires TopAgree(rules, ctx, all) && Permuted(rules, a) && Permuted(rules, b)
    requires IsDecision(a, ctx, all, d) && IsDecision(b, ctx, all, d')
    ensures d == d'
  {
    PermutationMatches(rules, a, ctx);
    PermutationMatches(rules, b, ctx);
    hide NoneMatches;
    hide Permuted;
    hide Top;
    hide Chosen;
    hide OutcomeOf;
    if !NoneMatches(rules, ctx) {
      var i: nat :| Chosen(a, ctx, i) && d == OutcomeOf(a[i], all);
      var j: nat :| Chosen(b, ctx, j) && d' == OutcomeOf(b[j], all);
      var m := ChosenIsTop(rules, a, ctx, i);
      var n := ChosenIsTop(rules, b, ctx, j);
    }
  }

  /** The decision, name and bindings, is the same for every declaration order exactly when all matching
      rules of the highest priority come to the same outcome. */
  lemma OrderFreeIff(rules: seq<Rule>, ctx: Context, all: seq<Binding>)
    ensures OrderFree(rules, ctx, all) <==> TopAgree(rules, ctx, all)
  {
    if TopAgree(rules, ctx, all) {
      forall a, b, d, d' | Permuted(rules, a) && Permuted(rules, b) && IsDecision(a, ctx, all, d) && IsDecision(b, ctx, all, d')
        ensures d == d'
      {
        SameOutcome(rules, a, b, ctx, all, d, d');
      }
    }
    if OrderFree(rules, ctx, all) {
      forall i: nat, j: nat | Top(rules, ctx, i) && Top(rules, ctx, j)
        ensures OutcomeOf(rules[i], all) == OutcomeOf(rules[j], all)
      {
        FrontDecides(rules, ctx, all, i);
        FrontDecides(rules, ctx, all, j);
      }
    }
    hide Permuted;
    hide IsDecision;
    hide Top;
    hide OutcomeOf;
  }

  /** With pairwise distinct priorities the decision does not depend on the declaration order. */
  lemma PermutationInvariant(
    rules: seq<Rule>, shuffled: seq<Rule>, ctx: Context, all: seq<Binding>, d: Decision, d': Decision)
    requires Permuted(rules, shuffled) && DistinctPriorities(rules)
    requires IsDecision(rules, ctx, all, d) && IsDecision(shuffled, ctx, all, d')
    ensures d == d'
  {
    DistinctAgree(rules, ctx, all);
    SameOutcome(rules, rules, shuffled, ctx, all, d, d');
  }

  lemma DistinctAgree(rules: seq<Rule>, ctx: Context, all: seq<Binding>)
    requires DistinctPriorities(rules)
    ensures TopAgree(rules, ctx, all)
  {
    forall i: nat, j: nat | Top(rules, ctx, i) && Top(rules, ctx, j)
      ensures i == j
    {
      assert rules[i].priority == rules[j].priority;
    }
  }

  lemma PermutationMatches(rules: seq<Rule>, shuffled: seq<Rule>, ctx: Context)
    requires Permuted(rules, shuffled)
    ensures NoneMatches(rules, ctx) <==> NoneMatches(shuffled, ctx)
  {
    if NoneMatches(rules, ctx) {
      NoneMatchesInShuffled(rules, shuffled, ctx);
    }
    if NoneMatches(shuffled, ctx) {
      NoneMatchesInShuffled(shuffled, rules, ctx);
    }
  }

  lemma NoneMatchesInShuffled(rules: seq<Rule>, shuffled: seq<Rule>, ctx: Context)
    requires Permuted(rules, shuffled) && NoneMatches(rules, ctx)
    ensures NoneMatches(shuffled, ctx)
  {
    forall j | 0 <= j < |shuffled|
      ensures !MatchesRule(shuffled[j], ctx)
    {
      assert shuffled[j] in multiset(rules);
      var n :| 0 <= n < |rules| && rules[n] == shuffled[j];
    }
  }
}
