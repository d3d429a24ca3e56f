/** The issue-filtering engine of `BaseCollector`: a chain of collectors, each holding
    ordered rule groups of actions and one of two short-circuit policies, that decides
    whether one issue is accepted (suppressed), and lists the actions that were never used. */
module BaseCollector {
  import opened Wrappers
  import opened Text

  /** An action is identified by object identity; `None` is the `null` action that
      stands for the collector's own base filtering. */
  type ActionId = nat

  /** A rule group (`CollectorConfig`): an optional reason and its ordered actions. */
  datatype Config = Config(reason: Option<string>, actions: seq<ActionId>)

  /** A collector chain. `Level` is a collector whose `accept(issue)` and `unused(counter)`
      go through `accept(issue, parent, configs)` and `unused(counter, parent, configs)`;
      `Base` is the collector the chain ends in, whose `accept(issue)` is the inherited
      one (a single decision on the `null` action) and whose `unused(counter)` is
      `unusedNullAction(counter, hasDefaultConfig)`. */
  datatype Collector =
    | Base(hasDefaultConfig: bool)
    | Level(allAccept: bool, configs: seq<Config>, parent: Collector)

  /** `RejectCounter`: how often each action (or the `null` action) was used. */
  type Counter = map<Option<ActionId>, nat>

  /** `Issue.accept(collector, action)` for the one issue under evaluation: the decision
      of the given action, or of base filtering for `None`. */
  type Decision = Option<ActionId> -> bool

  /** The label `unusedActions` prints for the `null` action. */
  const BaseFilteringLabel: string := "    Base filtering"

  function GetCount(counter: Counter, a: Option<ActionId>): nat {
    if a in counter then counter[a] else 0
  }

  // ---------------------------------------------------------------- rule groups

  /** The actions of all rule groups, group after group, each in declaration order. */
  function Flatten(configs: seq<Config>): seq<ActionId>
    decreases |configs|
  {
    if |configs| == 0 then [] else configs[0].actions + Flatten(configs[1..])
  }

  lemma {:induction false} FlattenAppend(a: seq<Config>, b: seq<Config>)
    ensures Flatten(a + b) == Flatten(a) + Flatten(b)
    decreases |a|
  {
    if |a| != 0 {
      assert (a + b)[0] == a[0];
      assert (a + b)[1..] == a[1..] + b;
      FlattenAppend(a[1..], b);
    } else {
      assert a + b == b;
    }
  }

  lemma {:induction false} FlattenSingle(c: Config)
    ensures Flatten([c]) == c.actions
  {
    assert [c][1..] == [];
  }

  /** Flattening one more rule group appends its actions. */
  lemma {:induction false} FlattenStep(configs: seq<Config>, i: nat)
    requires i < |configs|
    ensures Flatten(configs[..i + 1]) == Flatten(configs[..i]) + configs[i].actions
    ensures Flatten(configs) == Flatten(configs[..i]) + configs[i].actions + Flatten(configs[i + 1..])
  {
    var before, here, after := configs[..i], configs[i], configs[i + 1..];
    assert configs[..i + 1] == before + [here];
    FlattenAppend(before, [here]);
    FlattenSingle(here);
    assert configs == configs[..i + 1] + after;
    FlattenAppend(configs[..i + 1], after);
  }

  /** The actions as the slots the evaluation and the counter talk about. */
  function Slots(acts: seq<ActionId>): seq<Option<ActionId>> {
    seq(|acts|, i requires 0 <= i < |acts| => Some(acts[i]))
  }

  // ---------------------------------------------------------------- accept

  /** The index of the first action whose decision short-circuits the loop of
      `accept(issue, parent, configs)`: a rejection when `allAccept`, an acceptance
      otherwise; `|acts|` when none does. */
  function FirstDecisive(allAccept: bool, acts: seq<ActionId>, decide: Decision): (k: nat)
    ensures k <= |acts|
    ensures k < |acts| ==> decide(Some(acts[k])) != allAccept
    decreases |acts|
  {
    if |acts| == 0 then 0
    else if decide(Some(acts[0])) != allAccept then 0
    else 1 + FirstDecisive(allAccept, acts[1..], decide)
  }

  /** Every action before the first decisive one agrees with the policy. */
  lemma {:induction false} FirstDecisivePrefix(allAccept: bool, acts: seq<ActionId>, decide: Decision)
    ensures forall j :: 0 <= j < FirstDecisive(allAccept, acts, decide) ==> decide(Some(acts[j])) == allAccept
    decreases |acts|
  {
    if |acts| != 0 && decide(Some(acts[0])) == allAccept {
      FirstDecisivePrefix(allAccept, acts[1..], decide);
      forall j | 0 <= j < FirstDecisive(allAccept, acts, decide) ensures decide(Some(acts[j])) == allAccept {
        if j > 0 {
          assert acts[j] == acts[1..][j - 1];
        }
      }
    }
  }

  /** The decision `accept(issue)` returns for collector `c`. */
  function Accepts(c: Collector, decide: Decision): bool
    decreases c
  {
    match c
    case Base(_) => decide(None)
    case Level(allAccept, configs, parent) =>
      var acts := Flatten(configs);
      if FirstDecisive(allAccept, acts, decide) < |acts| then !allAccept
      else Accepts(parent, decide)
  }

  /** The actions on which `accept(issue)` asks the issue for a decision, in order. */
  function Evaluated(c: Collector, decide: Decision): seq<Option<ActionId>>
    decreases c
  {
    match c
    case Base(_) => [None]
    case Level(allAccept, configs, parent) =>
      var acts := Flatten(configs);
      var k := FirstDecisive(allAccept, acts, decide);
      if k < |acts| then Slots(acts[..k + 1])
      else Slots(acts) + Evaluated(parent, decide)
  }

  /** Every decision point of the chain: the actions of each collector, then the
      base filtering of the collector the chain ends in. */
  function AllSlots(c: Collector): seq<Option<ActionId>>
    decreases c
  {
    match c
    case Base(_) => [None]
    case Level(_, configs, parent) => Slots(Flatten(configs)) + AllSlots(parent)
  }

  /** `accept(issue, parent, configs)` (and, for `Base`, the inherited `accept(issue)`):
      walks the rule groups and their actions in declaration order, returns `false` at
      the first rejection when `allAccept`, `true` at the first acceptance otherwise,
      and else delegates to the parent. `evaluated` lists the actions asked, in order. */
  method Accept(c: Collector, decide: Decision) returns (accepted: bool, evaluated: seq<Option<ActionId>>)
    ensures accepted == Accepts(c, decide)
    ensures evaluated == Evaluated(c, decide)
    decreases c
  {
    match c
    case Base(_) =>
      accepted := decide(None);
      evaluated := [None];
    case Level(allAccept, configs, parent) =>
      ghost var done: seq<ActionId> := [];
      evaluated := [];
      var ci := 0;
      while ci < |configs|
        invariant 0 <= ci <= |configs|
        invariant done == Flatten(configs[..ci]) && evaluated == Slots(done)
        invariant forall j :: 0 <= j < |done| ==> decide(Some(done[j])) == allAccept
      {
        var actions := configs[ci].actions;
        var ai := 0;
        while ai < |actions|
          invariant 0 <= ai <= |actions|
          invariant done == Flatten(configs[..ci]) + actions[..ai] && evaluated == Slots(done)
          invariant forall j :: 0 <= j < |done| ==> decide(Some(done[j])) == allAccept
        {
          var action := actions[ai];
          var acc := decide(Some(action));
          SlotsSnoc(done, action);
          evaluated := evaluated + [Some(action)];
          if (allAccept && !acc) || (!allAccept && acc) {
            StopsAt(allAccept, configs, parent, decide, ci, ai);
            accepted := !allAccept;
            return;
          }
          assert actions[..ai + 1] == actions[..ai] + [action];
          done := done + [action];
          ai := ai + 1;
        }
        assert actions[..ai] == actions;
        FlattenStep(configs, ci);
        ci := ci + 1;
      }
      assert configs[..ci] == configs;
      FirstDecisiveNone(allAccept, done, decide);
      var rest;
      accepted, rest := Accept(parent, decide);
      evaluated := evaluated + rest;
  }

  lemma {:induction false} SlotsSnoc(acts: seq<ActionId>, a: ActionId)
    ensures Slots(acts + [a]) == Slots(acts) + [Some(a)]
  {
  }

  /** The loop of `accept` stops at action `ai` of group `ci` when that action is the
      first decisive one. */
  lemma {:induction false} StopsAt(allAccept: bool, configs: seq<Config>, parent: Collector, decide: Decision, ci: nat, ai: nat)
    requires ci < |configs| && ai < |configs[ci].actions|
    requires var done := Flatten(configs[..ci]) + configs[ci].actions[..ai];
      forall j :: 0 <= j < |done| ==> decide(Some(done[j])) == allAccept
    requires decide(Some(configs[ci].actions[ai])) != allAccept
    ensures Accepts(Level(allAccept, configs, parent), decide) == !allAccept
    ensures Evaluated(Level(allAccept, configs, parent), decide) ==
      Slots(Flatten(configs[..ci]) + configs[ci].actions[..ai] + [configs[ci].actions[ai]])
  {
    var actions := configs[ci].actions;
    var done := Flatten(configs[..ci]) + actions[..ai];
    var rest := actions[ai + 1..] + Flatten(configs[ci + 1..]);
    FlattenStep(configs, ci);
    assert actions == actions[..ai] + [actions[ai]] + actions[ai + 1..];
    assert Flatten(configs) == (done + [actions[ai]]) + rest;
    FirstDecisiveAfter(allAccept, done, actions[ai], rest, decide);
  }

  /** An action that follows only undecisive ones is the first decisive action. */
  lemma {:induction false} FirstDecisiveAfter(allAccept: bool, done: seq<ActionId>, a: ActionId, rest: seq<ActionId>, decide: Decision)
    requires forall j :: 0 <= j < |done| ==> decide(Some(done[j])) == allAccept
    requires decide(Some(a)) != allAccept
    ensures FirstDecisive(allAccept, (done + [a]) + rest, decide) == |done|
    ensures ((done + [a]) + rest)[..|done| + 1] == done + [a]
    decreases |done|
  {
    var acts := (done + [a]) + rest;
    if |done| == 0 {
      assert acts[0] == a;
    } else {
      assert acts[0] == done[0];
      assert acts[1..] == (done[1..] + [a]) + rest;
      FirstDecisiveAfter(allAccept, done[1..], a, rest, decide);
    }
  }

  lemma {:induction false} FirstDecisiveNone(allAccept: bool, acts: seq<ActionId>, decide: Decision)
    requires forall j :: 0 <= j < |acts| ==> decide(Some(acts[j])) == allAccept
    ensures FirstDecisive(allAccept, acts, decide) == |acts|
  {
  }

  // ---------------------------------------------------------------- properties of accept

  /** The policy as a formula: with `allAccept` an issue is accepted iff every action
      of the collector accepts it and the parent accepts it; otherwise iff some action
      accepts it or the parent does. */
  lemma {:induction false} AcceptsClosedForm(allAccept: bool, configs: seq<Config>, parent: Collector, decide: Decision)
    ensures Accepts(Level(allAccept, configs, parent), decide) ==
      if allAccept
      then (forall a :: a in Flatten(configs) ==> decide(Some(a))) && Accepts(parent, decide)
      else (exists a :: a in Flatten(configs) && decide(Some(a))) || Accepts(parent, decide)
  {
    var acts := Flatten(configs);
    var k := FirstDecisive(allAccept, acts, decide);
    FirstDecisivePrefix(allAccept, acts, decide);
    if k < |acts| {
      assert acts[k] in acts;
    } else {
      forall a | a in acts ensures decide(Some(a)) == allAccept {
        var j :| 0 <= j < |acts| && acts[j] == a;
      }
    }
  }

  /** Short-circuit: once some action's decision goes against the policy (a rejection
      under `allAccept`, an acceptance otherwise), `accept` returns that decision, and
      the actions asked are exactly those up to the first such one; no later action
      and not the parent is asked. */
  lemma {:induction false} ShortCircuit(allAccept: bool, configs: seq<Config>, parent: Collector, decide: Decision, i: nat)
    requires i < |Flatten(configs)|
    requires decide(Some(Flatten(configs)[i])) != allAccept
    ensures Accepts(Level(allAccept, configs, parent), decide) == !allAccept
    ensures
      var acts := Flatten(configs);
      var k := FirstDecisive(allAccept, acts, decide);
      k <= i && Evaluated(Level(allAccept, configs, parent), decide) == Slots(acts[..k + 1])
  {
    FirstDecisivePrefix(allAccept, Flatten(configs), decide);
  }

  /** Delegation: when no action short-circuits, `accept` is exactly the parent's
      decision, after asking every action once. */
  lemma {:induction false} FallThrough(allAccept: bool, configs: seq<Config>, parent: Collector, decide: Decision)
    requires forall a :: a in Flatten(configs) ==> decide(Some(a)) == allAccept
    ensures Accepts(Level(allAccept, configs, parent), decide) == Accepts(parent, decide)
    ensures Evaluated(Level(allAccept, configs, parent), decide) ==
      Slots(Flatten(configs)) + Evaluated(parent, decide)
  {
  }

  /** A collector without any action decides as its parent does. */
  lemma {:induction false} NoActionsDelegates(allAccept: bool, configs: seq<Config>, parent: Collector, decide: Decision)
    requires forall i :: 0 <= i < |configs| ==> configs[i].actions == []
    ensures Accepts(Level(allAccept, configs, parent), decide) == Accepts(parent, decide)
    ensures Evaluated(Level(allAccept, configs, parent), decide) == Evaluated(parent, decide)
  {
    NoActionsFlatten(configs);
    assert Slots([]) == [];
  }

  lemma {:induction false} NoActionsFlatten(configs: seq<Config>)
    requires forall i :: 0 <= i < |configs| ==> configs[i].actions == []
    ensures Flatten(configs) == []
    decreases |configs|
  {
    if configs != [] {
      assert configs[0].actions == [];
      NoActionsFlatten(configs[1..]);
    }
  }

  /** The actions asked always form a non-empty prefix of the chain's decision points. */
  lemma {:induction false} EvaluatedIsPrefix(c: Collector, decide: Decision)
    ensures var e := Evaluated(c, decide);
      0 < |e| <= |AllSlots(c)| && e == AllSlots(c)[..|e|]
    decreases c
  {
    match c
    case Base(_) =>
    case Level(allAccept, configs, parent) =>
      var acts := Flatten(configs);
      var k := FirstDecisive(allAccept, acts, decide);
      EvaluatedIsPrefix(parent, decide);
      if k < |acts| {
        assert Slots(acts[..k + 1]) == (Slots(acts) + AllSlots(parent))[..k + 1];
      } else {
        var e := Evaluated(parent, decide);
        assert Slots(acts) + e == (Slots(acts) + AllSlots(parent))[..|acts| + |e|];
      }
  }

  /** The decision returned is the decision of the last action asked. */
  lemma {:induction false} ResultIsLastDecision(c: Collector, decide: Decision)
    ensures var e := Evaluated(c, decide);
      |e| > 0 && Accepts(c, decide) == decide(e[|e| - 1])
    decreases c
  {
    match c
    case Base(_) =>
    case Level(allAccept, configs, parent) =>
      ResultIsLastDecision(parent, decide);
      LevelLastDecision(allAccept, configs, parent, decide);
  }

  lemma {:induction false} LevelLastDecision(allAccept: bool, configs: seq<Config>, parent: Collector, decide: Decision)
    requires var e := Evaluated(parent, decide); |e| > 0 && Accepts(parent, decide) == decide(e[|e| - 1])
    ensures var e := Evaluated(Level(allAccept, configs, parent), decide);
      |e| > 0 && Accepts(Level(allAccept, configs, parent), decide) == decide(e[|e| - 1])
  {
    var acts := Flatten(configs);
    var k := FirstDecisive(allAccept, acts, decide);
    if k < |acts| {
      LastSlot(acts, k);
    } else {
      LastOfAppend(Slots(acts), Evaluated(parent, decide));
    }
  }

  lemma {:induction false} LastSlot(acts: seq<ActionId>, k: nat)
    requires k < |acts|
    ensures var e := Slots(acts[..k + 1]); |e| == k + 1 && e[k] == Some(acts[k])
  {
  }

  lemma {:induction false} LastOfAppend(a: seq<Option<ActionId>>, b: seq<Option<ActionId>>)
    requires |b| > 0
    ensures (a + b)[|a + b| - 1] == b[|b| - 1]
  {
  }

  /** Reordering rule groups or actions never changes the decision (the order only
      decides which action is asked last). */
  lemma {:induction false} ReorderKeepsDecision(allAccept: bool, configs1: seq<Config>, configs2: seq<Config>, parent: Collector, decide: Decision)
    requires forall a :: a in Flatten(configs1) <==> a in Flatten(configs2)
    ensures Accepts(Level(allAccept, configs1, parent), decide) == Accepts(Level(allAccept, configs2, parent), decide)
  {
    AcceptsClosedForm(allAccept, configs1, parent, decide);
    AcceptsClosedForm(allAccept, configs2, parent, decide);
  }

  /** Two rule groups `[X -> reject, Y -> accept]` under `allAccept`: the issue is
      rejected and only X is asked. */
  lemma {:induction false} RejectingFirstActionExample(decide: Decision)
    requires decide(Some(1)) == false && decide(Some(2)) == true
    ensures var c := Level(true, [Config(None, [1, 2])], Base(false));
      !Accepts(c, decide) && Evaluated(c, decide) == [Some(1)]
  {
    var c := Level(true, [Config(None, [1, 2])], Base(false));
    assert Flatten([Config(None, [1, 2])]) == [1, 2];
    assert FirstDecisive(true, [1, 2], decide) == 0;
    assert [1, 2][..1] == [1];
  }

  // ---------------------------------------------------------------- unused

  /** The slots among `slots` whose count is zero, in order. */
  function Unvisited(slots: seq<Option<ActionId>>, counter: Counter): seq<Option<ActionId>>
    decreases |slots|
  {
    if slots == [] then []
    else (if GetCount(counter, slots[0]) == 0 then [slots[0]] else []) + Unvisited(slots[1..], counter)
  }

  /** The filter keeps exactly the slots with count zero. */
  lemma {:induction false} UnvisitedMembers(slots: seq<Option<ActionId>>, counter: Counter)
    ensures forall x :: x in Unvisited(slots, counter) <==> x in slots && GetCount(counter, x) == 0
    decreases |slots|
  {
    if slots != [] {
      UnvisitedMembers(slots[1..], counter);
      assert slots == [slots[0]] + slots[1..];
    }
  }

  /** Filtering keeps order: it distributes over concatenation. */
  lemma {:induction false} UnvisitedAppend(a: seq<Option<ActionId>>, b: seq<Option<ActionId>>, counter: Counter)
    ensures Unvisited(a + b, counter) == Unvisited(a, counter) + Unvisited(b, counter)
    decreases |a|
  {
    if a != [] {
      var head := if GetCount(counter, a[0]) == 0 then [a[0]] else [];
      assert (a + b)[0] == a[0];
      assert (a + b)[1..] == a[1..] + b;
      assert Unvisited(a + b, counter) == head + Unvisited(a[1..] + b, counter);
      assert Unvisited(a, counter) == head + Unvisited(a[1..], counter);
      UnvisitedAppend(a[1..], b, counter);
    } else {
      assert a + b == b;
    }
  }

  /** `unusedNullAction`: the `null` action, when base filtering was never used and a
      default configuration exists; nothing otherwise. */
  function UnusedNullAction(counter: Counter, hasDefaultConfig: bool): (r: seq<Option<ActionId>>)
    ensures r == [None] <==> GetCount(counter, None) == 0 && hasDefaultConfig
    ensures r != [None] ==> r == []
  {
    if GetCount(counter, None) == 0 && hasDefaultConfig then [None] else []
  }

  /** What `unused(counter)` returns for collector `c`. */
  function UnusedSlots(c: Collector, counter: Counter): seq<Option<ActionId>>
    decreases c
  {
    match c
    case Base(hasDefaultConfig) => UnusedNullAction(counter, hasDefaultConfig)
    case Level(_, configs, parent) => Unvisited(Slots(Flatten(configs)), counter) + UnusedSlots(parent, counter)
  }

  /** Every action configured along the chain, most specific collector first, ending
      with the `null` action when the base has a default configuration. */
  function Configured(c: Collector): seq<Option<ActionId>>
    decreases c
  {
    match c
    case Base(hasDefaultConfig) => if hasDefaultConfig then [None] else []
    case Level(_, configs, parent) => Slots(Flatten(configs)) + Configured(parent)
  }

  /** The unused list is exactly the configured actions of the whole chain with count
      zero, in declaration order, this collector's before its ancestors'. */
  lemma {:induction false} UnusedIsUnvisitedConfigured(c: Collector, counter: Counter)
    ensures UnusedSlots(c, counter) == Unvisited(Configured(c), counter)
    ensures forall x :: x in UnusedSlots(c, counter) <==> x in Configured(c) && GetCount(counter, x) == 0
    decreases c
  {
    match c
    case Base(h) =>
      if h {
        assert Unvisited([None], counter) == (if GetCount(counter, None) == 0 then [None] else []) + Unvisited([], counter);
      }
    case Level(_, configs, parent) =>
      UnusedIsUnvisitedConfigured(parent, counter);
      UnvisitedAppend(Slots(Flatten(configs)), Configured(parent), counter);
      UnvisitedMembers(Configured(c), counter);
  }

  /** An action that has been used (count above zero) is never reported as unused;
      in particular, with a counter that counts every action asked by `accept`, none
      of those is reported. */
  lemma {:induction false} EvaluatedNotUnused(c: Collector, decide: Decision, counter: Counter)
    requires forall x :: x in Evaluated(c, decide) ==> GetCount(counter, x) > 0
    ensures forall x :: x in Evaluated(c, decide) ==> x !in UnusedSlots(c, counter)
  {
    UnusedIsUnvisitedConfigured(c, counter);
  }

  /** A rule group of three actions of which only the second was used: the other two
      are reported, in order, and the base adds nothing without a default configuration. */
  lemma {:induction false} UnusedExample()
    ensures UnusedSlots(Level(false, [Config(Some("junit"), [1, 2, 3])], Base(false)), map[Some(2) := 1]) == [Some(1), Some(3)]
  {
    var counter: Counter := map[Some(2) := 1];
    assert Flatten([Config(Some("junit"), [1, 2, 3])]) == [1, 2, 3];
    var s := Slots([1, 2, 3]);
    assert s == [Some(1), Some(2), Some(3)];
    assert Unvisited(s, counter) == [Some(1)] + Unvisited(s[1..], counter);
    assert s[1..][1..] == [Some(3)];
    assert Unvisited(s[1..], counter) == [] + Unvisited([Some(3)], counter);
  }

  lemma {:induction false} UnvisitedSnoc(acts: seq<ActionId>, a: ActionId, counter: Counter)
    ensures Unvisited(Slots(acts + [a]), counter) ==
      Unvisited(Slots(acts), counter) + (if GetCount(counter, Some(a)) == 0 then [Some(a)] else [])
  {
    SlotsSnoc(acts, a);
    UnvisitedAppend(Slots(acts), [Some(a)], counter);
    assert Unvisited([Some(a)], counter) == (if GetCount(counter, Some(a)) == 0 then [Some(a)] else []) + Unvisited([], counter);
  }

  /** `unused(counter, parent, configs)` (and, for `Base`, `unusedNullAction`): the
      actions with count zero, in declaration order, followed by the parent's. */
  method Unused(c: Collector, counter: Counter) returns (res: seq<Option<ActionId>>)
    ensures res == UnusedSlots(c, counter)
    ensures res == Unvisited(Configured(c), counter)
    decreases c
  {
    UnusedIsUnvisitedConfigured(c, counter);
    match c
    case Base(hasDefaultConfig) =>
      res := UnusedNullAction(counter, hasDefaultConfig);
    case Level(_, configs, parent) =>
      res := [];
      var ci := 0;
      while ci < |configs|
        invariant 0 <= ci <= |configs|
        invariant res == Unvisited(Slots(Flatten(configs[..ci])), counter)
      {
        var actions := configs[ci].actions;
        ghost var done := Flatten(configs[..ci]);
        var ai := 0;
        while ai < |actions|
          invariant 0 <= ai <= |actions|
          invariant done == Flatten(configs[..ci]) + actions[..ai]
          invariant res == Unvisited(Slots(done), counter)
        {
          var action := actions[ai];
          UnvisitedSnoc(done, action, counter);
          if GetCount(counter, Some(action)) == 0 {
            res := res + [Some(action)];
          }
          assert actions[..ai + 1] == actions[..ai] + [action];
          done := done + [action];
          ai := ai + 1;
        }
        assert actions[..ai] == actions;
        FlattenStep(configs, ci);
        ci := ci + 1;
      }
      assert configs[..ci] == configs;
      var fromParent := Unused(parent, counter);
      res := res + fromParent;
  }

  /** How `unusedActions` prints one unused action: the base-filtering label for the
      `null` action, the action's own text (`toString`, here `describe`) otherwise. */
  function Label(x: Option<ActionId>, describe: ActionId -> string): string {
    if x.None? then BaseFilteringLabel else describe(x.value)
  }

  /** `unusedActions`: one line per unused action, same length and order; a line is the
      base-filtering label exactly where the action is `null` (given that no action's
      own text is that label). */
  method UnusedActions(c: Collector, counter: Counter, describe: ActionId -> string) returns (res: seq<string>)
    ensures var u := UnusedSlots(c, counter);
      |res| == |u| && forall i :: 0 <= i < |res| ==> res[i] == Label(u[i], describe)
    ensures (forall a :: describe(a) != BaseFilteringLabel) ==>
      var u := UnusedSlots(c, counter);
      forall i :: 0 <= i < |res| ==> (res[i] == BaseFilteringLabel <==> u[i] == None)
  {
    var unused := Unused(c, counter);
    res := [];
    var i := 0;
    while i < |unused|
      invariant 0 <= i <= |unused|
      invariant |res| == i
      invariant forall j :: 0 <= j < i ==> res[j] == Label(unused[j], describe)
    {
      res := res + [if unused[i] == None then BaseFilteringLabel else describe(unused[i].value)];
      i := i + 1;
    }
    if forall a :: describe(a) != BaseFilteringLabel {
      forall j | 0 <= j < |res| ensures res[j] == BaseFilteringLabel <==> unused[j] == None {
        if unused[j] != None {
          assert res[j] == describe(unused[j].value);
        }
      }
    }
  }

  // ---------------------------------------------------------------- printUnusedWarning

  /** One element of the caller's stack trace. */
  datatype Frame = Frame(className: string, methodName: string)

  /** A frame outside the library and the test frameworks, or a test class. */
  predicate IsCallerFrame(className: string) {
    (!StartsWith(className, "guru.nidi.codeassert") && !StartsWith(className, "org.hamcrest")
      && !StartsWith(className, "org.junit"))
    || EndsWith(className, "Test") || StartsWith(className, "Test")
  }

  /** The frame search of `printUnusedWarning`: the index of the first caller frame,
      or the length of the trace when there is none. */
  method FindCaller(trace: seq<Frame>) returns (i: nat)
    ensures i <= |trace|
    ensures forall j :: 0 <= j < i ==> !IsCallerFrame(trace[j].className)
    ensures i < |trace| ==> IsCallerFrame(trace[i].className)
  {
    i := 0;
    while i < |trace|
      invariant i <= |trace|
      invariant forall j :: 0 <= j < i ==> !IsCallerFrame(trace[j].className)
    {
      if IsCallerFrame(trace[i].className) {
        return;
      }
      i := i + 1;
    }
  }

  /** The header line of the warning, naming the caller frame `i` unless `i` is past
      the end of the trace. */
  function WarningHeader(trace: seq<Frame>, i: nat): (r: string)
    requires i <= |trace|
    ensures StartsWith(r, "WARN: ") && EndsWith(r, "These collector actions have not been used:")
  {
    var location := if i == |trace| then "" else "In " + trace[i].className + "#" + trace[i].methodName + ": ";
    "WARN: " + location + "These collector actions have not been used:"
  }

  /** The two lines `printUnusedWarning` prints, given the unused-action lines and the
      stack trace of its caller: none when the joined text is empty; otherwise the
      header naming the first caller frame (if any) and the joined text. */
  method UnusedWarning(unusedLines: seq<string>, trace: seq<Frame>) returns (out: seq<string>)
    ensures Join("\n", unusedLines) == "" ==> out == []
    ensures Join("\n", unusedLines) != "" ==>
      exists i: nat :: i <= |trace|
        && (forall j :: 0 <= j < i ==> !IsCallerFrame(trace[j].className))
        && (i < |trace| ==> IsCallerFrame(trace[i].className))
        && out == [WarningHeader(trace, i), Join("\n", unusedLines)]
  {
    var s := Join("\n", unusedLines);
    if |s| == 0 {
      return [];
    }
    var i := FindCaller(trace);
    var location := if i == |trace| then "" else "In " + trace[i].className + "#" + trace[i].methodName + ": ";
    out := ["WARN: " + location + "These collector actions have not been used:", s];
    assert out == [WarningHeader(trace, i), s];
  }
}
