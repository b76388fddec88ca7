/**
 A rule set on which two contradicting rules fire in one pass.

 The 16-bit counter of `mask_rule_add` wraps after 65535 rules. A rule added just before and a rule
 added just after the wrap then stand in one priority list with their ids the wrong way round. Ids
 above 255 cannot be given to `mask_rule_del`, so the other rules stay in the set.
 */
module WrappedIds {
  import opened MaskRules
  import opened RuleSets
  import opened CircularList

  const CAPACITY := 0xFFFF

  // A rule that reads input 1, one that sets output 1 on input 0 and one that clears it.
  const FILLER := Content(0, 0, FUZZ, IoStat(2, 0), IoStat(0, 0))
  const SETTER := Content(0, 1, FUZZ, IoStat(1, 0), IoStat(2, 0))
  const CLEARER := Content(0, 1, FUZZ, IoStat(1, 0), IoStat(0, 2))

  lemma RuleIs(rule: Content, id: int)
    requires rule in {FILLER, SETTER, CLEARER}
    ensures Acceptable(rule) && 0 <= rule.priority < PRIORITY_NUM
    ensures RuleSet.Stored(rule, id).ruleId == id && RuleSet.Stored(rule, id).priority == if rule == FILLER then 7 else 1
    ensures Matches(RuleSet.Stored(rule, id), 1) <==> rule != FILLER
  {
  }

  lemma Opposed(i: int, j: int)
    ensures Contradicts(RuleSet.Stored(CLEARER, i), RuleSet.Stored(SETTER, j))
  {
  }

  ghost predicate Unmatched(rules: seq<Content>) {
    forall i :: 0 <= i < |rules| ==> !Matches(rules[i], 1)
  }

  // The set holds the rules `first` in its first list and fillers in its seventh; no flag is set.
  ghost predicate Holds(rules: RuleSet, first: seq<Content>)
    reads rules, rules.heads, rules.nodes, set p, x | 0 <= p < |rules.prios| && x in rules.prios[p] :: x
  {
    && rules.Valid() && rules.ruleCap == CAPACITY && |rules.prios| == PRIORITY_NUM
    && (forall p :: 0 <= p < PRIORITY_NUM && p != 0 && p != 6 ==> rules.Rules(p) == [])
    && rules.Rules(0) == first && Unmatched(rules.Rules(6))
    && (forall x :: x in rules.nodes ==> !x.effect)
  }

  lemma Sizes()
    ensures CAPACITY == 0xFFFF && PRIORITY_NUM == 8 && FILLER != SETTER && FILLER != CLEARER
  {
  }

  lemma HoldsIs(rules: RuleSet, first: seq<Content>)
    ensures Holds(rules, first) <==>
      && rules.Valid() && rules.ruleCap == CAPACITY && |rules.prios| == PRIORITY_NUM
      && (forall p :: 0 <= p < PRIORITY_NUM && p != 0 && p != 6 ==> rules.Rules(p) == [])
      && rules.Rules(0) == first && Unmatched(rules.Rules(6))
      && (forall x :: x in rules.nodes ==> !x.effect)
  {
  }

  lemma LiveCount(rules: RuleSet)
    requires rules.Valid()
    ensures |rules.Live()| == rules.ruleCnt
  {
    rules.LiveIs();
  }

  // One more of the three rules, where there is room.
  method Put(rules: RuleSet, rule: Content, ghost first: seq<Content>)
    requires Holds(rules, first) && rules.Valid() && rules.ruleCnt < CAPACITY && rule in {FILLER, SETTER, CLEARER}
    modifies rules, rules.heads, rules.nodes`content, rules.nodes`valid
    ensures rules.ruleId == NextId(old(rules.ruleId)) && rules.Valid() && rules.ruleCnt == old(rules.ruleCnt) + 1
    ensures rules.Live() == old(rules.Live()) + [RuleSet.Stored(rule, rules.ruleId)]
    ensures Holds(rules, if rule == FILLER then first else first + [RuleSet.Stored(rule, rules.ruleId)])
  {
    hide *;
    Sizes();
    HoldsIs(rules, first);
    LiveCount(rules);
    RuleIs(rule, NextId(rules.ruleId));
    AddFits(rules, rule);
    rules.StoredIs(rule, NextId(rules.ruleId));
    NextIs(rules.ruleId);
    ghost var others := rules.Rules(6);
    var status := rules.Add(rule);
    LiveCount(rules);
    rules.LiveIs();
    UnmatchedNext(others, RuleSet.Stored(rule, rules.ruleId));
    HoldsIs(rules, if rule == FILLER then first else first + [RuleSet.Stored(rule, rules.ruleId)]);
  }

  lemma AddFits(rules: RuleSet, rule: Content)
    requires rules.ruleCap == CAPACITY && rules.ruleCnt < CAPACITY && Acceptable(rule)
    ensures rules.AddStatus(rule) == 0
  {
    OverlapCommutes(rule.imask.up, rule.imask.down);
    OverlapCommutes(rule.omask.up, rule.omask.down);
  }

  lemma UnmatchedNext(rules: seq<Content>, c: Content)
    requires Unmatched(rules)
    ensures Unmatched(rules + []) && (!Matches(c, 1) ==> Unmatched(rules + [c]))
  {
    assert rules + [] == rules;
  }

  // Rule 1 goes again.
  method Discard(rules: RuleSet, ghost first: seq<Content>)
    requires Holds(rules, first) && rules.Valid() && |rules.Live()| > 0 && rules.Live()[0] == RuleSet.Stored(FILLER, 1)
    modifies rules, rules.heads, rules.nodes`content, rules.nodes`valid
    ensures rules.ruleId == old(rules.ruleId) && rules.Valid() && rules.ruleCnt == old(rules.ruleCnt) - 1
    ensures Holds(rules, first)
  {
    hide *;
    Sizes();
    HoldsIs(rules, first);
    LiveCount(rules);
    RuleIs(FILLER, 1);
    ghost var others, at := rules.Rules(6), IndexOf(rules.Live(), 1 % 0x100);
    assert rules.Live()[0].ruleId == 1;
    var status, k, j, m := rules.Del(1);
    LiveCount(rules);
    RemoveLength(old(rules.Live()), k);
    UnmatchedRest(others, j);
    HoldsIs(rules, first);
  }

  lemma RemoveLength<T>(s: seq<T>, k: nat)
    requires k < |s|
    ensures |Remove(s, k)| == |s| - 1
  {
  }

  lemma UnmatchedRest(rules: seq<Content>, j: nat)
    requires Unmatched(rules) && j < |rules|
    ensures Unmatched(Remove(rules, j))
  {
  }

  lemma EmptyHolds(rules: RuleSet)
    requires rules.Valid() && rules.ruleCap == CAPACITY && rules.ruleCnt == 0
    requires forall x :: x in rules.nodes ==> !x.effect
    ensures Holds(rules, [])
  {
    hide *;
    Sizes();
    HoldsIs(rules, []);
    rules.LiveIs();
    forall p | 0 <= p < |rules.prios| ensures rules.Rules(p) == [] {
      if |rules.prios[p]| > 0 {
        var k := rules.ListedIsLive(p, 0);
      }
    }
    NoneUnmatched();
  }

  lemma NoneUnmatched()
    ensures Unmatched([])
  {
  }

  lemma NextIs(id: nat)
    ensures NextId(id) == (id + 1) % 0x10000 && NextId(0xFFFF) == 0
    ensures id < 0xFFFF ==> NextId(id) == id + 1
  {
  }

  // The set after 65534 fillers.
  method FillUp() returns (rules: RuleSet)
    ensures fresh(rules) && fresh(rules.heads) && fresh(rules.nodes)
    ensures Holds(rules, []) && rules.Valid() && rules.ruleId == rules.ruleCnt == CAPACITY - 1
    ensures |rules.Live()| > 0 && rules.Live()[0] == RuleSet.Stored(FILLER, 1)
  {
    hide *;
    Sizes();
    rules := new RuleSet(CAPACITY);
    EmptyHolds(rules);
    LiveCount(rules);
    for n := 0 to CAPACITY - 1
      invariant fresh(rules) && fresh(rules.heads) && fresh(rules.nodes)
      invariant Holds(rules, []) && rules.Valid() && rules.ruleId == rules.ruleCnt == n == |rules.Live()|
      invariant n > 0 ==> rules.Live()[0] == RuleSet.Stored(FILLER, 1)
    {
      NextIs(n);
      Put(rules, FILLER, []);
    }
  }

  // The first list comes first in the order, and after it only fillers.
  lemma OrderHolds(rules: RuleSet, first: seq<Content>)
    requires Holds(rules, first) && rules.Valid()
    ensures var order := ContentsOf(rules.Order());
      |first| <= |order| && order[..|first|] == first && Unmatched(order[|first|..])
  {
    hide *;
    Sizes();
    HoldsIs(rules, first);
    rules.OrderIs();
    rules.LiveIs();
    NoneUnmatched();
    RestUnmatched(rules, 1);
    rules.FlatUnfold(0);
    var rest := Flat(rules.prios, 1);
    assert ContentsOf(rules.prios[0] + rest) == first + ContentsOf(rest);
  }

  lemma RestUnmatched(rules: RuleSet, p: nat)
    requires rules.Valid() && p > 0 && |rules.prios| == PRIORITY_NUM
    requires forall q :: 0 < q < PRIORITY_NUM ==> Unmatched(rules.Rules(q))
    ensures Unmatched(ContentsOf(Flat(rules.prios, p)))
    decreases PRIORITY_NUM - p
  {
    hide *;
    Sizes();
    rules.LiveIs();
    rules.FlatUnfold(p);
    if p < |rules.prios| {
      RestUnmatched(rules, p + 1);
      var here, rest := ContentsOf(rules.prios[p]), ContentsOf(Flat(rules.prios, p + 1));
      assert ContentsOf(Flat(rules.prios, p)) == here + rest;
      UnmatchedJoin(here, rest);
    } else {
      NoneUnmatched();
      assert ContentsOf(Flat(rules.prios, p)) == [];
    }
  }

  lemma UnmatchedJoin(here: seq<Content>, rest: seq<Content>)
    requires Unmatched(here) && Unmatched(rest)
    ensures Unmatched(here + rest)
  {
  }

  // 65535 adds, one delete, one add.
  method Prepare() returns (rules: RuleSet)
    ensures rules.Valid() && Holds(rules, [RuleSet.Stored(SETTER, 0xFFFF), RuleSet.Stored(CLEARER, 0)])
    ensures fresh(rules) && fresh(rules.nodes) && rules.ruleCnt > 0
  {
    hide *;
    Sizes();
    rules := FillUp();
    NextIs(CAPACITY - 1);
    NextIs(CAPACITY);
    ghost var a, b := RuleSet.Stored(SETTER, 0xFFFF), RuleSet.Stored(CLEARER, 0);
    Put(rules, SETTER, []);
    assert [] + [a] == [a];
    Discard(rules, [a]);
    Put(rules, CLEARER, [a]);
    assert [a] + [b] == [a, b];
  }

  // A pass of that set over input 0 sets output 1 and clears it again, where the greedy pass leaves
  // out the second of the two rules.
  method Misfire() returns (rules: RuleSet, calls: int, ghost fired: seq<Content>)
    ensures rules.Valid() && |fired| == 2
    ensures fired[0].ruleId == 0xFFFF && fired[1].ruleId == 0 && Contradicts(fired[1], fired[0])
    ensures Pass(ContentsOf(rules.Order()), 1, [], Quiet, 0).fired != fired
  {
    hide *;
    rules := Prepare();
    TwoFire(rules);
    ghost var order := ContentsOf(rules.Order());
    var status;
    status, calls, fired := rules.Match(1, Quiet, 0);
    assert ContentsOf(rules.Order()) == order;
  }

  lemma TwoFire(rules: RuleSet)
    requires rules.Valid()
    requires Holds(rules, [RuleSet.Stored(SETTER, 0xFFFF), RuleSet.Stored(CLEARER, 0)])
    ensures var a, b := RuleSet.Stored(SETTER, 0xFFFF), RuleSet.Stored(CLEARER, 0);
      && ScanPass(View(rules.Order()), 0, 1, [], Quiet, 0).0.fired == [a, b]
      && Pass(ContentsOf(rules.Order()), 1, [], Quiet, 0).fired != [a, b]
      && a.ruleId == 0xFFFF && b.ruleId == 0 && Contradicts(b, a)
  {
    hide *;
    Sizes();
    var a, b := RuleSet.Stored(SETTER, 0xFFFF), RuleSet.Stored(CLEARER, 0);
    HoldsIs(rules, [a, b]);
    OrderHolds(rules, [a, b]);
    Opposed(0, 0xFFFF);
    RuleIs(SETTER, 0xFFFF);
    RuleIs(CLEARER, 0);
    rules.OrderFacts();
    rules.ViewIs();
    var entries := View(rules.Order());
    var order := ContentsOf(rules.Order());
    assert Contents(entries) == order;
    assert order[0] == a && order[1] == b;
    NotBoth(order, 1, a, b);
    FlagsNone(entries);
    OnlyTheTwo(order, a, b);
    BothFire(entries, 0, 1, 0, 1, 0);
    FiredOfNext(a, b, 0, 0, 1);
  }

  lemma FlagsNone(entries: seq<Entry>)
    requires forall x :: 0 <= x < |entries| ==> !entries[x].effect
    ensures FlagsAt(entries, 0, 0, 1)
  {
  }

  lemma OnlyTheTwo(order: seq<Content>, a: Content, b: Content)
    requires |order| >= 2 && order[0] == a && order[1] == b && Contradicts(b, a)
    requires Matches(a, 1) && Matches(b, 1) && Unmatched(order[2..])
    ensures OnlyTwo(order, 1, 0, 1)
  {
    hide Matches, Contradicts;
    assert forall k :: 2 <= k < |order| ==> order[k] == order[2..][k - 2];
  }
}
