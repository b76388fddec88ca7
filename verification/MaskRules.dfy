/**
 What the mask-rule engine of `rule/mask_rule.c` is for, stated on values.

 A rule reads an input mask and asks for output bits to be set and cleared. A matching pass takes
 the rules in (priority, rule id) order and fires each one that matches and does not contradict a
 rule already fired. `Greedy` is that choice as a plain fold; the code decides it with a per-rule
 `effect` flag and a second walk over all rules, described here by `Scan`.
 */
module MaskRules {

  datatype IoStat = IoStat(up: bv64, down: bv64)

  datatype Content = Content(ruleId: int, priority: int, kind: int, imask: IoStat, omask: IoStat)

  const FLEX := 0
  const FUZZ := 1
  const PRIORITY_NUM := 8

  const SUCCESS := 0
  const ERR_CAP_FULL := -2
  const ERR_CAP_EMPTY := -3
  const ERR_INVALID_TYPE := -5
  const ERR_INVALID_IMASK := -6
  const ERR_INVALID_OMASK := -7
  const ERR_SEARCH_NODE := -10
  const ERR_CALLBACK := -12

  // The bits of the mask a rule looks at: all of them for a FLEX rule, its own for a FUZZ rule.
  function UpBits(c: Content, mask: bv64): bv64 {
    if c.kind == FLEX then mask else Masked(mask, c.imask.up)
  }

  function DownBits(c: Content, mask: bv64): bv64 {
    if c.kind == FLEX then Inverted(mask) else Masked(Inverted(mask), c.imask.down)
  }

  function Masked(mask: bv64, wanted: bv64): bv64 {
    mask & wanted
  }

  function Inverted(mask: bv64): bv64 {
    !mask
  }

  // An empty input mask asks for nothing.
  predicate Met(wanted: bv64, seen: bv64) {
    wanted == 0 || seen == wanted
  }

  predicate Matches(c: Content, mask: bv64) {
    Met(c.imask.up, UpBits(c, mask)) && Met(c.imask.down, DownBits(c, mask))
  }

  lemma MatchesIs(c: Content, mask: bv64)
    ensures Matches(c, mask) <==> Met(c.imask.up, UpBits(c, mask)) && Met(c.imask.down, DownBits(c, mask))
  {
  }

  // A FUZZ rule matches exactly if every input it wants up is up and every input it wants down is down.
  lemma FuzzMatches(c: Content, mask: bv64)
    requires c.kind == FUZZ
    ensures Matches(c, mask) <==> mask & c.imask.up == c.imask.up && mask & c.imask.down == 0
  {
    hide Met, Masked, Inverted;
    FuzzMet(mask, c.imask.up, c.imask.down);
  }

  lemma FuzzMet(mask: bv64, up: bv64, down: bv64)
    ensures Met(up, Masked(mask, up)) <==> mask & up == up
    ensures Met(down, Masked(Inverted(mask), down)) <==> mask & down == 0
  {
    UpMet(mask, up);
    DownMet(mask, down);
    hide *;
  }

  lemma UpMet(mask: bv64, up: bv64)
    ensures Met(up, Masked(mask, up)) <==> mask & up == up
  {
    NothingSeen(mask);
  }

  lemma DownMet(mask: bv64, down: bv64)
    ensures Met(down, Masked(Inverted(mask), down)) <==> mask & down == 0
  {
    NothingSeen(mask);
    if mask & down == 0 {
      AllDown(mask, down);
    }
    if !mask & down == down {
      NoneUp(mask, down);
    }
  }

  lemma AllDown(mask: bv64, wanted: bv64)
    requires mask & wanted == 0
    ensures !mask & wanted == wanted
  {
  }

  lemma NoneUp(mask: bv64, wanted: bv64)
    requires !mask & wanted == wanted
    ensures mask & wanted == 0
  {
  }

  lemma NothingSeen(mask: bv64)
    ensures mask & 0 == 0
  {
  }

  // A FLEX rule matches exactly if each half of its input mask that asks for anything is the whole state.
  lemma FlexMatches(c: Content, mask: bv64)
    requires c.kind == FLEX
    ensures Matches(c, mask) <==>
      (c.imask.up == 0 || mask == c.imask.up) && (c.imask.down == 0 || !mask == c.imask.down)
  {
    hide Met, Inverted;
    FlexMet(mask, c.imask.up, c.imask.down);
  }

  lemma FlexMet(mask: bv64, up: bv64, down: bv64)
    ensures Met(up, mask) <==> up == 0 || mask == up
    ensures Met(down, Inverted(mask)) <==> down == 0 || !mask == down
  {
  }

  // The same in one: what the state of the inputs must be for a rule to be called back.
  predicate Meets(c: Content, mask: bv64) {
    if c.kind == FLEX then FlexSees(mask, c.imask.up, c.imask.down) else FuzzSees(mask, c.imask.up, c.imask.down)
  }

  predicate FlexSees(mask: bv64, up: bv64, down: bv64) {
    (up == 0 || mask == up) && (down == 0 || !mask == down)
  }

  predicate FuzzSees(mask: bv64, up: bv64, down: bv64) {
    mask & up == up && mask & down == 0
  }

  lemma MatchesMeets(c: Content, mask: bv64)
    requires c.kind == FLEX || c.kind == FUZZ
    ensures Matches(c, mask) <==> Meets(c, mask)
  {
    hide Met, Masked, Inverted, FlexSees, FuzzSees;
    SeesMet(mask, c.imask.up, c.imask.down);
  }

  lemma SeesMet(mask: bv64, up: bv64, down: bv64)
    ensures FlexSees(mask, up, down) <==> Met(up, mask) && Met(down, Inverted(mask))
    ensures FuzzSees(mask, up, down) <==> Met(up, Masked(mask, up)) && Met(down, Masked(Inverted(mask), down))
  {
    FuzzMet(mask, up, down);
    FlexMet(mask, up, down);
    hide Met, Masked, Inverted;
  }

  lemma Kinds()
    ensures FLEX == 0 && FUZZ == 1
  {
  }

  // One of the two sets an output bit that the other clears.
  predicate Contradicts(a: Content, b: Content) {
    Overlap(a.omask.up, b.omask.down) || Overlap(a.omask.down, b.omask.up)
  }

  predicate Overlap(x: bv64, y: bv64) {
    x & y != 0
  }

  // What a rule does to the outputs.
  function After(outputs: bv64, io: IoStat): bv64 {
    (outputs | io.up) & !io.down
  }

  // Two rules contradict each other exactly if it matters which of them is applied first, whatever the
  // outputs were.
  lemma ContradictsIsOrder(a: Content, b: Content, outputs: bv64)
    requires Acceptable(a) && Acceptable(b)
    ensures Contradicts(a, b) <==>
      After(After(outputs, a.omask), b.omask) != After(After(outputs, b.omask), a.omask)
  {
    hide After, Both, Overlap;
    var up1, down1, up2, down2 := a.omask.up, a.omask.down, b.omask.up, b.omask.down;
    OverlapCommutes(up2, down1);
    OverlapCommutes(up1, down1);
    OverlapCommutes(up2, down2);
    AfterBoth(outputs, up1, down1, up2, down2);
    AfterBoth(outputs, up2, down2, up1, down1);
    if !Overlap(up1, down2) && !Overlap(up2, down1) {
      AnyOrder(outputs, up1, down1, up2, down2);
    }
    if Both(outputs, up1, down1, up2, down2) == Both(outputs, up2, down2, up1, down1) {
      OrderTells(outputs, up1, down1, up2, down2);
      OrderTells(outputs, up2, down2, up1, down1);
    }
  }

  function Both(outputs: bv64, up1: bv64, down1: bv64, up2: bv64, down2: bv64): bv64 {
    (((outputs | up1) & !down1) | up2) & !down2
  }

  lemma OverlapCommutes(x: bv64, y: bv64)
    ensures Overlap(x, y) <==> Overlap(y, x)
  {
  }

  lemma AfterBoth(outputs: bv64, up1: bv64, down1: bv64, up2: bv64, down2: bv64)
    ensures After(After(outputs, IoStat(up1, down1)), IoStat(up2, down2)) == Both(outputs, up1, down1, up2, down2)
  {
  }

  lemma AnyOrder(outputs: bv64, up1: bv64, down1: bv64, up2: bv64, down2: bv64)
    requires !Overlap(up1, down2) && !Overlap(up2, down1) && !Overlap(up1, down1) && !Overlap(up2, down2)
    ensures Both(outputs, up1, down1, up2, down2) == Both(outputs, up2, down2, up1, down1)
  {
    RawAnyOrder(outputs, up1, down1, up2, down2);
  }

  lemma RawAnyOrder(outputs: bv64, up1: bv64, down1: bv64, up2: bv64, down2: bv64)
    requires up1 & down2 == 0 && up2 & down1 == 0 && up1 & down1 == 0 && up2 & down2 == 0
    ensures (((outputs | up1) & !down1) | up2) & !down2 == (((outputs | up2) & !down2) | up1) & !down1
  {
  }

  lemma OrderTells(outputs: bv64, up1: bv64, down1: bv64, up2: bv64, down2: bv64)
    requires !Overlap(up1, down1)
    requires Both(outputs, up1, down1, up2, down2) == Both(outputs, up2, down2, up1, down1)
    ensures !Overlap(up1, down2)
  {
  }

  predicate Clashes(c: Content, fired: seq<Content>) {
    exists i :: 0 <= i < |fired| && Contradicts(c, fired[i])
  }

  // No bit is asked to be both up and down.
  predicate Disjoint(io: IoStat) {
    !Overlap(io.down, io.up)
  }

  predicate Acceptable(c: Content) {
    (c.kind == FLEX || c.kind == FUZZ) && Disjoint(c.imask) && Disjoint(c.omask)
  }

  predicate Before(a: Content, b: Content) {
    a.priority < b.priority || (a.priority == b.priority && a.ruleId < b.ruleId)
  }

  ghost predicate Sorted(rules: seq<Content>) {
    forall i, j :: 0 <= i < j < |rules| ==> Before(rules[i], rules[j])
  }

  // The rules a pass fires, in order, after those in `fired`, when no callback fails.
  function Greedy(rules: seq<Content>, mask: bv64, fired: seq<Content>): seq<Content> {
    if rules == [] then fired
    else if Matches(rules[0], mask) && !Clashes(rules[0], fired) then Greedy(rules[1..], mask, fired + [rules[0]])
    else Greedy(rules[1..], mask, fired)
  }

  // The callback and its `arg`: a negative result stops the pass.
  type Callback<!S> = (Content, S) -> (int, S)

  datatype Outcome<S> = Outcome(status: int, fired: seq<Content>, arg: S)

  // A pass with its callbacks; `fired` lists the rules the callback was called on.
  function Pass<S>(rules: seq<Content>, mask: bv64, fired: seq<Content>, func: Callback<S>, arg: S): Outcome<S> {
    if rules == [] then Outcome(SUCCESS, fired, arg)
    else if Matches(rules[0], mask) && !Clashes(rules[0], fired) then
      var (ret, arg') := func(rules[0], arg);
      if ret < 0 then Outcome(ERR_CALLBACK, fired + [rules[0]], arg')
      else Pass(rules[1..], mask, fired + [rules[0]], func, arg')
    else Pass(rules[1..], mask, fired, func, arg)
  }

  // Calling the callback on each rule in turn, stopping at the first failure.
  function Calls<S>(rules: seq<Content>, func: Callback<S>, arg: S): (int, seq<Content>, S) {
    if rules == [] then (SUCCESS, [], arg)
    else
      var (ret, arg') := func(rules[0], arg);
      if ret < 0 then (ERR_CALLBACK, [rules[0]], arg')
      else
        var (status, called, arg'') := Calls(rules[1..], func, arg');
        (status, [rules[0]] + called, arg'')
  }

  lemma {:induction false} GreedyExtends(rules: seq<Content>, mask: bv64, fired: seq<Content>)
    ensures fired <= Greedy(rules, mask, fired)
  {
    if rules != [] {
      GreedyExtends(rules[1..], mask, fired);
      GreedyExtends(rules[1..], mask, fired + [rules[0]]);
    }
  }

  // A pass calls back exactly the greedy choice, up to and including the first call that fails.
  lemma {:induction false} PassCallsGreedy<S>(rules: seq<Content>, mask: bv64, fired: seq<Content>, func: Callback<S>, arg: S)
    ensures fired <= Greedy(rules, mask, fired)
    ensures var (status, called, arg') := Calls(Greedy(rules, mask, fired)[|fired|..], func, arg);
            Pass(rules, mask, fired, func, arg) == Outcome(status, fired + called, arg')
  {
    GreedyExtends(rules, mask, fired);
    if rules == [] {
      assert fired[|fired|..] == [];
      assert fired + [] == fired;
    } else if Matches(rules[0], mask) && !Clashes(rules[0], fired) {
      var fired' := fired + [rules[0]];
      GreedyExtends(rules[1..], mask, fired');
      var (ret, arg') := func(rules[0], arg);
      PassCallsGreedy(rules[1..], mask, fired', func, arg');
      var rest := Greedy(rules[1..], mask, fired')[|fired'|..];
      var todo := Greedy(rules, mask, fired)[|fired|..];
      assert todo == [rules[0]] + rest;
      assert todo[1..] == rest;
      var called := Calls(rest, func, arg').1;
      assert fired' + called == fired + ([rules[0]] + called);
    } else {
      PassCallsGreedy(rules[1..], mask, fired, func, arg);
    }
  }

  // ---------------------------------------------------------------------------------------------
  // The greedy choice

  ghost predicate Compatible(fired: seq<Content>) {
    forall i, j :: 0 <= i < j < |fired| ==> !Contradicts(fired[j], fired[i])
  }

  lemma {:induction false} GreedyCompatible(rules: seq<Content>, mask: bv64, fired: seq<Content>)
    requires Compatible(fired)
    ensures Compatible(Greedy(rules, mask, fired))
  {
    if rules != [] {
      GreedyCompatible(rules[1..], mask, fired);
      if !Clashes(rules[0], fired) {
        GreedyCompatible(rules[1..], mask, fired + [rules[0]]);
      }
    }
  }

  lemma {:induction false} PassCompatible<S>(rules: seq<Content>, mask: bv64, fired: seq<Content>,
                                             func: Callback<S>, arg: S)
    requires Compatible(fired)
    ensures Compatible(Pass(rules, mask, fired, func, arg).fired)
  {
    if rules != [] {
      hide Matches, Contradicts;
      var (ret, next) := func(rules[0], arg);
      PassCompatible(rules[1..], mask, fired, func, arg);
      if !Clashes(rules[0], fired) {
        PassCompatible(rules[1..], mask, fired + [rules[0]], func, next);
      }
    }
  }

  lemma {:induction false} PassStatus<S>(rules: seq<Content>, mask: bv64, fired: seq<Content>,
                                         func: Callback<S>, arg: S)
    ensures Pass(rules, mask, fired, func, arg).status in {0, -12}
  {
    if rules != [] {
      PassStatus(rules[1..], mask, fired, func, arg);
      PassStatus(rules[1..], mask, fired + [rules[0]], func, func(rules[0], arg).1);
    }
  }

  // Where a rule stands in the choice: rule k fires exactly when it matches and contradicts none of
  // the rules fired before it, and the rules fired before it are the choice among rules[..k].
  lemma {:induction false} GreedyStep(rules: seq<Content>, mask: bv64, fired: seq<Content>, k: nat)
    requires k < |rules|
    ensures var before := Greedy(rules[..k], mask, fired);
            Greedy(rules[..k + 1], mask, fired) ==
            if Matches(rules[k], mask) && !Clashes(rules[k], before) then before + [rules[k]] else before
  {
    if k == 0 {
      assert rules[..1][1..] == [];
    } else {
      var fired' := if Matches(rules[0], mask) && !Clashes(rules[0], fired) then fired + [rules[0]] else fired;
      GreedyStep(rules[1..], mask, fired', k - 1);
      assert rules[..k][1..] == rules[1..][..k - 1];
      assert rules[..k + 1][1..] == rules[1..][..k];
    }
  }

  lemma {:induction false} GreedyAppend(a: seq<Content>, b: seq<Content>, mask: bv64, fired: seq<Content>)
    ensures Greedy(a + b, mask, fired) == Greedy(b, mask, Greedy(a, mask, fired))
  {
    if a == [] {
      assert a + b == b;
    } else {
      assert (a + b)[1..] == a[1..] + b;
      GreedyAppend(a[1..], b, mask, fired);
      GreedyAppend(a[1..], b, mask, fired + [a[0]]);
    }
  }

  lemma {:induction false} GreedyOnlyRules(rules: seq<Content>, mask: bv64, fired: seq<Content>)
    ensures forall c :: c in Greedy(rules, mask, fired) ==> c in fired || (c in rules && Matches(c, mask))
    ensures forall c :: c in fired ==> c in Greedy(rules, mask, fired)
  {
    GreedyExtends(rules, mask, fired);
    if rules != [] {
      GreedyOnlyRules(rules[1..], mask, fired);
      GreedyOnlyRules(rules[1..], mask, fired + [rules[0]]);
    }
  }

  // Every matching rule that was passed over contradicts a rule fired earlier in the order.
  lemma GreedyMaximal(rules: seq<Content>, mask: bv64, k: nat)
    requires k < |rules| && Matches(rules[k], mask) && rules[k] !in Greedy(rules, mask, [])
    ensures exists j :: 0 <= j < k && rules[j] in Greedy(rules, mask, []) && Contradicts(rules[k], rules[j])
  {
    var before := Greedy(rules[..k], mask, []);
    GreedyStep(rules, mask, [], k);
    assert rules == rules[..k + 1] + rules[k + 1..];
    GreedyAppend(rules[..k + 1], rules[k + 1..], mask, []);
    var upto := Greedy(rules[..k + 1], mask, []);
    GreedyOnlyRules(rules[k + 1..], mask, upto);
    GreedyOnlyRules(rules[..k], mask, []);
    assert rules[k] in before + [rules[k]];
    var i :| 0 <= i < |before| && Contradicts(rules[k], before[i]);
    assert before[i] in rules[..k] && before[i] in Greedy(rules, mask, []);
    var j :| 0 <= j < |rules[..k]| && rules[..k][j] == before[i];
    assert rules[j] == before[i];
  }

  // A rule that did not fire makes no difference: without it the same rules fire.
  lemma GreedyWithoutUnfired(rules: seq<Content>, mask: bv64, k: nat)
    requires k < |rules| && rules[k] !in Greedy(rules, mask, [])
    ensures Greedy(rules[..k] + rules[k + 1..], mask, []) == Greedy(rules, mask, [])
  {
    GreedyStep(rules, mask, [], k);
    assert rules == rules[..k + 1] + rules[k + 1..];
    GreedyAppend(rules[..k + 1], rules[k + 1..], mask, []);
    GreedyAppend(rules[..k], rules[k + 1..], mask, []);
    var before := Greedy(rules[..k], mask, []);
    var upto := Greedy(rules[..k + 1], mask, []);
    GreedyOnlyRules(rules[k + 1..], mask, upto);
    assert rules[k] in before + [rules[k]];
  }

  // Rules that only set outputs never stand in each other's way: every one that matches fires.
  lemma SettersAllFire(rules: seq<Content>, mask: bv64)
    requires forall i :: 0 <= i < |rules| ==> rules[i].omask.down == 0
    ensures forall i :: 0 <= i < |rules| && Matches(rules[i], mask) ==> rules[i] in Greedy(rules, mask, [])
    ensures (forall i :: 0 <= i < |rules| ==> Matches(rules[i], mask)) ==> Greedy(rules, mask, []) == rules
  {
    hide Matches, Contradicts;
    forall i, j | 0 <= i < |rules| && 0 <= j < |rules| ensures !Contradicts(rules[i], rules[j]) {
      SettersAgree(rules[i], rules[j]);
    }
    forall i | 0 <= i < |rules| && Matches(rules[i], mask) ensures rules[i] in Greedy(rules, mask, []) {
      if rules[i] !in Greedy(rules, mask, []) {
        GreedyMaximal(rules, mask, i);
      }
    }
    if forall i :: 0 <= i < |rules| ==> Matches(rules[i], mask) {
      GreedyAll(rules, mask, []);
      assert [] + rules == rules;
    }
  }

  lemma SettersAgree(a: Content, b: Content)
    requires a.omask.down == 0 && b.omask.down == 0
    ensures !Contradicts(a, b)
  {
    NoOverlap(a.omask.up);
    NoOverlap(b.omask.up);
  }

  lemma NoOverlap(x: bv64)
    ensures !Overlap(x, 0) && !Overlap(0, x)
  {
  }

  lemma {:induction false} GreedyAll(rules: seq<Content>, mask: bv64, fired: seq<Content>)
    requires forall i :: 0 <= i < |rules| ==> Matches(rules[i], mask)
    requires forall c, d :: c in rules && d in fired + rules ==> !Contradicts(c, d)
    ensures Greedy(rules, mask, fired) == fired + rules
  {
    hide Matches, Contradicts;
    if rules != [] {
      assert fired + [rules[0]] + rules[1..] == fired + rules;
      assert forall i :: 0 <= i < |fired| ==> fired[i] in fired + rules;
      assert !Clashes(rules[0], fired);
      GreedyAll(rules[1..], mask, fired + [rules[0]]);
    }
  }

  // ---------------------------------------------------------------------------------------------
  // The effect flags

  // What one rule node shows to the filter.
  datatype Entry = Entry(content: Content, valid: bool, effect: bool)

  // mask_rule_fitler: the walk over all rules, reading their flags.
  function Scan(entries: seq<Entry>, filter: Content): bool {
    if entries == [] then false
    else
      var pos := entries[0];
      if !pos.valid then false
      else if !pos.effect then Scan(entries[1..], filter)
      else if filter.priority < pos.content.priority then false
      else if filter.priority == pos.content.priority && filter.ruleId <= pos.content.ruleId then false
      else Contradicts(filter, pos.content) || Scan(entries[1..], filter)
  }

  function Contents(entries: seq<Entry>): (r: seq<Content>)
    ensures |r| == |entries| && forall i :: 0 <= i < |r| ==> r[i] == entries[i].content
  {
    seq(|entries|, i requires 0 <= i < |entries| => entries[i].content)
  }

  // The contents of the flagged entries.
  function Flagged(entries: seq<Entry>): seq<Content> {
    if entries == [] then []
    else
      var before := Flagged(entries[..|entries| - 1]);
      var last := entries[|entries| - 1];
      if last.effect then before + [last.content] else before
  }

  // Past the rule being filtered the flags are left over from earlier passes and deleted rules; in a
  // sorted set none of them can decide the walk.
  lemma {:induction false} ScanIgnoresLater(later: seq<Entry>, filter: Content)
    requires forall i :: 0 <= i < |later| ==> Before(filter, later[i].content)
    ensures !Scan(later, filter)
  {
    if later != [] {
      ScanIgnoresLater(later[1..], filter);
    }
  }

  lemma {:induction false} FlaggedCons(entries: seq<Entry>)
    requires entries != []
    ensures Flagged(entries) == (if entries[0].effect then [entries[0].content] else []) + Flagged(entries[1..])
  {
    var n := |entries|;
    if n > 1 {
      FlaggedCons(entries[..n - 1]);
      assert entries[..n - 1][1..] == entries[1..][..n - 2];
      assert Flagged(entries[1..]) ==
        Flagged(entries[1..][..n - 2]) + if entries[n - 1].effect then [entries[n - 1].content] else [];
      var head := if entries[0].effect then [entries[0].content] else [];
      assert Flagged(entries[..n - 1]) == head + Flagged(entries[1..][..n - 2]);
    } else {
      assert entries[..0] == [] && entries[1..] == [];
    }
  }

  // In a sorted set the walk finds a conflict exactly when the rule clashes with one flagged before it.
  lemma {:induction false} ScanIsClash(done: seq<Entry>, current: Entry, later: seq<Entry>)
    requires forall i :: 0 <= i < |done| ==> done[i].valid && Before(done[i].content, current.content)
    requires forall i :: 0 <= i < |later| ==> Before(current.content, later[i].content)
    requires !current.effect
    ensures Scan(done + [current] + later, current.content) == Clashes(current.content, Flagged(done))
  {
    var all := done + [current] + later;
    if done == [] {
      assert all == [current] + later;
      assert all[1..] == later;
      ScanIgnoresLater(later, current.content);
    } else {
      assert all[1..] == done[1..] + [current] + later;
      assert all[0] == done[0];
      ScanIsClash(done[1..], current, later);
      FlaggedCons(done);
      var rest := Flagged(done[1..]);
      if done[0].effect {
        var flagged := [done[0].content] + rest;
        assert Flagged(done) == flagged;
        if Clashes(current.content, rest) {
          var i :| 0 <= i < |rest| && Contradicts(current.content, rest[i]);
          assert flagged[i + 1] == rest[i];
        }
        if Contradicts(current.content, done[0].content) {
          assert flagged[0] == done[0].content;
        }
        if Clashes(current.content, flagged) {
          var i :| 0 <= i < |flagged| && Contradicts(current.content, flagged[i]);
          assert i > 0 ==> flagged[i] == rest[i - 1];
        }
      } else {
        assert Flagged(done) == rest;
      }
    }
  }

  // A pass as the code runs it: rule k has its flag cleared, is tested, filtered by the walk over all
  // flags, and flagged before its callback. Returns what happened and the flags left behind.
  function ScanPass<S>(entries: seq<Entry>, k: nat, mask: bv64, fired: seq<Content>, func: Callback<S>, arg: S)
    : (Outcome<S>, seq<Entry>)
    requires k <= |entries|
    decreases |entries| - k
  {
    if k == |entries| then (Outcome(SUCCESS, fired, arg), entries)
    else
      var c := entries[k].content;
      var cleared := Flag(entries, k, false);
      if !Matches(c, mask) || Scan(cleared, c) then ScanPass(cleared, k + 1, mask, fired, func, arg)
      else
        var (ret, arg') := func(c, arg);
        var flagged := Flag(entries, k, true);
        if ret < 0 then (Outcome(ERR_CALLBACK, fired + [c], arg'), flagged)
        else ScanPass(flagged, k + 1, mask, fired + [c], func, arg')
  }

  lemma ScanPassStep<S>(entries: seq<Entry>, k: nat, mask: bv64, fired: seq<Content>, func: Callback<S>, arg: S)
    requires k < |entries|
    ensures var c := entries[k].content;
      ScanPass(entries, k, mask, fired, func, arg) ==
        if !Matches(c, mask) || Scan(Flag(entries, k, false), c)
        then ScanPass(Flag(entries, k, false), k + 1, mask, fired, func, arg)
        else if func(c, arg).0 < 0
        then (Outcome(ERR_CALLBACK, fired + [c], func(c, arg).1), Flag(entries, k, true))
        else ScanPass(Flag(entries, k, true), k + 1, mask, fired + [c], func, func(c, arg).1)
  {
  }

  lemma ScanPassEnd<S>(entries: seq<Entry>, mask: bv64, fired: seq<Content>, func: Callback<S>, arg: S)
    ensures ScanPass(entries, |entries|, mask, fired, func, arg) == (Outcome(SUCCESS, fired, arg), entries)
  {
  }

  // In any order and with any flags, a pass calls back only rules it was given, and only if they match.
  lemma {:induction false} ScanPassMatches<S>(entries: seq<Entry>, k: nat, mask: bv64, fired: seq<Content>,
                                              func: Callback<S>, arg: S)
    requires k <= |entries|
    ensures forall c :: c in ScanPass(entries, k, mask, fired, func, arg).0.fired ==>
      c in fired || (Matches(c, mask) && exists i :: k <= i < |entries| && entries[i].content == c)
    decreases |entries| - k
  {
    if k < |entries| {
      var c := entries[k].content;
      ScanPassStep(entries, k, mask, fired, func, arg);
      hide Matches, Scan, ScanPass;
      var cleared, flagged := Flag(entries, k, false), Flag(entries, k, true);
      ScanPassMatches(cleared, k + 1, mask, fired, func, arg);
      assert forall i :: k < i < |entries| ==> cleared[i].content == entries[i].content == flagged[i].content;
      if Matches(c, mask) {
        ScanPassMatches(flagged, k + 1, mask, fired + [c], func, func(c, arg).1);
      }
    } else {
      ScanPassEnd(entries, mask, fired, func, arg);
    }
  }

  lemma ScanPassMeets<S>(entries: seq<Entry>, mask: bv64, func: Callback<S>, arg: S)
    requires forall i :: 0 <= i < |entries| ==> Acceptable(entries[i].content)
    ensures var fired := ScanPass(entries, 0, mask, [], func, arg).0.fired;
      forall i :: 0 <= i < |fired| ==> Meets(fired[i], mask)
  {
    ScanPassMatches(entries, 0, mask, [], func, arg);
    var fired := ScanPass(entries, 0, mask, [], func, arg).0.fired;
    hide Matches, Meets, ScanPass, Disjoint;
    forall i | 0 <= i < |fired| ensures Meets(fired[i], mask) {
      assert fired[i] in fired;
      MatchesMeets(fired[i], mask);
    }
  }

  lemma SortedEmpty()
    ensures Sorted([])
  {
  }

  lemma SortedJoin(here: seq<Content>, rest: seq<Content>, priority: int)
    requires Increasing(here) && Sorted(rest)
    requires forall i :: 0 <= i < |here| ==> here[i].priority == priority
    requires forall i :: 0 <= i < |rest| ==> rest[i].priority > priority
    ensures Sorted(here + rest)
  {
  }

  function Flag(entries: seq<Entry>, k: nat, effect: bool): seq<Entry>
    requires k < |entries|
  {
    entries[k := entries[k].(effect := effect)]
  }

  lemma FlaggedStep(entries: seq<Entry>, k: nat, effect: bool)
    requires k < |entries|
    ensures var e := Flag(entries, k, effect);
      && e[..k] == entries[..k] && e[k + 1..] == entries[k + 1..]
      && Contents(e) == Contents(entries)
      && Flagged(e[..k + 1]) == Flagged(entries[..k]) + if effect then [entries[k].content] else []
  {
    var e := Flag(entries, k, effect);
    assert e[..k + 1][..k] == entries[..k];
  }

  // On a sorted rule set the code's pass is the greedy one, whatever the flags were to begin with.
  lemma {:induction false} ScanPassIsPass<S>(entries: seq<Entry>, k: nat, mask: bv64, func: Callback<S>, arg: S)
    requires k <= |entries| && Sorted(Contents(entries))
    requires forall i :: 0 <= i < |entries| ==> entries[i].valid
    ensures ScanPass(entries, k, mask, Flagged(entries[..k]), func, arg).0 ==
            Pass(Contents(entries)[k..], mask, Flagged(entries[..k]), func, arg)
    decreases |entries| - k
  {
    if k < |entries| {
      var c := entries[k].content;
      var cleared := Flag(entries, k, false);
      var flagged := Flag(entries, k, true);
      var fired := Flagged(entries[..k]);
      FlaggedStep(entries, k, false);
      FlaggedStep(entries, k, true);
      ClearedScan(entries, k);
      assert Contents(entries)[k..][0] == c && Contents(entries)[k..][1..] == Contents(entries)[k + 1..];
      hide Matches, Clashes, Scan, Sorted, Flagged, Contents;
      if !Matches(c, mask) || Clashes(c, fired) {
        ScanPassIsPass(cleared, k + 1, mask, func, arg);
        assert fired + [] == fired;
      } else {
        ScanPassIsPass(flagged, k + 1, mask, func, func(c, arg).1);
      }
    } else {
      assert Contents(entries)[k..] == [];
    }
  }

  lemma ClearedScan(entries: seq<Entry>, k: nat)
    requires k < |entries| && Sorted(Contents(entries))
    requires forall i :: 0 <= i < |entries| ==> entries[i].valid
    ensures Scan(Flag(entries, k, false), entries[k].content) == Clashes(entries[k].content, Flagged(entries[..k]))
  {
    var cleared := Flag(entries, k, false);
    var contents := Contents(entries);
    assert cleared == entries[..k] + [cleared[k]] + entries[k + 1..];
    forall i | 0 <= i < k ensures Before(entries[..k][i].content, cleared[k].content) {
      assert Before(contents[i], contents[k]);
    }
    var later := entries[k + 1..];
    forall i | 0 <= i < |later| ensures Before(cleared[k].content, later[i].content) {
      assert Before(contents[k], contents[k + 1 + i]);
    }
    ScanIsClash(entries[..k], cleared[k], later);
  }

  // Once the 16-bit counter has wrapped, a newer rule can carry a smaller id than an older one of its
  // priority. The walk then stops early and both of two contradicting rules fire.
  lemma WrappedIdsMisfire() returns (entries: seq<Entry>, func: Callback<int>)
    ensures |entries| == 2 && entries[0].valid && entries[1].valid
    ensures entries[0].content.ruleId == 0xFFFF && entries[1].content.ruleId == NextId(0xFFFF)
    ensures entries[0].content.priority == entries[1].content.priority
    ensures Acceptable(entries[0].content) && Acceptable(entries[1].content)
    ensures ScanPass(entries, 0, 1, [], func, 0).0.fired == [entries[0].content, entries[1].content]
    ensures Pass(Contents(entries), 1, [], func, 0).fired == [entries[0].content]
  {
    var a := Content(0xFFFF, 1, FUZZ, IoStat(1, 0), IoStat(2, 0));
    var b := Content(0, 1, FUZZ, IoStat(1, 0), IoStat(0, 2));
    var ea, eb := Entry(a, true, false), Entry(b, true, false);
    entries, func := [ea, eb], (c, n) => (0, n);
    var e1 := Flag(entries, 0, true);
    var e2 := Flag(e1, 1, true);
    assert Matches(a, 1) && Matches(b, 1);
    assert Scan([eb], a) == Scan([], a) && [eb][1..] == [];
    assert !Scan(entries, a) by { assert entries[1..] == [eb]; }
    assert !Scan(e1, b);
    assert Flag(entries, 0, false) == entries && Flag(e1, 1, false) == e1;
    assert ScanPass(e2, 2, 1, [a, b], func, 0).0.fired == [a, b];
    assert ScanPass(e1, 1, 1, [a], func, 0).0.fired == [a, b] by { assert [a] + [b] == [a, b]; }
    assert [] + [a] == [a];
    assert Contents(entries) == [a, b];
    assert Clashes(b, [a]) by { assert Contradicts(b, [a][0]); }
    assert Pass([], 1, [a], func, 0).fired == [a];
    assert Pass([b], 1, [a], func, 0).fired == [a] by { assert [b][1..] == []; }
    assert [a, b][1..] == [b];
  }

  // Rules in the same places of the order.
  ghost predicate SameKeys(a: seq<Content>, b: seq<Content>) {
    |a| == |b| && forall i :: 0 <= i < |a| ==> a[i].priority == b[i].priority && a[i].ruleId == b[i].ruleId
  }

  // Whatever the rules with these priorities and ids ask for, whatever the flags, the mask and the
  // callback, the code's pass is the greedy one.
  ghost predicate AlwaysGreedy(keys: seq<Content>) {
    forall entries: seq<Entry>, mask: bv64, func: Callback<int>, arg: int ::
      SameKeys(Contents(entries), keys) && Sound(entries) ==> IsGreedy(entries, mask, func, arg)
  }

  // What add leaves in the nodes of live rules.
  ghost predicate Sound(entries: seq<Entry>) {
    forall i :: 0 <= i < |entries| ==> entries[i].valid && Acceptable(entries[i].content)
  }

  predicate IsGreedy(entries: seq<Entry>, mask: bv64, func: Callback<int>, arg: int) {
    ScanPass(entries, 0, mask, [], func, arg).0 == Pass(Contents(entries), mask, [], func, arg)
  }

  // Going through the lists by priority, that is so exactly if the ids grow within each priority.
  lemma GreedyIffSorted(keys: seq<Content>)
    requires forall i, j :: 0 <= i < j < |keys| ==> keys[i].priority <= keys[j].priority
    ensures AlwaysGreedy(keys) <==> Sorted(keys)
  {
    if Sorted(keys) {
      forall entries: seq<Entry>, mask: bv64, func: Callback<int>, arg: int
        | SameKeys(Contents(entries), keys) && Sound(entries)
        ensures IsGreedy(entries, mask, func, arg)
      {
        SortedByKeys(Contents(entries), keys);
        ScanPassIsPass(entries, 0, mask, func, arg);
        assert entries[..0] == [] && Contents(entries)[0..] == Contents(entries);
      }
    } else {
      var i, j :| 0 <= i < j < |keys| && !Before(keys[i], keys[j]);
      var entries := MisfireAt(keys, i, j);
      assert !IsGreedy(entries, 1, Quiet, 0);
    }
  }

  lemma SortedByKeys(rules: seq<Content>, keys: seq<Content>)
    requires SameKeys(rules, keys) && Sorted(keys)
    ensures Sorted(rules)
  {
    forall i, j | 0 <= i < j < |rules| ensures Before(rules[i], rules[j]) {
      assert Before(keys[i], keys[j]);
    }
  }

  // A callback that never fails.
  function Quiet(c: Content, calls: int): (int, int) {
    (0, calls + 1)
  }

  // Only the two rules at i and j match the mask, and they contradict each other.
  ghost predicate OnlyTwo(rules: seq<Content>, mask: bv64, i: nat, j: nat) {
    && i < j < |rules| && Contradicts(rules[j], rules[i])
    && forall k :: 0 <= k < |rules| ==> (Matches(rules[k], mask) <==> k == i || k == j)
  }

  // The flags are those of the rules fired among the first k.
  ghost predicate FlagsAt(entries: seq<Entry>, k: nat, i: nat, j: nat) {
    forall x :: 0 <= x < |entries| ==> (entries[x].effect <==> (x == i || x == j) && x < k)
  }

  lemma {:induction false} ScanUnflagged(entries: seq<Entry>, filter: Content)
    requires forall x :: 0 <= x < |entries| ==> !entries[x].effect
    ensures !Scan(entries, filter)
  {
    if entries != [] {
      ScanUnflagged(entries[1..], filter);
    }
  }

  // The walk gives up at the one flagged rule if that does not come before the one being filtered.
  lemma {:induction false} ScanStops(entries: seq<Entry>, i: nat, filter: Content)
    requires i < |entries| && forall x :: 0 <= x < |entries| ==> (entries[x].effect <==> x == i)
    requires filter.priority == entries[i].content.priority && filter.ruleId <= entries[i].content.ruleId
    ensures !Scan(entries, filter)
  {
    if i > 0 {
      ScanStops(entries[1..], i - 1, filter);
    }
  }

  // The rules of the two fired before the k-th.
  function FiredOf(a: Content, b: Content, k: nat, i: nat, j: nat): seq<Content> {
    if k <= i then [] else if k <= j then [a] else [a, b]
  }

  lemma FiredOfNext(a: Content, b: Content, k: nat, i: nat, j: nat)
    requires i < j
    ensures k == i ==> FiredOf(a, b, k + 1, i, j) == FiredOf(a, b, k, i, j) + [a]
    ensures k == j ==> FiredOf(a, b, k + 1, i, j) == FiredOf(a, b, k, i, j) + [b]
    ensures k != i && k != j ==> FiredOf(a, b, k + 1, i, j) == FiredOf(a, b, k, i, j)
    ensures k > j ==> FiredOf(a, b, k, i, j) == [a, b]
    ensures FiredOf(a, b, 0, i, j) == []
  {
  }

  lemma FlagsNext(entries: seq<Entry>, k: nat, i: nat, j: nat)
    requires FlagsAt(entries, k, i, j) && k < |entries| && i < j < |entries|
    ensures var e := Flag(entries, k, k == i || k == j);
      && FlagsAt(e, k + 1, i, j) && Contents(e) == Contents(entries) && |e| == |entries|
      && e[i].content == entries[i].content && e[j].content == entries[j].content
    ensures k == i ==> forall x :: 0 <= x < |entries| ==> !Flag(entries, k, false)[x].effect
    ensures k == j ==> forall x :: 0 <= x < |entries| ==> (Flag(entries, k, false)[x].effect <==> x == i)
    ensures Flag(entries, k, false)[i].content == entries[i].content
  {
    assert Contents(Flag(entries, k, k == i || k == j)) == Contents(entries);
  }

  lemma OnlyTwoAt(entries: seq<Entry>, k: nat, mask: bv64, i: nat, j: nat)
    requires OnlyTwo(Contents(entries), mask, i, j) && k < |entries|
    ensures i < j < |entries| && (Matches(entries[k].content, mask) <==> k == i || k == j)
  {
    assert Contents(entries)[k] == entries[k].content;
  }

  // If the later of the two has the smaller id, or the same, the pass fires both.
  lemma {:induction false} BothFire(entries: seq<Entry>, k: nat, mask: bv64, i: nat, j: nat, arg: int)
    requires k <= |entries| && i < j < |entries|
    requires OnlyTwo(Contents(entries), mask, i, j) && FlagsAt(entries, k, i, j)
    requires entries[i].content.priority == entries[j].content.priority
    requires entries[j].content.ruleId <= entries[i].content.ruleId
    ensures var a, b := entries[i].content, entries[j].content;
      ScanPass(entries, k, mask, FiredOf(a, b, k, i, j), Quiet, arg).0.fired == [a, b]
    decreases |entries| - k
  {
    hide Matches, OnlyTwo, FlagsAt, Contradicts, Contents, Scan, ScanPass, FiredOf;
    var a, b := entries[i].content, entries[j].content;
    var fired := FiredOf(a, b, k, i, j);
    FiredOfNext(a, b, k, i, j);
    if k == |entries| {
      ScanPassEnd(entries, mask, fired, Quiet, arg);
    } else {
      var next := if k == i || k == j then arg + 1 else arg;
      FlagsNext(entries, k, i, j);
      OnlyTwoAt(entries, k, mask, i, j);
      BothFire(Flag(entries, k, k == i || k == j), k + 1, mask, i, j, next);
      if k == i {
        ScanUnflagged(Flag(entries, k, false), a);
      } else if k == j {
        ScanStops(Flag(entries, k, false), i, b);
      }
      assert Quiet(entries[k].content, arg) == (0, arg + 1);
      ScanPassStep(entries, k, mask, fired, Quiet, arg);
    }
  }

  // The greedy pass fires at most one of two rules that contradict each other.
  lemma NotBoth(rules: seq<Content>, mask: bv64, a: Content, b: Content)
    requires Contradicts(b, a)
    ensures Pass(rules, mask, [], Quiet, 0).fired != [a, b]
  {
    QuietIsGreedy(rules, mask, [], 0);
    GreedyCompatible(rules, mask, []);
    var fired := Greedy(rules, mask, []);
    assert |fired| == 2 ==> !Contradicts(fired[1], fired[0]);
  }

  lemma {:induction false} QuietIsGreedy(rules: seq<Content>, mask: bv64, fired: seq<Content>, arg: int)
    ensures Pass(rules, mask, fired, Quiet, arg).fired == Greedy(rules, mask, fired)
  {
    if rules != [] {
      QuietIsGreedy(rules[1..], mask, fired, arg);
      QuietIsGreedy(rules[1..], mask, fired + [rules[0]], arg + 1);
    }
  }

  // The rule with the k-th priority and id that makes the pass misfire at i and j.
  function MisfireRule(key: Content, k: nat, i: nat, j: nat): Content {
    key.(kind := FUZZ, imask := IoStat(if k == i || k == j then 1 else 2, 0),
         omask := if k == i then IoStat(2, 0) else if k == j then IoStat(0, 2) else IoStat(0, 0))
  }

  lemma MisfireRuleIs(key: Content, k: nat, i: nat, j: nat)
    requires i < j
    ensures Acceptable(MisfireRule(key, k, i, j))
    ensures Matches(MisfireRule(key, k, i, j), 1) <==> k == i || k == j
    ensures Contradicts(MisfireRule(key, j, i, j), MisfireRule(key, i, i, j))
  {
  }

  lemma MisfireAt(keys: seq<Content>, i: nat, j: nat) returns (entries: seq<Entry>)
    requires i < j < |keys| && keys[i].priority == keys[j].priority && keys[j].ruleId <= keys[i].ruleId
    ensures SameKeys(Contents(entries), keys) && Sound(entries) && !IsGreedy(entries, 1, Quiet, 0)
  {
    entries := seq(|keys|, k requires 0 <= k < |keys| => Entry(MisfireRule(keys[k], k, i, j), true, false));
    forall k | 0 <= k < |keys| ensures Acceptable(entries[k].content)
      ensures Matches(entries[k].content, 1) <==> k == i || k == j
    {
      MisfireRuleIs(keys[k], k, i, j);
    }
    MisfireRuleIs(keys[i], i, i, j);
    MisfireRuleIs(keys[j], j, i, j);
    var a, b := entries[i].content, entries[j].content;
    assert Contradicts(b, a);
    hide Matches, Contradicts, Acceptable, MisfireRule;
    BothFire(entries, 0, 1, i, j, 0);
    NotBoth(Contents(entries), 1, a, b);
  }

  // ---------------------------------------------------------------------------------------------
  // Rule ids: a 16-bit counter hands them out, one per rule added

  ghost predicate Increasing(s: seq<Content>) {
    forall i, j :: 0 <= i < j < |s| ==> s[i].ruleId < s[j].ruleId
  }

  ghost predicate Issued(s: seq<Content>, last: int) {
    forall i :: 0 <= i < |s| ==> 0 <= s[i].ruleId <= last
  }

  function NextId(id: nat): nat {
    (id + 1) % 0x10000
  }

  // A new rule goes last, and its id is the largest unless the counter wrapped over live rules.
  lemma NextIdOrder(live: seq<Content>, c: Content, last: nat)
    requires Increasing(live) && Issued(live, last) && last < 0x10000 && c.ruleId == NextId(last)
    ensures Increasing(live + [c]) && Issued(live + [c], c.ruleId) <==> live == [] || last < 0xFFFF
  {
    var s := live + [c];
    assert s[|live|] == c;
    if live != [] && last == 0xFFFF {
      assert s[0] == live[0];
      assert !Increasing(s);
    }
  }

  // The same along one priority list, which holds some of the live rules.
  lemma NextIdOrderPart(live: seq<Content>, part: seq<Content>, c: Content, last: nat)
    requires Increasing(part) && Issued(live, last) && last < 0x10000 && c.ruleId == NextId(last)
    requires live == [] || last < 0xFFFF
    requires forall x :: x in part ==> x in live
    ensures Increasing(part + [c])
  {
    assert forall i :: 0 <= i < |part| ==> part[i] in live;
  }

  // The position of the first rule with an id; |s| if there is none.
  function IndexOf(s: seq<Content>, id: int): (k: nat)
    ensures k <= |s|
    ensures k < |s| ==> s[k].ruleId == id
    ensures forall i :: 0 <= i < k ==> s[i].ruleId != id
  {
    if s == [] || s[0].ruleId == id then 0 else 1 + IndexOf(s[1..], id)
  }

  // The rules as a table from id to rule.
  ghost function Table(s: seq<Content>): map<int, Content> {
    if s == [] then map[] else Table(s[..|s| - 1])[s[|s| - 1].ruleId := s[|s| - 1]]
  }

  lemma {:induction false} TableHolds(s: seq<Content>)
    requires Increasing(s)
    ensures |Table(s)| == |s|
    ensures forall i :: 0 <= i < |s| ==> s[i].ruleId in Table(s) && Table(s)[s[i].ruleId] == s[i]
    ensures forall id :: id in Table(s) ==> exists i :: 0 <= i < |s| && s[i].ruleId == id
  {
    TableSize(s);
    forall i | 0 <= i < |s| ensures s[i].ruleId in Table(s) && Table(s)[s[i].ruleId] == s[i] {
      TableAt(s, i);
    }
    forall id | id in Table(s) ensures exists i :: 0 <= i < |s| && s[i].ruleId == id {
      var i := TableFrom(s, id);
    }
  }

  lemma TableGrows(s: seq<Content>)
    requires s != [] && Increasing(s)
    ensures var t, c := s[..|s| - 1], s[|s| - 1];
      Increasing(t) && Table(s) == Table(t)[c.ruleId := c] && forall i :: 0 <= i < |t| ==> t[i].ruleId != c.ruleId
  {
  }

  lemma {:induction false} TableFrom(s: seq<Content>, id: int) returns (i: nat)
    requires Increasing(s) && id in Table(s)
    ensures i < |s| && s[i].ruleId == id
  {
    TableEmpty();
    if s[|s| - 1].ruleId == id {
      i := |s| - 1;
    } else {
      TableGrows(s);
      i := TableFrom(s[..|s| - 1], id);
    }
  }

  lemma TableEmpty()
    ensures Table([]) == map[]
  {
  }

  lemma {:induction false} TableAt(s: seq<Content>, i: nat)
    requires Increasing(s) && i < |s|
    ensures s[i].ruleId in Table(s) && Table(s)[s[i].ruleId] == s[i]
  {
    TableGrows(s);
    hide *;
    var t := s[..|s| - 1];
    if i < |t| {
      TableAt(t, i);
      assert t[i] == s[i];
    }
  }

  lemma {:induction false} TableSize(s: seq<Content>)
    requires Increasing(s)
    ensures |Table(s)| == |s|
  {
    TableEmpty();
    if s != [] {
      TableGrows(s);
      var t, id := s[..|s| - 1], s[|s| - 1].ruleId;
      TableSize(t);
      TableLacks(t, id);
      hide *;
      assert id !in Table(t);
    }
  }

  lemma {:induction false} TableLacks(s: seq<Content>, id: int)
    requires Increasing(s) && forall i :: 0 <= i < |s| ==> s[i].ruleId != id
    ensures id !in Table(s)
  {
    TableEmpty();
    if s != [] {
      TableGrows(s);
      TableLacks(s[..|s| - 1], id);
    }
  }

  // Looking an id up by position agrees with the table.
  lemma LookupIsTable(s: seq<Content>, id: int)
    requires Increasing(s)
    ensures IndexOf(s, id) < |s| <==> id in Table(s)
    ensures id in Table(s) ==> Table(s)[id] == s[IndexOf(s, id)]
  {
    TableHolds(s);
  }

  // Which table a list of rules makes: the only one with just these entries.
  lemma TableIs(s: seq<Content>, m: map<int, Content>)
    requires Increasing(s)
    requires forall i :: 0 <= i < |s| ==> s[i].ruleId in m && m[s[i].ruleId] == s[i]
    requires forall id :: id in m ==> exists i :: 0 <= i < |s| && s[i].ruleId == id
    ensures Table(s) == m
  {
    TableHolds(s);
    forall id | id in m || id in Table(s) ensures id in m && id in Table(s) && m[id] == Table(s)[id] {
      var i :| 0 <= i < |s| && s[i].ruleId == id;
    }
  }

  lemma WithoutIncreases(s: seq<Content>, k: nat)
    requires Increasing(s) && k < |s|
    ensures Increasing(s[..k] + s[k + 1..])
    ensures forall i :: 0 <= i < |s| && i != k ==> s[i] in s[..k] + s[k + 1..]
    ensures forall c :: c in s[..k] + s[k + 1..] ==> c in s && c.ruleId != s[k].ruleId
  {
    var t := s[..k] + s[k + 1..];
    assert forall i {:trigger t[i]} :: 0 <= i < |t| ==> t[i] == if i < k then s[i] else s[i + 1];
    assert forall i :: 0 <= i < |s| && i != k ==> s[i] == t[if i < k then i else i - 1];
  }

  // Deleting the rule at position k deletes exactly its entry.
  lemma TableWithout(s: seq<Content>, k: nat)
    requires Increasing(s) && k < |s|
    ensures Increasing(s[..k] + s[k + 1..])
    ensures Table(s[..k] + s[k + 1..]) == Table(s) - {s[k].ruleId}
  {
    WithoutIncreases(s, k);
    TableHolds(s);
    var t := s[..k] + s[k + 1..];
    var m := Table(s) - {s[k].ruleId};
    hide Table, Increasing;
    forall i | 0 <= i < |t| ensures t[i].ruleId in m && m[t[i].ruleId] == t[i] {
      assert t[i] in t;
      var j :| 0 <= j < |s| && s[j] == t[i];
    }
    forall id | id in m ensures exists i :: 0 <= i < |t| && t[i].ruleId == id {
      var j :| 0 <= j < |s| && s[j].ruleId == id;
      assert s[j] in t;
    }
    TableIs(t, m);
  }

  // ---------------------------------------------------------------------------------------------
  // The rule_num counters: eight bits each, counted up under priority - 1 and down under priority

  function CountUp(counters: seq<nat>, i: int): seq<nat> {
    if 0 <= i < |counters| then counters[i := (counters[i] + 1) % 0x100] else counters
  }

  function CountDown(counters: seq<nat>, i: int): seq<nat> {
    if 0 <= i < |counters| then counters[i := (counters[i] + 0xFF) % 0x100] else counters
  }

  // The adds and deletes that succeeded, by the priority of the rule as it is stored.
  datatype Edit = Added(priority: int) | Deleted(priority: int)

  // The counters of n lists after some edits.
  function Counters(n: nat, edits: seq<Edit>): (c: seq<nat>)
    ensures |c| == n
  {
    if edits == [] then seq(n, _ => 0)
    else
      var before, e := Counters(n, edits[..|edits| - 1]), edits[|edits| - 1];
      if e.Added? then CountUp(before, e.priority - 1) else CountDown(before, e.priority)
  }

  function Times(edits: seq<Edit>, e: Edit): nat {
    if edits == [] then 0
    else Times(edits[..|edits| - 1], e) + if edits[|edits| - 1] == e then 1 else 0
  }

  lemma {:induction false} CounterIs(n: nat, edits: seq<Edit>, i: nat)
    requires i < n
    ensures Counters(n, edits)[i] == (Times(edits, Added(i + 1)) - Times(edits, Deleted(i))) % 0x100
  {
    if edits != [] {
      CounterIs(n, edits[..|edits| - 1], i);
    }
  }

  // A list's counter is its length, modulo 256, exactly if as many rules of the next lower priority
  // number have been deleted as of its own; so always as long as only adds have been made.
  lemma CounterRight(n: nat, edits: seq<Edit>, i: nat)
    requires i < n
    ensures Counters(n, edits)[i] == (Times(edits, Added(i + 1)) - Times(edits, Deleted(i + 1))) % 0x100 <==>
      (Times(edits, Deleted(i + 1)) - Times(edits, Deleted(i))) % 0x100 == 0
  {
    CounterIs(n, edits, i);
    hide *;
    SameModulo(Times(edits, Added(i + 1)), Times(edits, Deleted(i)), Times(edits, Deleted(i + 1)));
  }

  // What the edits made of the counters and of the lists: list p holds the rules of priority p + 1.
  ghost predicate Tally<T>(counters: seq<nat>, lists: seq<seq<T>>, edits: seq<Edit>) {
    && |counters| == |lists| == PRIORITY_NUM
    && counters == Counters(PRIORITY_NUM, edits)
    && forall p :: 0 <= p < PRIORITY_NUM ==> |lists[p]| == Times(edits, Added(p + 1)) - Times(edits, Deleted(p + 1))
  }

  lemma TallyAdd<T>(counters: seq<nat>, lists: seq<seq<T>>, edits: seq<Edit>, p: nat, longer: seq<T>)
    requires p < |lists| && |longer| == |lists[p]| + 1
    ensures Tally(counters, lists, edits) ==>
      Tally(CountUp(counters, p), lists[p := longer], edits + [Added(p + 1)])
  {
    assert (edits + [Added(p + 1)])[..|edits|] == edits;
  }

  lemma TallyDel<T>(counters: seq<nat>, lists: seq<seq<T>>, edits: seq<Edit>, p: nat, shorter: seq<T>)
    requires p < |lists| && |shorter| == |lists[p]| - 1
    ensures Tally(counters, lists, edits) ==>
      Tally(CountDown(counters, p + 1), lists[p := shorter], edits + [Deleted(p + 1)])
  {
    assert (edits + [Deleted(p + 1)])[..|edits|] == edits;
  }

  lemma SameModulo(a: int, b: int, c: int)
    ensures (a - b) % 0x100 == (a - c) % 0x100 <==> (c - b) % 0x100 == 0
  {
  }
}
