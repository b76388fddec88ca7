/**
 The rule set of `rule/mask_rule.c`: a fixed pool of nodes, each on two intrusive lists at once.

 The id list holds the whole pool, live nodes first and free nodes after them, with `idLast` on the
 boundary. A live node is also on the priority list at `priority - 1`. The ghost sequences `ids` and
 `prios` are the nodes of those lists in link order.
 */
module RuleSets {
  import opened CircularList
  import opened MaskRules

  const NO_CONTENT := Content(0, 0, FLEX, IoStat(0, 0), IoStat(0, 0))

  class RuleNode {
    const idHead: ListHead
    const priorityHead: ListHead
    var valid: bool
    var effect: bool
    var content: Content

    constructor (index: nat)
      ensures !valid && !effect && content == NO_CONTENT
      ensures fresh(idHead) && idHead.slot == index && idHead.part == IdHead
      ensures fresh(priorityHead) && priorityHead.slot == index && priorityHead.part == PriorityHead
    {
      idHead := new ListHead(index, IdHead);
      priorityHead := new ListHead(index, PriorityHead);
      valid, effect, content := false, false, NO_CONTENT;
    }
  }

  ghost function IdHeads(nodes: seq<RuleNode>): (r: seq<ListHead>)
    ensures |r| == |nodes| && forall i :: 0 <= i < |r| ==> r[i] == nodes[i].idHead
  {
    seq(|nodes|, i requires 0 <= i < |nodes| => nodes[i].idHead)
  }

  ghost function PriorityHeads(nodes: seq<RuleNode>): (r: seq<ListHead>)
    ensures |r| == |nodes| && forall i :: 0 <= i < |r| ==> r[i] == nodes[i].priorityHead
  {
    seq(|nodes|, i requires 0 <= i < |nodes| => nodes[i].priorityHead)
  }

  ghost function ContentsOf(nodes: seq<RuleNode>): (r: seq<Content>)
    reads nodes`content
    ensures |r| == |nodes| && forall i :: 0 <= i < |r| ==> r[i] == nodes[i].content
  {
    if nodes == [] then [] else [nodes[0].content] + ContentsOf(nodes[1..])
  }

  function Min(a: nat, b: nat): nat {
    if a < b then a else b
  }

  class RuleSet {
    var ruleCnt: nat
    var ruleId: nat
    const ruleCap: nat
    const idList: ListHead
    var idLast: ListHead
    const prioList: seq<ListHead>
    var prioLast: seq<ListHead>
    var ruleNum: seq<nat>
    const ruleMem: seq<RuleNode>

    ghost const heads: set<ListHead>
    ghost const nodes: set<RuleNode>
    ghost var ids: seq<RuleNode>
    ghost var prios: seq<seq<RuleNode>>
    // The adds and deletes that succeeded so far.
    ghost var log: seq<Edit>

    // The memory block: which head is embedded where. Only constants, so never disturbed.
    ghost predicate Pool() {
      && |ruleMem| == ruleCap < 0x10000
      && NodesIn(ruleMem, heads, nodes)
      && idList in heads && idList.slot == -1 && idList.part == IdHead
      && ListsIn(prioList, heads)
    }

    static ghost predicate NodesIn(mem: seq<RuleNode>, heads: set<ListHead>, nodes: set<RuleNode>) {
      forall i :: 0 <= i < |mem| ==>
        && mem[i] in nodes
        && mem[i].idHead in heads && mem[i].idHead.slot == i && mem[i].idHead.part == IdHead
        && mem[i].priorityHead in heads && mem[i].priorityHead.slot == i && mem[i].priorityHead.part == PriorityHead
    }

    static ghost predicate ListsIn(lists: seq<ListHead>, heads: set<ListHead>) {
      && |lists| == PRIORITY_NUM
      && forall p :: 0 <= p < PRIORITY_NUM ==>
        lists[p] in heads && lists[p].slot == -1 - p && lists[p].part == PriorityHead
    }

    static lemma LargerPool(mem: seq<RuleNode>, lists: seq<ListHead>, h1: set<ListHead>, h2: set<ListHead>,
                            h: set<ListHead>, all: set<RuleNode>)
      requires NodesIn(mem, h1, all) && ListsIn(lists, h2) && h1 <= h && h2 <= h
      ensures NodesIn(mem, h, all) && ListsIn(lists, h)
    {
    }

    ghost predicate InPool(node: RuleNode) {
      0 <= node.idHead.slot < |ruleMem| && ruleMem[node.idHead.slot] == node
    }

    ghost predicate AllInPool(s: seq<RuleNode>) {
      forall i :: 0 <= i < |s| ==> InPool(s[i])
    }

    // Distinct valid nodes of priority p + 1.
    ghost predicate NodesOk(p: nat, s: seq<RuleNode>)
      reads s`valid, s`content
    {
      && Distinct(s)
      && forall i :: 0 <= i < |s| ==> s[i].valid && s[i].content.priority == p + 1
    }

    // The nine lists: the id list strings the whole pool, the priority lists some of it.
    ghost predicate ListsOk()
      reads this`ids, this`prios, heads, nodes`valid, nodes`content
    {
      && Pool() && AllInPool(ids)
      && |ids| == ruleCap && Distinct(ids)
      && Ring(idList, IdHeads(ids))
      && |prios| == PRIORITY_NUM && (forall p :: 0 <= p < PRIORITY_NUM ==>
        AllInPool(prios[p]) && NodesOk(p, prios[p]) && Ring(prioList[p], PriorityHeads(prios[p])))
    }

    // The first live nodes of the id list are exactly the valid ones, and idLast is the last of them.
    ghost predicate LiveOk(live: nat)
      requires Pool() && AllInPool(ids)
      reads this, nodes`valid
    {
      && live <= ruleCap == |ids|
      && (forall i :: 0 <= i < |ids| ==> (ids[i].valid <==> i < live))
      && idLast == (if live == 0 then idList else ids[live - 1].idHead)
    }

    // A live node holds an acceptable rule and is filed under its priority.
    ghost predicate Filed(node: RuleNode, content: Content, prios: seq<seq<RuleNode>>) {
      && 1 <= content.priority < PRIORITY_NUM && content.priority <= |prios|
      && node in prios[content.priority - 1]
      && Acceptable(content)
    }

    ghost predicate Valid()
      reads this, heads, nodes`valid, nodes`content
    {
      && ListsOk()
      && LiveOk(ruleCnt)
      && (forall i :: 0 <= i < ruleCnt ==> Filed(ids[i], ids[i].content, prios))
      && ruleId < 0x10000 && |prioLast| == |ruleNum| == PRIORITY_NUM
    }

    // The live rules in id-list order, which is the order they were added in.
    ghost function Live(): seq<Content>
      reads this`ids, this`ruleCnt, ids`content
    {
      ContentsOf(ids[..Min(ruleCnt, |ids|)])
    }

    // The live rules of one priority list.
    ghost function Rules(p: nat): seq<Content>
      requires p < |prios|
      reads this`prios, prios[p]`content
    {
      ContentsOf(prios[p])
    }

    // Ids grow along the id list and along every priority list.
    ghost predicate Ordered()
      reads this, heads, nodes`valid, nodes`content
    {
      && ListsOk()
      && Increasing(Live()) && Issued(Live(), ruleId)
      && forall p :: 0 <= p < PRIORITY_NUM ==> Increasing(Rules(p))
    }

    // The counters and the lengths of the priority lists are what the adds and deletes made them.
    ghost predicate Counted()
      reads this
    {
      Tally(ruleNum, prios, log)
    }

    lemma CountedIs()
      ensures Counted() <==> Tally(ruleNum, prios, log)
    {
    }

    // A counter is right, modulo 256, exactly if as many rules of the next lower priority number have
    // been deleted as of the list's own.
    lemma CounterIsLength(p: nat)
      requires Counted() && p < PRIORITY_NUM
      ensures |ruleNum| == |prios| == PRIORITY_NUM
      ensures ruleNum[p] == |Rules(p)| % 0x100 <==>
        (Times(log, Deleted(p + 1)) - Times(log, Deleted(p))) % 0x100 == 0
    {
      CounterRight(PRIORITY_NUM, log, p);
    }

    // mask_rule_init
    constructor (ruleNum: nat)
      requires ruleNum < 0x10000
      ensures Valid() && fresh(heads) && fresh(nodes)
      ensures ruleCap == ruleNum && ruleCnt == 0 && ruleId == 0
      ensures Ordered() && forall p :: 0 <= p < |this.ruleNum| ==> this.ruleNum[p] == 0
      ensures Counted() && log == [] && forall n :: n in nodes ==> !n.effect
    {
      hide *;
      var mem, memHeads, memNodes := NewNodes(ruleNum);
      var lists, listHeads := NewLists();
      var sentinel := new ListHead(-1, IdHead);
      ghost var all := {sentinel} + listHeads + memHeads;
      LargerPool(mem, lists, memHeads, listHeads, all, memNodes);
      ruleCap, ruleMem, prioList, prioLast := ruleNum, mem, lists, lists;
      idList, idLast := sentinel, sentinel;
      ruleCnt, ruleId := 0, 0;
      this.ruleNum := seq(|lists|, _ => 0);
      heads, nodes := all, memNodes;
      ids, prios, log := [], seq(|lists|, _ => []), [];
      new;
      PoolIs();
      TallyStart(this.ruleNum, prios);
      ThreadIds();
      CountedIs();
    }

    lemma PoolIs()
      requires |ruleMem| == ruleCap < 0x10000 && NodesIn(ruleMem, heads, nodes) && ListsIn(prioList, heads)
      requires idList in heads && idList.slot == -1 && idList.part == IdHead
      ensures Pool() && |prioList| == PRIORITY_NUM
    {
    }

    static lemma TallyStart(counters: seq<nat>, lists: seq<seq<RuleNode>>)
      requires |counters| == |lists| == PRIORITY_NUM
      requires forall p :: 0 <= p < PRIORITY_NUM ==> counters[p] == 0 && lists[p] == []
      ensures Tally(counters, lists, [])
    {
      assert counters == Counters(PRIORITY_NUM, []);
    }

    static method NewNodes(n: nat) returns (mem: seq<RuleNode>, ghost heads: set<ListHead>, ghost all: set<RuleNode>)
      ensures |mem| == n && fresh(heads) && fresh(all) && NodesIn(mem, heads, all)
      ensures forall i :: 0 <= i < n ==> !mem[i].valid
      ensures forall x :: x in all ==> !x.effect
    {
      mem, heads, all := [], {}, {};
      for i := 0 to n
        invariant |mem| == i && fresh(heads) && fresh(all) && NodesIn(mem, heads, all)
        invariant forall j :: 0 <= j < i ==> !mem[j].valid
        invariant forall x :: x in all ==> !x.effect
      {
        var node := new RuleNode(i);
        mem, all := mem + [node], all + {node};
        heads := heads + {node.idHead, node.priorityHead};
      }
    }

    static method NewLists() returns (lists: seq<ListHead>, ghost heads: set<ListHead>)
      ensures fresh(heads) && ListsIn(lists, heads) && |lists| == PRIORITY_NUM
      ensures forall p :: 0 <= p < PRIORITY_NUM ==> Ring(lists[p], [])
    {
      lists, heads := [], {};
      for p := 0 to PRIORITY_NUM
        invariant |lists| == p && fresh(heads)
        invariant forall q :: 0 <= q < p ==>
          && lists[q] in heads && lists[q].slot == -1 - q && lists[q].part == PriorityHead
          && Ring(lists[q], [])
      {
        var list := new ListHead(-1 - p, PriorityHead);
        lists, heads := lists + [list], heads + {list};
      }
    }

    // The loop of mask_rule_init that strings the pool onto the id list.
    method ThreadIds()
      requires Pool() && Ring(idList, []) && idLast == idList
      requires ruleCnt == 0 && ruleId < 0x10000
      requires |prios| == |prioLast| == |ruleNum| == PRIORITY_NUM
      requires forall i :: 0 <= i < ruleCap ==> !ruleMem[i].valid
      requires forall p :: 0 <= p < PRIORITY_NUM ==> prios[p] == [] && Ring(prioList[p], [])
      modifies this`ids, set h | h in heads && h.part == IdHead
      ensures Valid() && Ordered()
    {
      hide *;
      PoolFacts();
      ghost var s: seq<ListHead> := [];
      for i := 0 to ruleCap
        invariant |s| == i && forall j :: 0 <= j < i ==> s[j] == ruleMem[i - 1 - j].idHead
        invariant Ring(idList, s)
      {
        assert forall j :: 0 <= j < i ==> s[j].slot < i;
        RingEnds(idList, s);
        ListAdd(ruleMem[i].idHead, idList, s);
        s := [ruleMem[i].idHead] + s;
      }
      ids := seq(ruleCap, j requires 0 <= j < ruleCap => ruleMem[ruleCap - 1 - j]);
      assert IdHeads(ids) == s;
      EmptySetValid();
    }

    lemma PoolFacts()
      requires Pool()
      ensures |ruleMem| == ruleCap && idList in heads && idList.slot == -1 && idList.part == IdHead
      ensures forall i :: 0 <= i < ruleCap ==>
        ruleMem[i].idHead in heads && ruleMem[i].idHead.slot == i && ruleMem[i].idHead.part == IdHead
      ensures |prioList| == PRIORITY_NUM && forall p :: 0 <= p < PRIORITY_NUM ==> prioList[p].part == PriorityHead
    {
    }

    lemma EmptySetValid()
      requires Pool() && |ids| == ruleCap && Ring(idList, IdHeads(ids)) && idLast == idList
      requires forall j :: 0 <= j < ruleCap ==> ids[j] == ruleMem[ruleCap - 1 - j]
      requires ruleCnt == 0 && ruleId < 0x10000
      requires |prios| == |prioLast| == |ruleNum| == PRIORITY_NUM
      requires forall i :: 0 <= i < ruleCap ==> !ruleMem[i].valid
      requires forall p :: 0 <= p < PRIORITY_NUM ==> prios[p] == [] && Ring(prioList[p], [])
      ensures Valid() && Ordered()
    {
      assert forall j :: 0 <= j < ruleCap ==> ids[j].idHead.slot == ruleCap - 1 - j;
      forall p | 0 <= p < PRIORITY_NUM ensures Ring(prioList[p], PriorityHeads(prios[p])) {
        assert PriorityHeads(prios[p]) == [];
      }
    }

    // The last node of the live part of the id list is followed by the first free one.
    lemma FirstFree()
      requires Valid() && ruleCnt < ruleCap
      ensures ListsOk()
      ensures var node := ids[ruleCnt];
        && idLast.next == node.idHead && InPool(node) && node in nodes
        && forall p :: 0 <= p < PRIORITY_NUM ==> node !in prios[p]
      ensures |prioLast| == |ruleNum| == PRIORITY_NUM
      ensures forall i :: 0 <= i < ruleCap ==>
        && (ids[i] == ids[ruleCnt] <==> i == ruleCnt)
        && (ids[i].valid <==> i < ruleCnt)
      ensures forall i :: 0 <= i < ruleCnt ==> Filed(ids[i], ids[i].content, prios)
    {
      var s := IdHeads(ids);
      assert s[ruleCnt] == ids[ruleCnt].idHead;
      if ruleCnt > 0 {
        assert s[ruleCnt - 1].next == At(idList, s, ruleCnt);
      }
      assert InPool(ids[ruleCnt]);
    }

    // A node's links while it is on no priority list can be written without touching the lists.
    method Fill(node: RuleNode, content: Content)
      requires ListsOk() && InPool(node)
      requires forall p :: 0 <= p < PRIORITY_NUM ==> node !in prios[p]
      modifies node`content, node`valid
      ensures ListsOk()
      ensures node.content == content && node.valid
    {
      node.content := content;
      node.valid := true;
      assert forall p :: 0 <= p < PRIORITY_NUM ==> NodesOk(p, prios[p]);
    }

    lemma ListsFacts()
      requires ListsOk()
      ensures Pool() && AllInPool(ids) && |ids| == ruleCap && Distinct(ids) && Ring(idList, IdHeads(ids))
      ensures |prioList| == |prios| == PRIORITY_NUM
      ensures forall p :: 0 <= p < PRIORITY_NUM ==>
        AllInPool(prios[p]) && NodesOk(p, prios[p]) && Ring(prioList[p], PriorityHeads(prios[p]))
    {
    }

    // Filing at the tail of list p touches three links of that list. No other list has them: an id
    // link is never a priority link, and a node's priority link is on the list of its priority.
    lemma TailApart(node: RuleNode, p: nat)
      requires ListsOk() && p < PRIORITY_NUM
      requires InPool(node) && node.valid && node.content.priority == p + 1 && node !in prios[p]
      ensures node.priorityHead != prioList[p] && node.priorityHead !in PriorityHeads(prios[p])
      ensures var touched := {node.priorityHead, prioList[p], prioList[p].prev};
        && touched <= heads
        && idList !in touched && (forall x :: x in IdHeads(ids) ==> x !in touched)
        && forall q :: 0 <= q < PRIORITY_NUM && q != p ==>
          prioList[q] !in touched && forall x :: x in PriorityHeads(prios[q]) ==> x !in touched
    {
      var s := PriorityHeads(prios[p]);
      assert prioList[p].prev == At(prioList[p], s, |s| - 1);
      forall q, x | 0 <= q < PRIORITY_NUM && q != p && x in PriorityHeads(prios[q])
        ensures x !in {node.priorityHead, prioList[p], prioList[p].prev}
      {
        var i :| 0 <= i < |prios[q]| && x == prios[q][i].priorityHead;
      }
    }

    lemma AppendedOk(node: RuleNode, p: nat, was: seq<seq<RuleNode>>)
      requires Pool() && AllInPool(ids) && |ids| == ruleCap && Distinct(ids) && Ring(idList, IdHeads(ids))
      requires |was| == PRIORITY_NUM && forall q :: 0 <= q < PRIORITY_NUM ==> AllInPool(was[q]) && NodesOk(q, was[q])
      requires forall q :: 0 <= q < PRIORITY_NUM && q != p ==> Ring(prioList[q], PriorityHeads(was[q]))
      requires p < PRIORITY_NUM && InPool(node) && node.valid && node.content.priority == p + 1 && node !in was[p]
      requires Ring(prioList[p], PriorityHeads(was[p]) + [node.priorityHead])
      requires prios == was[p := was[p] + [node]]
      ensures ListsOk()
    {
      assert PriorityHeads(was[p] + [node]) == PriorityHeads(was[p]) + [node.priorityHead];
    }

    // Filing a node at the tail of priority list p leaves every other list as it was.
    method AppendTo(node: RuleNode, p: nat)
      requires ListsOk() && p < PRIORITY_NUM
      requires InPool(node) && node.valid && node.content.priority == p + 1 && node !in prios[p]
      modifies heads, this`prios
      ensures ListsOk()
      ensures prios == old(prios)[p := old(prios)[p] + [node]]
    {
      hide *;
      ListsFacts();
      TailApart(node, p);
      ghost var was := prios;
      ListAddTail(node.priorityHead, prioList[p], PriorityHeads(was[p]));
      prios := was[p := was[p] + [node]];
      AppendedOk(node, p, was);
    }

    // A free node takes in a rule and goes to the tail of its priority list.
    method Place(node: RuleNode, content: Content, p: nat)
      requires ListsOk() && p < PRIORITY_NUM && InPool(node) && content.priority == p + 1
      requires forall q :: 0 <= q < PRIORITY_NUM ==> node !in prios[q]
      modifies heads, this`prios, node`content, node`valid
      ensures ListsOk() && node.content == content && node.valid
      ensures prios == old(prios)[p := old(prios)[p] + [node]]
    {
      hide *;
      Fill(node, content);
      AppendTo(node, p);
    }

    // Once the first free node is written and filed, moving the boundary past it restores the invariant.
    lemma AddedOk(live: nat, p: nat, was: seq<seq<RuleNode>>)
      requires ListsOk() && live < ruleCap && p < PRIORITY_NUM - 1
      requires forall i :: 0 <= i < ruleCap ==> (ids[i].valid <==> i <= live)
      requires forall i :: 0 <= i < live ==> Filed(ids[i], ids[i].content, was)
      requires |was| == PRIORITY_NUM && prios == was[p := was[p] + [ids[live]]]
      requires ids[live].content.priority == p + 1 && Acceptable(ids[live].content)
      requires ruleCnt == live + 1 && idLast == ids[live].idHead
      requires |prioLast| == |ruleNum| == PRIORITY_NUM && exists id: nat {:trigger NextId(id)} :: ruleId == NextId(id)
      ensures Valid()
    {
      assert |ids| == ruleCap;
      hide Acceptable, ListsOk;
      assert prios[p][|was[p]|] == ids[live];
      forall i | 0 <= i < ruleCnt ensures Filed(ids[i], ids[i].content, prios) {
        if i < live {
          assert was[ids[i].content.priority - 1] <= prios[ids[i].content.priority - 1];
        }
      }
    }

    // What mask_rule_add answers, in the order it checks.
    ghost function AddStatus(rule: Content): int
      reads this
    {
      if ruleCnt >= ruleCap then -2
      else if rule.kind != 0 && rule.kind != 1 then -5
      else if Overlap(rule.imask.up, rule.imask.down) then -6
      else if Overlap(rule.omask.up, rule.omask.down) then -7
      else 0
    }

    // The rule as it is stored: numbered, and with priority 0 read as the lowest.
    static function Stored(rule: Content, id: int): Content {
      rule.(ruleId := id, priority := if rule.priority == 0 then PRIORITY_NUM - 1 else rule.priority)
    }

    lemma StoredIs(rule: Content, id: int)
      ensures Stored(rule, id) ==
        Content(id, if rule.priority == 0 then 7 else rule.priority, rule.kind, rule.imask, rule.omask)
    {
    }

    lemma StoredOk(rule: Content, id: int)
      requires Acceptable(rule) && 0 <= rule.priority < PRIORITY_NUM
      ensures Acceptable(Stored(rule, id)) && 1 <= Stored(rule, id).priority < PRIORITY_NUM
      ensures Stored(rule, id).priority == if rule.priority == 0 then PRIORITY_NUM - 1 else rule.priority
    {
    }

    // The list add files a rule on, and the list delete looks at for it.
    static function AddList(rule: Content): int {
      Stored(rule, 0).priority - 1
    }

    static function DelList(rule: Content): int {
      Stored(rule, 0).priority
    }

    // Both are lists of the set exactly for the priorities below 8, which is what the caller checks and
    // Add asks for. Priority 8 is added to the last list, but deleting it looks at a ninth.
    static lemma PriorityFits(rule: Content)
      requires 0 <= rule.priority < 0x100
      ensures 0 <= AddList(rule) < PRIORITY_NUM && 0 <= DelList(rule) < PRIORITY_NUM <==> rule.priority < PRIORITY_NUM
      ensures rule.priority == 8 ==> AddList(rule) == PRIORITY_NUM - 1 && DelList(rule) == PRIORITY_NUM
    {
    }

    lemma LiveIs()
      requires Valid()
      ensures ruleCnt <= |ids| && Live() == ContentsOf(ids[..ruleCnt])
      ensures |prios| == PRIORITY_NUM && forall p :: 0 <= p < PRIORITY_NUM ==> Rules(p) == ContentsOf(prios[p])
    {
    }

    // The part of mask_rule_add after its checks.
    method Store(rule: Content)
      requires Valid() && 0 <= rule.priority < PRIORITY_NUM
      requires ruleCnt < ruleCap && Acceptable(rule)
      modifies this, heads, {ids[ruleCnt]}`content, {ids[ruleCnt]}`valid
      ensures Valid() && ruleCnt == old(ruleCnt) + 1
      ensures ruleId == NextId(old(ruleId)) && ids == old(ids)
      ensures ids[old(ruleCnt)].content == Stored(rule, ruleId)
      ensures var p := Stored(rule, ruleId).priority - 1;
        && 0 <= p < PRIORITY_NUM && |old(prios)| == |old(ruleNum)| == PRIORITY_NUM
        && prios == old(prios)[p := old(prios)[p] + [ids[old(ruleCnt)]]]
        && ruleNum == CountUp(old(ruleNum), p)
        && log == old(log) + [Added(p + 1)]
    {
      hide *;
      FirstFree();
      ghost var live, was := ruleCnt, prios;
      var newHead := idLast.next;
      var node := ruleMem[newHead.slot];
      ruleId := NextId(ruleId);
      var priority := if rule.priority == 0 then PRIORITY_NUM - 1 else rule.priority;
      var prioIdx := priority - 1;
      StoredOk(rule, ruleId);
      Place(node, Stored(rule, ruleId), prioIdx);
      StepOn(newHead, node, prioIdx);
      AddedOk(live, prioIdx, was);
    }

    // The last-node and count updates of mask_rule_add.
    method StepOn(newHead: ListHead, node: RuleNode, prioIdx: nat)
      requires prioIdx < |prioLast| == |ruleNum|
      modifies this`idLast, this`prioLast, this`ruleNum, this`ruleCnt, this`log
      ensures idLast == newHead && prioLast == old(prioLast)[prioIdx := node.priorityHead]
      ensures ruleNum == CountUp(old(ruleNum), prioIdx) && |ruleNum| == |old(ruleNum)|
      ensures ruleCnt == old(ruleCnt) + 1 && log == old(log) + [Added(prioIdx + 1)]
    {
      idLast := newHead;
      prioLast := prioLast[prioIdx := node.priorityHead];
      ruleNum := ruleNum[prioIdx := (ruleNum[prioIdx] + 1) % 0x100];
      ruleCnt := ruleCnt + 1;
      log := log + [Added(prioIdx + 1)];
    }

    lemma CountDownIs(i: nat)
      requires i < |ruleNum|
      ensures CountDown(ruleNum, i) == ruleNum[i := (ruleNum[i] + 0xFF) % 0x100]
    {
    }

    // The same, told in terms of the rules held.
    method StoreNew(rule: Content)
      requires Valid() && 0 <= rule.priority < PRIORITY_NUM
      requires ruleCnt < ruleCap && Acceptable(rule)
      modifies this, heads, nodes`content, nodes`valid
      ensures Valid()
      ensures var c := Stored(rule, ruleId);
        && ruleId == NextId(old(ruleId)) && Live() == old(Live()) + [c]
        && forall p :: 0 <= p < PRIORITY_NUM ==>
          Rules(p) == old(Rules(p)) + if p == c.priority - 1 then [c] else []
      ensures ruleNum == CountUp(old(ruleNum), Stored(rule, ruleId).priority - 1)
      ensures log == old(log) + [Added(Stored(rule, ruleId).priority)]
      ensures old(Counted()) ==> Counted()
      ensures old(Ordered()) ==> (Ordered() <==> old(ruleCnt) == 0 || old(ruleId) < 0xFFFF)
    {
      hide *;
      FirstFree();
      LiveIs();
      ghost var was := OrderedFacts();
      ghost var live, node, p := ruleCnt, ids[ruleCnt], Stored(rule, NextId(ruleId)).priority - 1;
      CountedIs();
      Store(rule);
      TallyAdd(old(ruleNum), old(prios), old(log), p, prios[p]);
      CountedIs();
      LiveIs();
      assert ContentsOf(ids[..live + 1]) == old(ContentsOf(ids[..live])) + [node.content];
      assert ContentsOf(old(prios)[p] + [node]) == old(ContentsOf(prios[p])) + [node.content];
      if old(Ordered()) {
        ContentId(rule, ruleId);
        OrderedAdd(node.content, old(ruleId), old(Live()), was);
      }
    }

    lemma ContentId(rule: Content, id: int)
      ensures Stored(rule, id).ruleId == id
    {
    }

    lemma OrderedFacts() returns (was: seq<seq<Content>>)
      requires Valid()
      ensures |was| == |prios| == PRIORITY_NUM && forall p :: 0 <= p < PRIORITY_NUM ==> was[p] == Rules(p)
      ensures ListsOk() && ruleId < 0x10000 && |Live()| == ruleCnt
      ensures Ordered() ==> Increasing(Live()) && Issued(Live(), ruleId)
      ensures Ordered() ==> forall p :: 0 <= p < PRIORITY_NUM ==>
        Increasing(was[p]) && forall x :: x in was[p] ==> x in Live()
    {
      hide *;
      LiveIs();
      ValidFacts();
      RulesAreLive();
      OrderedIs();
      was := [];
      while |was| < PRIORITY_NUM
        invariant |was| <= PRIORITY_NUM && forall p :: 0 <= p < |was| ==> was[p] == Rules(p)
      {
        was := was + [Rules(|was|)];
      }
    }

    lemma OrderedIs()
      requires ListsOk()
      ensures |prios| == PRIORITY_NUM
      ensures Ordered() ==> Increasing(Live()) && Issued(Live(), ruleId)
      ensures Ordered() ==> forall p :: 0 <= p < PRIORITY_NUM ==> Increasing(Rules(p))
    {
    }

    // Every node of a priority list is a live node of the id list, which strings the whole pool.
    lemma ListedIsLive(p: nat, i: nat) returns (k: nat)
      requires Valid() && p < PRIORITY_NUM && i < |prios[p]|
      ensures k < ruleCnt <= |ids| && ids[k] == prios[p][i]
    {
      hide *;
      ValidFacts();
      ListsFacts();
      var node := prios[p][i];
      ListedIsValid(p, i);
      var own := ids;
      var slots := seq(|own|, k requires 0 <= k < |own| => own[k].idHead.slot);
      SlotsDistinct(slots);
      Pigeonhole(slots, ruleCap);
      assert node.idHead.slot in slots;
      k :| 0 <= k < |slots| && slots[k] == node.idHead.slot;
      SameSlot(own[k], node);
    }

    lemma ListedIsValid(p: nat, i: nat)
      requires p < PRIORITY_NUM && p < |prios| && i < |prios[p]| && AllInPool(prios[p]) && NodesOk(p, prios[p]) && Pool()
      ensures prios[p][i].valid && InPool(prios[p][i]) && 0 <= prios[p][i].idHead.slot < ruleCap
    {
    }

    lemma SlotsDistinct(slots: seq<int>)
      requires AllInPool(ids) && Distinct(ids) && Pool() && |slots| == |ids|
      requires forall k :: 0 <= k < |ids| ==> slots[k] == ids[k].idHead.slot
      ensures Distinct(slots) && forall k :: 0 <= k < |slots| ==> 0 <= slots[k] < ruleCap && InPool(ids[k])
    {
      assert forall k :: 0 <= k < |ids| ==> InPool(ids[k]);
    }

    lemma SameSlot(a: RuleNode, b: RuleNode)
      requires InPool(a) && InPool(b) && a.idHead.slot == b.idHead.slot
      ensures a == b
    {
    }

    lemma RulesAreLive()
      requires Valid()
      ensures |prios| == PRIORITY_NUM
      ensures forall p, c :: 0 <= p < PRIORITY_NUM && c in Rules(p) ==> c in Live()
    {
      hide *;
      LiveIs();
      forall p, c | 0 <= p < PRIORITY_NUM && c in Rules(p) ensures c in Live() {
        var i :| 0 <= i < |prios[p]| && prios[p][i].content == c;
        var k := ListedIsLive(p, i);
        assert Live()[k] == c;
      }
    }

    // What an add does to the order of ids.
    lemma OrderedAdd(c: Content, wasId: nat, wasLive: seq<Content>, was: seq<seq<Content>>)
      requires Valid() && |was| == PRIORITY_NUM && wasId < 0x10000
      requires c.ruleId == ruleId == NextId(wasId) && Live() == wasLive + [c]
      requires forall p :: 0 <= p < PRIORITY_NUM ==> Rules(p) == was[p] || Rules(p) == was[p] + [c]
      requires Increasing(wasLive) && Issued(wasLive, wasId)
      requires forall p :: 0 <= p < PRIORITY_NUM ==> Increasing(was[p]) && forall x :: x in was[p] ==> x in wasLive
      ensures Ordered() <==> wasLive == [] || wasId < 0xFFFF
    {
      LiveIs();
      hide Valid, ListsOk;
      NextIdOrder(wasLive, c, wasId);
      if wasLive == [] || wasId < 0xFFFF {
        forall p | 0 <= p < PRIORITY_NUM ensures Increasing(Rules(p)) {
          NextIdOrderPart(wasLive, was[p], c, wasId);
        }
      }
    }

    // mask_rule_add
    method Add(rule: Content) returns (status: int)
      requires Valid() && 0 <= rule.priority < PRIORITY_NUM
      modifies this, heads, nodes`content, nodes`valid
      ensures Valid()
      ensures status == old(AddStatus(rule))
      ensures status != 0 ==> ruleId == old(ruleId) && Live() == old(Live())
      ensures status != 0 ==> forall p :: 0 <= p < PRIORITY_NUM ==> Rules(p) == old(Rules(p))
      ensures status == 0 ==>
        var c := Content(ruleId, if rule.priority == 0 then 7 else rule.priority, rule.kind, rule.imask, rule.omask);
        && ruleId == (old(ruleId) + 1) % 0x10000 && Live() == old(Live()) + [c]
        && forall p :: 0 <= p < PRIORITY_NUM ==>
          Rules(p) == old(Rules(p)) + if p == c.priority - 1 then [c] else []
      ensures ruleNum == if status == 0 then CountUp(old(ruleNum), Stored(rule, ruleId).priority - 1) else old(ruleNum)
      ensures log == if status == 0 then old(log) + [Added(Stored(rule, ruleId).priority)] else old(log)
      ensures old(Counted()) ==> Counted()
      ensures old(Ordered()) ==> (Ordered() <==> status != 0 || old(ruleCnt) == 0 || old(ruleId) < 0xFFFF)
    {
      hide Valid, Ordered, Live, Rules, CountUp, Tally, Stored, Overlap;
      LiveIs();
      StoredIs(rule, NextId(ruleId));
      OverlapCommutes(rule.imask.up, rule.imask.down);
      OverlapCommutes(rule.omask.up, rule.omask.down);
      if ruleCnt >= ruleCap {
        status := ERR_CAP_FULL;
      } else if rule.kind != FLEX && rule.kind != FUZZ {
        status := ERR_INVALID_TYPE;
      } else if !Disjoint(rule.imask) {
        status := ERR_INVALID_IMASK;
      } else if !Disjoint(rule.omask) {
        status := ERR_INVALID_OMASK;
      } else {
        StoreNew(rule);
        status := SUCCESS;
      }
    }

    // Walking the id list by `next` visits ids in order.
    lemma IdWalk()
      requires Valid()
      ensures |ids| == ruleCap && ruleCnt <= ruleCap
      ensures idList.next == IdAt(0)
      ensures forall i :: 0 <= i < |ids| ==>
        && ids[i].idHead != idList && ids[i].idHead.next == IdAt(i + 1)
        && 0 <= ids[i].idHead.slot < |ruleMem| && ruleMem[ids[i].idHead.slot] == ids[i]
        && (ids[i].valid <==> i < ruleCnt)
    {
      var s := IdHeads(ids);
      assert forall i :: -1 <= i <= |ids| ==> At(idList, s, i) == IdAt(i);
      forall i | 0 <= i < |ids| ensures ids[i].idHead.next == IdAt(i + 1) && ids[i].idHead != idList {
        assert s[i].next == At(idList, s, i + 1) && s[i] in s;
      }
    }

    ghost function IdAt(i: int): ListHead
      reads this`ids
    {
      if 0 <= i < |ids| then ids[i].idHead else idList
    }

    // mask_rule_get. The id argument is a byte, so a larger one is cut to its low eight bits.
    method Get(arg: int) returns (node: RuleNode?)
      requires Valid()
      ensures var k := IndexOf(Live(), arg % 0x100);
              if k < |Live()| then k < |ids| && node == ids[k] else node == null
    {
      hide *;
      LiveIs();
      IdWalk();
      if ruleCnt == 0 {
        return null;
      }
      var id := arg % 0x100;
      var pos := idList.next;
      ghost var i := 0;
      while pos != idList
        invariant 0 <= i <= ruleCnt && pos == IdAt(i)
        invariant forall j :: 0 <= j < i ==> Live()[j].ruleId != id
        decreases ruleCnt - i
      {
        IdAtIs(i);
        var entry := ruleMem[pos.slot];
        var tmp := pos.next;
        if !entry.valid {
          return null;
        }
        if entry.content.ruleId == id {
          return entry;
        }
        pos := tmp;
        i := i + 1;
      }
      IdAtIs(i);
      node := null;
    }

    lemma IdAtIs(i: int)
      ensures IdAt(i) == if 0 <= i < |ids| then ids[i].idHead else idList
    {
    }

    ghost predicate OnList(p: nat, x: ListHead)
      requires p < |prioList| && p < |prios|
      reads this`prios
    {
      x == prioList[p] || x in PriorityHeads(prios[p])
    }

    ghost predicate OnIdList(x: ListHead)
      reads this`ids
    {
      x == idList || x in IdHeads(ids)
    }

    // No link is on two lists.
    lemma RingsApart()
      requires ListsOk()
      ensures |prioList| == |prios| == PRIORITY_NUM
      ensures forall x :: OnIdList(x) ==> x in heads && forall p :: 0 <= p < PRIORITY_NUM ==> !OnList(p, x)
      ensures forall p, x :: 0 <= p < PRIORITY_NUM && OnList(p, x) ==>
        x in heads && !OnIdList(x) && forall q :: 0 <= q < PRIORITY_NUM && q != p ==> !OnList(q, x)
    {
      forall p, x | 0 <= p < PRIORITY_NUM && OnList(p, x)
        ensures x in heads && x.part == PriorityHead && x.slot < ruleCap
        ensures p == if x.slot < 0 then -1 - x.slot else ruleMem[x.slot].content.priority - 1
      {
        if x != prioList[p] {
          var i :| 0 <= i < |prios[p]| && x == prios[p][i].priorityHead;
        }
      }
    }

    lemma ValidFacts()
      requires Valid()
      ensures ListsOk() && Distinct(ids) && AllInPool(ids)
      ensures |ids| == ruleCap && ruleCnt <= ruleCap && idLast == IdAt(ruleCnt - 1) && ruleId < 0x10000
      ensures |prios| == |prioList| == |prioLast| == |ruleNum| == PRIORITY_NUM
      ensures forall i :: 0 <= i < |ids| ==> (ids[i].valid <==> i < ruleCnt)
      ensures forall i :: 0 <= i < ruleCnt ==> Filed(ids[i], ids[i].content, prios)
    {
    }

    // The place of the k-th live node on its priority list.
    lemma PlaceOf(k: nat) returns (p: nat, j: nat)
      requires Valid() && k < ruleCnt && k < |ids|
      ensures p == ids[k].content.priority - 1 && p < PRIORITY_NUM - 1
      ensures |prios| == PRIORITY_NUM && j < |prios[p]| && prios[p][j] == ids[k]
      ensures InPool(ids[k]) && ids[k] in nodes
    {
      assert Filed(ids[k], ids[k].content, prios);
      assert InPool(ids[k]);
      p := ids[k].content.priority - 1;
      j :| 0 <= j < |prios[p]| && prios[p][j] == ids[k];
    }

    lemma PoolWithout(s: seq<RuleNode>, k: nat)
      requires AllInPool(s) && Distinct(s) && k < |s|
      ensures AllInPool(Remove(s, k)) && Distinct(Remove(s, k))
      ensures AllInPool(Remove(s, k) + [s[k]]) && Distinct(Remove(s, k) + [s[k]])
      ensures forall i :: 0 <= i < |s| ==> (s[i] in Remove(s, k) <==> i != k)
    {
      RemoveKeepsOthers(s, k);
      var t := Remove(s, k);
      assert forall i :: 0 <= i < |t| ==> t[i] in s;
    }

    lemma NodesWithout(p: nat, s: seq<RuleNode>, j: nat)
      requires NodesOk(p, s) && j < |s|
      ensures Distinct(s) && NodesOk(p, Remove(s, j)) && s[j] !in Remove(s, j) && |Remove(s, j)| == |s| - 1
      ensures forall x :: x in Remove(s, j) ==> x in s
    {
      RemoveKeepsOthers(s, j);
      var t := Remove(s, j);
      assert forall i :: 0 <= i < |t| ==> t[i] in s;
    }

    lemma OnlyPlace(p: nat, j: nat)
      requires |prios| == PRIORITY_NUM && p < PRIORITY_NUM && j < |prios[p]|
      requires forall q :: 0 <= q < PRIORITY_NUM ==> NodesOk(q, prios[q])
      ensures forall q :: 0 <= q < PRIORITY_NUM && q != p ==> prios[p][j] !in prios[q]
    {
    }

    // The lists with the k-th node retired and off its priority list.
    lemma DeletedLists(k: nat, p: nat, j: nat, wasIds: seq<RuleNode>, was: seq<seq<RuleNode>>)
      requires Pool() && |wasIds| == ruleCap && k < |wasIds| && |was| == PRIORITY_NUM && p < PRIORITY_NUM && j < |was[p]|
      requires ids == Remove(wasIds, k) + [wasIds[k]] && AllInPool(ids) && Distinct(ids)
      requires prios == was[p := Remove(was[p], j)]
      requires AllInPool(prios[p]) && NodesOk(p, prios[p]) && Ring(prioList[p], PriorityHeads(prios[p]))
      requires forall q :: 0 <= q < PRIORITY_NUM && q != p ==>
        AllInPool(was[q]) && NodesOk(q, was[q]) && Ring(prioList[q], PriorityHeads(was[q]))
      requires Ring(idList, IdHeads(ids))
      ensures ListsOk()
    {
    }

    // The id list once its k-th node has gone to the free end.
    lemma RetiredAt(k: nat, wasIds: seq<RuleNode>, i: nat)
      requires k < |wasIds| && i < |wasIds| && ids == Remove(wasIds, k) + [wasIds[k]]
      ensures |ids| == |wasIds|
      ensures ids[i] == if i < k then wasIds[i] else if i < |ids| - 1 then wasIds[i + 1] else wasIds[k]
    {
    }

    lemma DeletedLive(k: nat, live: nat, wasIds: seq<RuleNode>)
      requires Pool() && AllInPool(ids) && k < live <= |wasIds| == ruleCap
      requires ids == Remove(wasIds, k) + [wasIds[k]]
      requires forall i :: 0 <= i < |wasIds| ==> (wasIds[i].valid <==> i < live && i != k)
      requires idLast == (if k == live - 1 then (if k == 0 then idList else wasIds[k - 1].idHead) else wasIds[live - 1].idHead)
      ensures LiveOk(live - 1)
    {
      hide Pool, AllInPool, Remove;
      RetiredAt(k, wasIds, if live > 1 then live - 2 else 0);
      forall i | 0 <= i < |ids| ensures ids[i].valid <==> i < live - 1 {
        RetiredAt(k, wasIds, i);
      }
    }

    lemma StillFiled(node: RuleNode, other: RuleNode, p: nat, j: nat, was: seq<seq<RuleNode>>)
      requires Filed(node, node.content, was) && p < |was| && j < |was[p]| && was[p][j] == other && node != other
      requires Distinct(was[p])
      ensures Filed(node, node.content, was[p := Remove(was[p], j)])
    {
      RemoveKeepsOthers(was[p], j);
      hide Remove, Acceptable, Distinct;
    }

    // The invariant once a node is deleted.
    lemma DeletedOk(k: nat, p: nat, j: nat, live: nat, wasIds: seq<RuleNode>, was: seq<seq<RuleNode>>)
      requires ListsOk() && k < live <= |wasIds| == ruleCap && ruleCnt == live - 1
      requires ids == Remove(wasIds, k) + [wasIds[k]] && Distinct(wasIds)
      requires |was| == PRIORITY_NUM && p < PRIORITY_NUM && j < |was[p]| && was[p][j] == wasIds[k]
      requires prios == was[p := Remove(was[p], j)]
      requires forall i :: 0 <= i < |wasIds| ==> (wasIds[i].valid <==> i < live && i != k)
      requires forall i :: 0 <= i < live && i != k ==> Filed(wasIds[i], wasIds[i].content, was)
      requires Distinct(was[p])
      requires idLast == (if k == live - 1 then (if k == 0 then idList else wasIds[k - 1].idHead) else wasIds[live - 1].idHead)
      requires ruleId < 0x10000 && |prioLast| == |ruleNum| == PRIORITY_NUM
      ensures Valid()
    {
      ListsFacts();
      DeletedLive(k, live, wasIds);
      OnlyAt(wasIds, k);
      hide ListsOk, LiveOk, Filed, Remove, Distinct;
      forall i | 0 <= i < ruleCnt ensures Filed(ids[i], ids[i].content, prios) {
        RetiredAt(k, wasIds, i);
        StillFiled(ids[i], wasIds[k], p, j, was);
      }
    }

    lemma PrevOf(k: nat)
      requires Ring(idList, IdHeads(ids)) && k < |ids| && Distinct(ids)
      ensures ids[k].idHead.prev == IdAt(k - 1) && ids[k].idHead != idList
      ensures forall i :: 0 <= i < |ids| && ids[i].idHead == ids[k].idHead ==> i == k
    {
      var s := IdHeads(ids);
      assert s[k].prev == At(idList, s, k - 1) && s[k] in s;
      assert forall i :: 0 <= i < |ids| ==> s[i] == ids[i].idHead;
    }

    // Deleting touches neighbours on the node's own priority list, then links of the id list.
    lemma DelApart(k: nat, p: nat, j: nat)
      requires ListsOk() && k < |ids| && p < PRIORITY_NUM && |prios| == PRIORITY_NUM
      requires j < |prios[p]| && prios[p][j] == ids[k]
      ensures var link := ids[k].priorityHead; var touched := {link.prev, link.next};
        && touched <= heads && |prioList| == PRIORITY_NUM
        && idList !in touched && (forall x :: x in IdHeads(ids) ==> x !in touched)
        && forall q :: 0 <= q < PRIORITY_NUM && q != p ==>
          prioList[q] !in touched && forall x :: x in PriorityHeads(prios[q]) ==> x !in touched
      ensures var link := ids[k].idHead; var touched := {link, link.prev, link.next, idList, idList.prev};
        && touched <= heads && link in IdHeads(ids)
        && forall q :: 0 <= q < PRIORITY_NUM ==>
          prioList[q] !in touched && forall x :: x in PriorityHeads(prios[q]) ==> x !in touched
    {
      ListsFacts();
      RingsApart();
      Neighbours(prioList[p], PriorityHeads(prios[p]), j);
      Neighbours(idList, IdHeads(ids), k);
      RingEnds(idList, IdHeads(ids));
      hide ListsOk, Pool, InPool, AllInPool, NodesOk, Ring, Distinct;
    }

    // The content a deleted node is left with: everything but the type is reset.
    function Reset(c: Content): Content {
      Content(0, 0, c.kind, IoStat(0, 0), IoStat(0, 0))
    }

    lemma ResetIs(c: Content)
      ensures Reset(c) == Content(0, 0, c.kind, IoStat(0, 0), IoStat(0, 0))
    {
    }

    // list_del of the priority link.
    method Unfile(node: RuleNode, ghost p: nat, ghost j: nat)
      requires p < |prioList| && p < |prios| && j < |prios[p]| && prios[p][j] == node
      requires Ring(prioList[p], PriorityHeads(prios[p]))
      modifies node.priorityHead.prev, node.priorityHead.next
      ensures Ring(prioList[p], PriorityHeads(Remove(prios[p], j)))
      ensures forall x :: x in PriorityHeads(Remove(prios[p], j)) ==> x in PriorityHeads(prios[p])
    {
      ghost var s := PriorityHeads(prios[p]);
      ListDel(node.priorityHead, prioList[p], s, j);
      assert PriorityHeads(Remove(prios[p], j)) == Remove(s, j);
      RemoveKeepsOthers(s, j);
    }

    // list_del and list_add_tail of the id link, which together are list_move_tail.
    method Retire(node: RuleNode, ghost k: nat)
      requires k < |ids| && ids[k] == node && Ring(idList, IdHeads(ids))
      modifies node.idHead, node.idHead.prev, node.idHead.next, idList, idList.prev
      ensures Ring(idList, IdHeads(Remove(ids, k) + [node]))
    {
      ghost var s := IdHeads(ids);
      ListMoveTail(node.idHead, idList, s, k, idList, s);
      assert IdHeads(Remove(ids, k) + [node]) == Remove(s, k) + [node.idHead];
    }

    // The list work of mask_rule_del: the node leaves its priority list and goes to the free end of
    // the id list; the other lists are as they were.
    method Unlink(node: RuleNode, ghost k: nat, ghost p: nat, ghost j: nat)
      requires ListsOk() && k < |ids| && ids[k] == node && p < PRIORITY_NUM && |prios| == PRIORITY_NUM
      requires j < |prios[p]| && prios[p][j] == node && |prioList| == PRIORITY_NUM
      modifies heads
      ensures Ring(idList, IdHeads(Remove(ids, k) + [node]))
      ensures Ring(prioList[p], PriorityHeads(Remove(prios[p], j)))
      ensures forall q :: 0 <= q < PRIORITY_NUM && q != p ==> Ring(prioList[q], PriorityHeads(prios[q]))
    {
      hide *;
      ListsFacts();
      DelApart(k, p, j);
      Unfile(node, p, j);
      ghost var rest := PriorityHeads(Remove(prios[p], j));
      assert node.idHead.prev == old(node.idHead.prev) && node.idHead.next == old(node.idHead.next);
      assert idList.prev == old(idList.prev);
      assert prioList[p] !in {node.idHead, node.idHead.prev, node.idHead.next, idList, idList.prev};
      assert forall x :: x in rest ==> x in PriorityHeads(prios[p]);
      Retire(node, k);
      assert Ring(prioList[p], rest);
    }

    method Detach(node: RuleNode, ghost k: nat, ghost p: nat, ghost j: nat)
      requires ListsOk() && k < |ids| && ids[k] == node && p < PRIORITY_NUM && |prios| == PRIORITY_NUM
      requires j < |prios[p]| && prios[p][j] == node
      modifies heads, node`content, node`valid, this`ids, this`prios
      ensures ListsOk() && node.content == Content(0, 0, old(node.content).kind, IoStat(0, 0), IoStat(0, 0)) && !node.valid
      ensures ids == Remove(old(ids), k) + [node]
      ensures prios == old(prios)[p := Remove(old(prios)[p], j)]
    {
      hide *;
      ListsFacts();
      NodesWithout(p, prios[p], j);
      PoolWithout(ids, k);
      PoolWithout(prios[p], j);
      OnlyPlace(p, j);
      ghost var wasIds, was, rest := ids, prios, Remove(prios[p], j);
      Unlink(node, k, p, j);
      NodesWithout(p, was[p], j);
      node.valid := false;
      ResetIs(node.content);
      node.content := Reset(node.content);
      assert NodesOk(p, rest);
      prios := was[p := Remove(was[p], j)];
      ids := Remove(wasIds, k) + [node];
      DeletedLists(k, p, j, wasIds, was);
    }

    // Where the boundary is, and where it goes when the last live node is deleted.
    lemma DropFacts(k: nat)
      requires Valid() && k < ruleCnt && ruleCnt <= |ids|
      ensures idLast == ids[ruleCnt - 1].idHead && idLast != idList
      ensures ids[k].idHead == idLast <==> k == ruleCnt - 1
      ensures ids[k].idHead.prev == if k == 0 then idList else ids[k - 1].idHead
      ensures forall q :: 0 <= q < |prios| ==> NodesOk(q, prios[q])
    {
      PrevOf(k);
      PrevOf(ruleCnt - 1);
    }

    // The last-node updates of mask_rule_del. `refused` is its early error return, which no live rule
    // meets; the boundary moves only when the last live rule goes.
    method StepBack(node: RuleNode, priority: nat, ghost k: nat) returns (refused: bool)
      requires Valid() && k < ruleCnt && k < |ids| && ids[k] == node && priority < PRIORITY_NUM
      modifies this`idLast, this`prioLast
      ensures !refused && |prioLast| == |old(prioLast)|
      ensures idLast == if k == ruleCnt - 1 then IdAt(k - 1) else old(idLast)
    {
      hide *;
      ValidFacts();
      IdAtIs(k - 1);
      DropFacts(k);
      var emptyList := prioLast[priority] == prioList[priority];
      refused := idLast == idList && emptyList;
      if !refused {
        if idLast == node.idHead {
          idLast := node.idHead.prev;
        }
        if prioLast[priority] == node.priorityHead {
          prioLast := prioLast[priority := node.priorityHead.prev];
        }
      }
    }

    // mask_rule_del after the node is found; p and j are its place on the priority lists.
    method Drop(node: RuleNode, ghost k: nat, ghost p: nat, ghost j: nat)
      requires k < ruleCnt && k < |ids| && ids[k] == node
      requires p == node.content.priority - 1 && p < PRIORITY_NUM - 1 && |prios| == |ruleNum| == PRIORITY_NUM
      requires j < |prios[p]| && prios[p][j] == node
      requires Valid()
      modifies this, heads, node`content, node`valid
      ensures ids == Remove(old(ids), k) + [node] && node.content == Content(0, 0, old(node.content).kind, IoStat(0, 0), IoStat(0, 0))
      ensures prios == old(prios)[p := Remove(old(prios)[p], j)]
      ensures ruleNum == CountDown(old(ruleNum), p + 1) && log == old(log) + [Deleted(p + 1)]
      ensures Valid() && ruleCnt == old(ruleCnt) - 1 && ruleId == old(ruleId)
    {
      hide *;
      ValidFacts();
      DropFacts(k);
      NodesWithout(p, prios[p], j);
      ghost var live, wasIds, was := ruleCnt, ids, prios;
      var priority := node.content.priority;
      var refused := StepBack(node, priority, k);
      IdAtIs(k - 1);
      Detach(node, k, p, j);
      ruleCnt := ruleCnt - 1;
      CountDownIs(priority);
      ruleNum := ruleNum[priority := (ruleNum[priority] + 0xFF) % 0x100];
      log := log + [Deleted(priority)];
      DeletedOk(k, p, j, live, wasIds, was);
    }

    // mask_rule_del. On success k is the rule's position among the live rules, j on its priority list
    // and m in the order of a pass. A rule that would not have fired is not missed.
    method Del(arg: int) returns (status: int, ghost k: nat, ghost j: nat, ghost m: nat)
      requires Valid()
      modifies this, heads, nodes`content, nodes`valid
      ensures k == IndexOf(old(Live()), arg % 0x100)
      ensures status == if old(ruleCnt) == 0 then -3 else if k == |old(Live())| then -10 else 0
      ensures ruleId == old(ruleId) && |prios| == |old(prios)| == PRIORITY_NUM
      ensures status != 0 ==> Live() == old(Live()) && ruleNum == old(ruleNum) && log == old(log)
      ensures status != 0 ==> forall p :: 0 <= p < PRIORITY_NUM ==> Rules(p) == old(Rules(p))
      ensures status == 0 ==> k < |old(Live())| && ruleNum == CountDown(old(ruleNum), old(Live())[k].priority)
      ensures status == 0 ==> k < |old(Live())| && log == old(log) + [Deleted(old(Live())[k].priority)]
      ensures old(Counted()) ==> Counted()
      ensures status == 0 ==> k < |old(Live())| && Live() == Remove(old(Live()), k)
      ensures status == 0 ==> forall p :: 0 <= p < PRIORITY_NUM ==>
        if p == old(Live())[k].priority - 1
        then j < |old(Rules(p))| && old(Rules(p))[j] == old(Live())[k] && Rules(p) == Remove(old(Rules(p)), j)
        else Rules(p) == old(Rules(p))
      ensures status == 0 ==> m < |old(Order())| && old(ContentsOf(Order()))[m] == old(Live())[k]
      ensures status == 0 ==> ContentsOf(Order()) == Remove(old(ContentsOf(Order())), m)
      ensures status == 0 ==> forall mask :: old(Live())[k] !in Greedy(old(ContentsOf(Order())), mask, []) ==>
        Greedy(ContentsOf(Order()), mask, []) == Greedy(old(ContentsOf(Order())), mask, [])
      ensures old(Ordered()) ==> Ordered()
      ensures old(Ordered()) ==> Table(Live()) == Table(old(Live())) - {arg % 0x100}
      ensures Valid()
    {
      hide Valid, ListsOk, NodesOk, Filed, Live, Rules, Remove, IndexOf, Ordered, Table, Order, ContentsOf, Greedy, CountDown, Tally;
      LiveIs();
      ghost var was := OrderedFacts();
      k, j, m := IndexOf(Live(), arg % 0x100), 0, 0;
      if Ordered() {
        LookupIsTable(Live(), arg % 0x100);
      }
      if ruleCnt == 0 {
        status := ERR_CAP_EMPTY;
      } else {
        var node := Get(arg);
        if node == null {
          status := ERR_SEARCH_NODE;
        } else {
          assert k < |Live()| && Live() == old(Live());
          ValidFacts();
          ghost var p;
          p, j := PlaceOf(k);
          m := DropNode(node, k, p, j);
          if old(Ordered()) {
            DropTable(old(Live()), k);
          }
          DropUnfired(old(ContentsOf(Order())), m);
          status := SUCCESS;
        }
      }
    }

    // Drop, told in terms of the rules held.
    method DropNode(node: RuleNode, ghost k: nat, ghost p: nat, ghost j: nat) returns (ghost m: nat)
      requires k < ruleCnt && k < |ids| && ids[k] == node
      requires p == node.content.priority - 1 && p < PRIORITY_NUM - 1 && |prios| == |ruleNum| == PRIORITY_NUM
      requires j < |prios[p]| && prios[p][j] == node
      requires Valid()
      modifies this, heads, node`content, node`valid
      ensures ruleId == old(ruleId) && |prios| == |old(prios)|
      ensures k < |old(Live())| && old(Live())[k] == old(node.content) && Live() == Remove(old(Live()), k)
      ensures j < |old(Rules(p))| && old(Rules(p))[j] == old(node.content) && Rules(p) == Remove(old(Rules(p)), j)
      ensures forall q :: 0 <= q < PRIORITY_NUM && q != p ==> Rules(q) == old(Rules(q))
      ensures m < |old(Order())| && old(Order())[m] == node && old(ContentsOf(Order()))[m] == old(node.content)
      ensures ContentsOf(Order()) == Remove(old(ContentsOf(Order())), m)
      ensures ruleNum == CountDown(old(ruleNum), p + 1) && log == old(log) + [Deleted(p + 1)]
      ensures old(Counted()) ==> Counted()
      ensures old(Ordered()) ==> Ordered()
      ensures Valid()
    {
      hide *;
      LiveIs();
      ghost var was := OrderedFacts();
      OrderFacts();
      m := OrderWithout(p, j);
      OnlyAt(Order(), m);
      DropFacts(k);
      OnlyPlace(p, j);
      NodesWithout(p, prios[p], j);
      ValidFacts();
      RemovePrefix(ids, k, ruleCnt);
      CountedIs();
      Drop(node, k, p, j);
      TallyDel(old(ruleNum), old(prios), old(log), p, prios[p]);
      CountedIs();
      LiveIs();
      RemoveContents(old(ids[..ruleCnt]), k, old(ContentsOf(ids[..ruleCnt])));
      RemoveContents(old(prios[p]), j, old(ContentsOf(prios[p])));
      OrderIs();
      RemoveContents(old(Order()), m, old(ContentsOf(Order())));
      ValidFacts();
      OrderedDel(k, p, j, old(Live()), was, old(Ordered()));
    }

    // Where a node of a priority list stands in the order, and the order without it.
    lemma OrderWithout(p: nat, j: nat) returns (m: nat)
      requires p < |prios| && j < |prios[p]|
      ensures m < |Order()| && Order()[m] == prios[p][j]
      ensures Flat(prios[p := Remove(prios[p], j)], 0) == Remove(Order(), m)
    {
      m := FlatWithout(prios, p, j, 0);
    }

    lemma OrderedDel(k: nat, p: nat, j: nat, wasLive: seq<Content>, was: seq<seq<Content>>, wasOrdered: bool)
      requires ListsOk() && |was| == PRIORITY_NUM && p < PRIORITY_NUM && k < |wasLive| && j < |was[p]|
      requires Live() == Remove(wasLive, k) && Rules(p) == Remove(was[p], j)
      requires forall q :: 0 <= q < PRIORITY_NUM && q != p ==> Rules(q) == was[q]
      requires wasOrdered ==> Increasing(wasLive) && Issued(wasLive, ruleId)
      requires wasOrdered ==> forall q :: 0 <= q < PRIORITY_NUM ==> Increasing(was[q])
      ensures wasOrdered ==> Ordered()
    {
      hide ListsOk;
      if wasOrdered {
        WithoutIncreases(wasLive, k);
        WithoutIncreases(was[p], j);
        forall i | 0 <= i < |Live()| ensures 0 <= Live()[i].ruleId <= ruleId {
          assert Live()[i] in Live();
        }
      }
    }

    lemma DropTable(live: seq<Content>, k: nat)
      requires Increasing(live) && k < |live|
      ensures Table(Remove(live, k)) == Table(live) - {live[k].ruleId}
    {
      TableWithout(live, k);
    }

    lemma DropUnfired(order: seq<Content>, m: nat)
      requires m < |order|
      ensures forall mask :: order[m] !in Greedy(order, mask, []) ==>
        Greedy(Remove(order, m), mask, []) == Greedy(order, mask, [])
    {
      forall mask | order[m] !in Greedy(order, mask, [])
        ensures Greedy(Remove(order, m), mask, []) == Greedy(order, mask, [])
      {
        GreedyWithoutUnfired(order, mask, m);
      }
    }

    lemma RemoveContents(s: seq<RuleNode>, k: nat, was: seq<Content>)
      requires k < |s| == |was| && forall i :: 0 <= i < |s| && i != k ==> s[i].content == was[i]
      ensures ContentsOf(Remove(s, k)) == Remove(was, k)
    {
    }

    lemma RemovePrefix(s: seq<RuleNode>, k: nat, n: nat)
      requires k < n <= |s| && Distinct(s)
      ensures |Remove(s, k) + [s[k]]| == |s| && (Remove(s, k) + [s[k]])[..n - 1] == Remove(s[..n], k)
      ensures s[k] !in Remove(s[..n], k)
    {
      RemoveKeepsOthers(s[..n], k);
    }

    // -------------------------------------------------------------------------------------------
    // Matching

    // The live nodes in the order a pass takes them.
    ghost function Order(): seq<RuleNode>
      reads this`prios
    {
      Flat(prios, 0)
    }

    // Walking a priority list by `next` visits its nodes in order.
    lemma PriorityWalk(p: nat)
      requires Valid() && p < PRIORITY_NUM
      ensures |prios| == |prioList| == PRIORITY_NUM
      ensures prioList[p].next == PrioAt(p, 0)
      ensures forall i :: 0 <= i < |prios[p]| ==>
        && prios[p][i].priorityHead != prioList[p] && prios[p][i].priorityHead.next == PrioAt(p, i + 1)
        && 0 <= prios[p][i].priorityHead.slot < |ruleMem| && ruleMem[prios[p][i].priorityHead.slot] == prios[p][i]
        && prios[p][i] in nodes && prios[p][i].valid
    {
      hide LiveOk, Filed;
      var s := PriorityHeads(prios[p]);
      assert NodesOk(p, prios[p]) && AllInPool(prios[p]) && Ring(prioList[p], s);
      assert forall i :: -1 <= i <= |prios[p]| ==> At(prioList[p], s, i) == PrioAt(p, i);
      forall i | 0 <= i < |prios[p]|
        ensures prios[p][i].priorityHead.next == PrioAt(p, i + 1) && prios[p][i].priorityHead != prioList[p]
      {
        assert s[i].next == At(prioList[p], s, i + 1) && s[i] in s;
      }
    }

    ghost function PrioAt(p: nat, i: int): ListHead
      requires p < |prios| && p < |prioList|
      reads this`prios
    {
      if 0 <= i < |prios[p]| then prios[p][i].priorityHead else prioList[p]
    }

    // What is left of the order from node i of list p on.
    ghost function Rest(p: nat, i: nat): seq<RuleNode>
      requires p < |prios| && i <= |prios[p]|
      reads this`prios
    {
      prios[p][i..] + Flat(prios, p + 1)
    }

    lemma RestEnds(p: nat)
      requires p < |prios|
      ensures Rest(p, 0) == Flat(prios, p) && Rest(p, |prios[p]|) == Flat(prios, p + 1)
    {
    }

    // One node of the filter's walk.
    lemma ScanStep(p: nat, i: nat, filter: Content)
      requires p < |prios| && i < |prios[p]|
      ensures var pos := prios[p][i];
        Scan(View(Rest(p, i)), filter) ==
          if !pos.valid then false
          else if !pos.effect then Scan(View(Rest(p, i + 1)), filter)
          else if filter.priority < pos.content.priority then false
          else if filter.priority == pos.content.priority && filter.ruleId <= pos.content.ruleId then false
          else Contradicts(filter, pos.content) || Scan(View(Rest(p, i + 1)), filter)
    {
      hide Contradicts;
      var rest := Rest(p, i);
      assert rest[0] == prios[p][i] && rest[1..] == Rest(p, i + 1);
      assert View(rest)[1..] == View(rest[1..]);
    }

    // The walk of mask_rule_fitler over one priority list; r is -1 if it has not decided.
    method FilterList(p: nat, filter: Content) returns (r: int)
      requires Valid() && p < PRIORITY_NUM && p < |prios|
      ensures r in {-1, 0, 1}
      ensures Scan(View(Flat(prios, p)), filter) == if r >= 0 then r == 1 else Scan(View(Flat(prios, p + 1)), filter)
    {
      hide *;
      PriorityWalk(p);
      RestEnds(p);
      ghost var found := Scan(View(Flat(prios, p)), filter);
      var pos := prioList[p].next;
      ghost var i := 0;
      while pos != prioList[p]
        invariant 0 <= i <= |prios[p]| && pos == PrioAt(p, i)
        invariant found == Scan(View(Rest(p, i)), filter)
        decreases |prios[p]| - i
      {
        PrioAtIs(p, i);
        ScanStep(p, i, filter);
        var node := ruleMem[pos.slot];
        var tmp := pos.next;
        if !node.valid {
          return 0;
        }
        if node.effect {
          if filter.priority < node.content.priority {
            return 0;
          } else if filter.priority == node.content.priority {
            if filter.ruleId <= node.content.ruleId {
              return 0;
            }
          }
          if Contradicts(filter, node.content) {
            return 1;
          }
        }
        pos := tmp;
        i := i + 1;
      }
      PrioAtIs(p, i);
      r := -1;
    }

    lemma PrioAtIs(p: nat, i: int)
      requires p < |prios| && p < |prioList|
      ensures PrioAt(p, i) == if 0 <= i < |prios[p]| then prios[p][i].priorityHead else prioList[p]
    {
    }

    lemma FlatInPool(p: nat)
      requires Valid()
      ensures forall n :: n in Flat(prios, p) ==> n in nodes
      decreases PRIORITY_NUM - p
    {
      ListsFacts();
      ValidFacts();
      hide Valid, ListsOk, LiveOk, NodesOk, Filed;
      if p < PRIORITY_NUM {
        FlatInPool(p + 1);
        assert forall i :: 0 <= i < |prios[p]| ==> InPool(prios[p][i]);
      }
    }

    // mask_rule_fitler
    method Filter(filter: RuleNode) returns (r: int)
      requires Valid()
      ensures r == if ruleCnt == 0 then -3 else if Scan(View(Order()), filter.content) then 1 else 0
    {
      hide Valid, Flat, View, Scan;
      if ruleCnt == 0 {
        return ERR_CAP_EMPTY;
      }
      LiveIs();
      ghost var view, content := View(Order()), filter.content;
      for p := 0 to PRIORITY_NUM
        invariant Scan(view, content) == Scan(View(Flat(prios, p)), content)
      {
        ghost var here, rest := View(Flat(prios, p)), View(Flat(prios, p + 1));
        FlatInPool(0);
        FlatInPool(p);
        FlatInPool(p + 1);
        r := FilterList(p, filter.content);
        assert View(Flat(prios, 0)) == view && View(Flat(prios, p)) == here && View(Flat(prios, p + 1)) == rest;
        if r >= 0 {
          return r;
        }
      }
      ScanEmpty(filter.content);
      r := 0;
    }

    // Priorities along the order: list by list, and within a list by id.
    lemma FlatPriorities(p: nat)
      requires |prios| == PRIORITY_NUM && forall q :: 0 <= q < PRIORITY_NUM ==> NodesOk(q, prios[q])
      ensures Distinct(Flat(prios, p))
      ensures forall i :: 0 <= i < |Flat(prios, p)| ==> Flat(prios, p)[i].valid && Flat(prios, p)[i].content.priority > p
      decreases PRIORITY_NUM - p
    {
      if p < PRIORITY_NUM {
        FlatPriorities(p + 1);
        assert NodesOk(p, prios[p]);
      }
    }

    lemma FlatSorted(p: nat)
      requires |prios| == PRIORITY_NUM && forall q :: 0 <= q < PRIORITY_NUM ==> NodesOk(q, prios[q])
      requires forall q :: 0 <= q < PRIORITY_NUM ==> Increasing(Rules(q))
      ensures Sorted(ContentsOf(Flat(prios, p)))
      decreases PRIORITY_NUM - p
    {
      hide NodesOk, Flat, Sorted, Increasing, Rules, ContentsOf;
      FlatUnfold(p);
      if p < PRIORITY_NUM {
        FlatSorted(p + 1);
        FlatPriorities(p + 1);
        ListPriorities(p);
        var here, rest := ContentsOf(prios[p]), ContentsOf(Flat(prios, p + 1));
        assert ContentsOf(Flat(prios, p)) == here + rest;
        SortedJoin(here, rest, p + 1);
      } else {
        SortedEmpty();
        assert ContentsOf(Flat(prios, p)) == [];
      }
    }

    lemma FlatGrows(p: nat)
      requires |prios| == PRIORITY_NUM && forall q :: 0 <= q < PRIORITY_NUM ==> NodesOk(q, prios[q])
      ensures forall i, j :: 0 <= i < j < |Flat(prios, p)| ==>
        Flat(prios, p)[i].content.priority <= Flat(prios, p)[j].content.priority
      decreases PRIORITY_NUM - p
    {
      if p < PRIORITY_NUM {
        FlatGrows(p + 1);
        FlatPriorities(p + 1);
        assert NodesOk(p, prios[p]);
      }
    }

    // Whatever rules stand in the places of this set, a pass over them is the greedy one exactly if the
    // ids grow along every priority list.
    lemma GreedyIfInOrder()
      requires Valid()
      ensures AlwaysGreedy(ContentsOf(Order())) <==> Sorted(ContentsOf(Order()))
      ensures Sorted(ContentsOf(Order())) <==>
        |prios| == PRIORITY_NUM && forall p :: 0 <= p < PRIORITY_NUM ==> Increasing(Rules(p))
    {
      hide *;
      ValidFacts();
      ListsFacts();
      OrderIs();
      FlatGrows(0);
      GreedyIffSorted(ContentsOf(Order()));
      if forall p :: 0 <= p < PRIORITY_NUM ==> Increasing(Rules(p)) {
        FlatSorted(0);
      }
      if Sorted(ContentsOf(Order())) {
        forall p | 0 <= p < PRIORITY_NUM ensures Increasing(Rules(p)) {
          ListPriorities(p);
          PartIncreases(p, 0);
        }
      }
    }

    lemma PartIncreases(p: nat, from: nat)
      requires |prios| == PRIORITY_NUM && from <= p < PRIORITY_NUM && Sorted(ContentsOf(Flat(prios, from)))
      requires NodesOk(p, prios[p])
      ensures Increasing(ContentsOf(prios[p]))
      decreases p - from
    {
      hide Flat, ContentsOf;
      FlatUnfold(from);
      var here, rest, all := ContentsOf(prios[from]), ContentsOf(Flat(prios, from + 1)), ContentsOf(Flat(prios, from));
      assert all == here + rest;
      if from < p {
        forall i, j | 0 <= i < j < |rest| ensures Before(rest[i], rest[j]) {
          assert rest[i] == all[|here| + i] && rest[j] == all[|here| + j];
        }
        PartIncreases(p, from + 1);
      } else {
        ListPriorities(p);
        forall i, j | 0 <= i < j < |here| ensures here[i].ruleId < here[j].ruleId {
          assert here[i] == all[i] && here[j] == all[j];
        }
      }
    }

    lemma ListPriorities(p: nat)
      requires p < |prios| && NodesOk(p, prios[p])
      ensures Rules(p) == ContentsOf(prios[p])
      ensures forall i :: 0 <= i < |prios[p]| ==> ContentsOf(prios[p])[i].priority == p + 1
    {
    }

    lemma FlatAcceptable(p: nat)
      requires Valid()
      ensures forall i :: 0 <= i < |Flat(prios, p)| ==> Acceptable(Flat(prios, p)[i].content)
      decreases PRIORITY_NUM - p
    {
      hide *;
      ValidFacts();
      FlatUnfold(p);
      if p < PRIORITY_NUM {
        FlatAcceptable(p + 1);
        forall i | 0 <= i < |prios[p]| ensures Acceptable(prios[p][i].content) {
          var k := ListedIsLive(p, i);
          FiledAcceptable(ids[k]);
        }
      }
    }

    lemma FiledAcceptable(node: RuleNode)
      requires Filed(node, node.content, prios)
      ensures Acceptable(node.content)
    {
    }

    lemma FlatUnfold(p: nat)
      ensures Flat(prios, p) == if p >= |prios| then [] else prios[p] + Flat(prios, p + 1)
    {
    }

    lemma OrderFacts()
      requires Valid()
      ensures Distinct(Order())
      ensures forall i :: 0 <= i < |Order()| ==>
        Order()[i] in nodes && Order()[i].valid && Acceptable(Order()[i].content)
      ensures Ordered() ==> Sorted(ContentsOf(Order()))
    {
      hide *;
      ValidFacts();
      ListsFacts();
      OrderIs();
      FlatPriorities(0);
      FlatInPool(0);
      FlatAcceptable(0);
      OrderedIs();
      if Ordered() {
        FlatSorted(0);
      }
    }

    lemma OrderIs()
      ensures Order() == Flat(prios, 0)
    {
    }

    lemma ViewIs()
      ensures |View(Order())| == |Order()|
      ensures forall i :: 0 <= i < |Order()| ==>
        View(Order())[i] == Entry(Order()[i].content, Order()[i].valid, Order()[i].effect)
    {
    }

    // Writing the flag of one node changes one entry.
    lemma FlagWritten(k: nat, was: seq<Entry>)
      requires k < |Order()| == |was| && Distinct(Order())
      requires forall i :: 0 <= i < |was| && i != k ==> Order()[i].effect == was[i].effect
      requires forall i :: 0 <= i < |was| ==> Order()[i].content == was[i].content && Order()[i].valid == was[i].valid
      ensures View(Order()) == Flag(was, k, Order()[k].effect)
    {
    }

    // One turn of the pass.
    method MatchNode<S>(node: RuleNode, ghost k: nat, mask: bv64, ghost fired: seq<Content>, func: Callback<S>, arg: S)
      returns (failed: bool, arg': S, ghost fired': seq<Content>)
      requires Valid() && ruleCnt > 0 && k < |Order()| && Order()[k] == node
      modifies nodes`effect
      ensures Valid()
      ensures ScanPass(old(View(Order())), k, mask, fired, func, arg) ==
        if failed then (Outcome(ERR_CALLBACK, fired', arg'), View(Order()))
        else ScanPass(View(Order()), k + 1, mask, fired', func, arg')
    {
      hide *;
      OrderFacts();
      ghost var was := View(Order());
      ScanPassStep(was, k, mask, fired, func, arg);
      ViewIs();
      OnlyAt(Order(), k);
      node.effect := false;
      FlagWritten(k, was);
      failed, arg', fired' := false, arg, fired;
      MatchesIs(node.content, mask);
      var up, down := UpBits(node.content, mask), DownBits(node.content, mask);
      if !Met(node.content.imask.up, up) {
        return;
      }
      if !Met(node.content.imask.down, down) {
        return;
      }
      var filtered := Filter(node);
      if filtered != 0 {
        return;
      }
      node.effect := true;
      FlagWritten(k, was);
      var (ret, next) := func(node.content, arg);
      arg', fired' := next, fired + [node.content];
      failed := 0 > ret;
    }

    // The inner loop of mask_rule_macth, over one priority list. k counts the rules taken so far.
    method MatchList<S>(p: nat, ghost from: nat, mask: bv64, ghost fired: seq<Content>, func: Callback<S>, arg: S)
      returns (failed: bool, arg': S, ghost fired': seq<Content>, ghost to: nat)
      requires Valid() && ruleCnt > 0 && p < PRIORITY_NUM && p < |prios|
      requires from <= |Order()| && Order()[from..] == Flat(prios, p)
      modifies nodes`effect
      ensures Valid()
      ensures failed ==>
        ScanPass(old(View(Order())), from, mask, fired, func, arg) == (Outcome(ERR_CALLBACK, fired', arg'), View(Order()))
      ensures !failed ==> to <= |Order()| && Order()[to..] == Flat(prios, p + 1)
      ensures !failed ==>
        ScanPass(old(View(Order())), from, mask, fired, func, arg) == ScanPass(View(Order()), to, mask, fired', func, arg')
    {
      hide *;
      RestEnds(p);
      failed, arg', fired', to := false, arg, fired, from;
      PriorityWalk(p);
      var pos := prioList[p].next;
      ghost var i := 0;
      while pos != prioList[p]
        invariant 0 <= i <= |prios[p]| && pos == PrioAt(p, i)
        invariant Valid() && !failed && to <= |Order()| && Order()[to..] == Rest(p, i)
        invariant ScanPass(old(View(Order())), from, mask, fired, func, arg) ==
                  ScanPass(View(Order()), to, mask, fired', func, arg')
        decreases |prios[p]| - i
      {
        PrioAtIs(p, i);
        PriorityWalk(p);
        RestHead(p, i);
        var node := ruleMem[pos.slot];
        var tmp := pos.next;
        assert Order()[to..][0] == node && Order()[to..][1..] == Order()[to + 1..];
        failed, arg', fired' := MatchNode(node, to, mask, fired', func, arg');
        if failed {
          return;
        }
        pos := tmp;
        i, to := i + 1, to + 1;
      }
      PrioAtIs(p, i);
    }

    lemma RestHead(p: nat, i: nat)
      requires p < |prios| && i < |prios[p]|
      ensures |Rest(p, i)| > 0 && Rest(p, i)[0] == prios[p][i] && Rest(p, i)[1..] == Rest(p, i + 1)
    {
    }

    // mask_rule_macth. The flags may hold anything on entry. `fired` lists the rules called back, in order.
    method Match<S>(mask: bv64, func: Callback<S>, arg: S) returns (status: int, arg': S, ghost fired: seq<Content>)
      requires Valid()
      modifies nodes`effect
      ensures ruleCnt == 0 ==> status == -3 && arg' == arg && fired == []
      ensures forall i :: 0 <= i < |fired| ==> Meets(fired[i], mask)
      ensures ruleCnt > 0 ==>
        ScanPass(old(View(Order())), 0, mask, [], func, arg) == (Outcome(status, fired, arg'), View(Order()))
      ensures ruleCnt > 0 && old(Ordered()) ==>
        Outcome(status, fired, arg') == Pass(old(ContentsOf(Order())), mask, [], func, arg)
      ensures old(Ordered()) ==> Compatible(fired)
      ensures old(Ordered()) && ruleCnt > 0 ==> status == 0 || status == -12
      ensures Valid()
    {
      hide Valid, Ordered, ListsOk, ScanPass, View, Pass, ContentsOf, Flat, Order, Acceptable, Meets, Compatible;
      OrderFacts();
      NoneFired();
      PassCompatible(ContentsOf(Order()), mask, [], func, arg);
      PassStatus(ContentsOf(Order()), mask, [], func, arg);
      ViewIs();
      ScanPassMeets(View(Order()), mask, func, arg);
      MatchIsPass(View(Order()), mask, func, arg);
      arg', fired := arg, [];
      if ruleCnt == 0 {
        return ERR_CAP_EMPTY, arg', fired;
      }
      LiveIs();
      OrderIs();
      ghost var k: nat := 0;
      for p := 0 to PRIORITY_NUM
        invariant Valid() && k <= |Order()| && Order()[k..] == Flat(prios, p)
        invariant ScanPass(old(View(Order())), 0, mask, [], func, arg) ==
                  ScanPass(View(Order()), k, mask, fired, func, arg')
      {
        var failed;
        failed, arg', fired, k := MatchList(p, k, mask, fired, func, arg');
        if failed {
          return ERR_CALLBACK, arg', fired;
        }
      }
      FlatEnd();
      ScanPassEnd(View(Order()), mask, fired, func, arg');
      status := SUCCESS;
    }

    lemma NoneFired()
      ensures Compatible([])
    {
    }

    lemma FlatEnd()
      requires |prios| == PRIORITY_NUM
      ensures Flat(prios, PRIORITY_NUM) == []
    {
    }

    // In an ordered rule set the pass is the greedy one; the flags held before do not matter.
    lemma MatchIsPass<S>(was: seq<Entry>, mask: bv64, func: Callback<S>, arg: S)
      requires Valid() && |was| == |Order()|
      requires forall i :: 0 <= i < |was| ==> was[i].content == Order()[i].content && was[i].valid == Order()[i].valid
      ensures Ordered() ==>
        ScanPass(was, 0, mask, [], func, arg).0 == Pass(ContentsOf(Order()), mask, [], func, arg)
    {
      OrderFacts();
      hide Valid, Ordered, Order, Sorted;
      if Ordered() {
        assert Contents(was) == ContentsOf(Order());
        ScanPassIsPass(was, 0, mask, func, arg);
        assert was[..0] == [] && Contents(was)[0..] == Contents(was);
      }
    }

    lemma ScanEmpty(filter: Content)
      requires |prios| == PRIORITY_NUM
      ensures !Scan(View(Flat(prios, PRIORITY_NUM)), filter)
    {
    }
  }

  // The lists from p on, one after the other.
  ghost function Flat(lists: seq<seq<RuleNode>>, p: nat): seq<RuleNode>
    decreases |lists| - p
  {
    if p >= |lists| then [] else lists[p] + Flat(lists, p + 1)
  }

  lemma FlatWithout(lists: seq<seq<RuleNode>>, p: nat, j: nat, from: nat) returns (m: nat)
    requires from <= p < |lists| && j < |lists[p]|
    ensures m < |Flat(lists, from)| && Flat(lists, from)[m] == lists[p][j]
    ensures Flat(lists[p := Remove(lists[p], j)], from) == Remove(Flat(lists, from), m)
    decreases p - from
  {
    var without := lists[p := Remove(lists[p], j)];
    RemoveAppend(lists[from], Flat(lists, from + 1));
    hide Remove;
    if from == p {
      m := j;
      FlatFrom(without, lists, p + 1);
    } else {
      m := FlatWithout(lists, p, j, from + 1);
      m := |lists[from]| + m;
    }
  }

  lemma RemoveAppend(a: seq<RuleNode>, b: seq<RuleNode>)
    ensures forall k :: 0 <= k < |a| ==> Remove(a + b, k) == Remove(a, k) + b
    ensures forall k :: 0 <= k < |b| ==> Remove(a + b, |a| + k) == a + Remove(b, k)
  {
  }

  lemma FlatFrom(a: seq<seq<RuleNode>>, b: seq<seq<RuleNode>>, p: nat)
    requires |a| == |b| && forall q :: p <= q < |a| ==> a[q] == b[q]
    ensures Flat(a, p) == Flat(b, p)
    decreases |a| - p
  {
    if p < |a| {
      FlatFrom(a, b, p + 1);
    }
  }

  ghost function EntryOf(node: RuleNode): Entry
    reads node
  {
    Entry(node.content, node.valid, node.effect)
  }

  ghost function View(s: seq<RuleNode>): (r: seq<Entry>)
    reads s
    ensures |r| == |s| && forall i :: 0 <= i < |r| ==> r[i] == EntryOf(s[i])
  {
    seq(|s|, i requires 0 <= i < |s| reads s => EntryOf(s[i]))
  }
}
