/**
 The nodes of the trie of `trie.c`, and the model of all of them that the code keeps up: which node
 stands at the end of which path (see TriePaths) and what it holds.
 */
module TrieModels {
  import opened TriePaths

  const MAX_CHILD_NUM: nat := 16
  const MAX_CHILD_DEPTH: nat := 16

  // sizeof(TRIE_NODE_T *)
  const LINK_SIZE: nat := 8

  // TRIE_NODE_T: the slots of `node` in use, the callback as a number, and whether the memory has been
  // given back.
  class TrieNode {
    var node: seq<TrieNode>
    var func: int
    var tailFlag: bool
    const depth: nat
    const data: Key
    ghost const path: Path
    ghost var freed: bool

    ghost predicate Holds(c: Content)
      reads this
    {
      node == c.slots && tailFlag == c.tail && func == c.func && !freed
    }

    constructor (depth: nat, data: Key, ghost path: Path)
      ensures Holds(Content([], false, 0))
      ensures this.depth == depth && this.data == data && this.path == path
    {
      node, func, tailFlag, freed := [], 0, false, false;
      this.depth, this.data, this.path := depth, data, path;
    }

    lemma HoldsFacts(c: Content)
      requires Holds(c)
      ensures node == c.slots && tailFlag == c.tail && func == c.func && !freed
    {
    }

    // trie_new_node
    method Grow(key: Key, ghost p: Path, ghost c: Content) returns (child: TrieNode)
      requires Holds(c)
      modifies this`node
      ensures fresh(child) && child.data == key && child.depth == depth + 1 && child.path == p
      ensures Holds(c.(slots := c.slots + [child])) && child.Holds(Content([], false, 0))
    {
      child := new TrieNode(depth + 1, key, p);
      node := node + [child];
    }

    method Mark(func: int, ghost c: Content)
      requires Holds(c)
      modifies this`tailFlag, this`func
      ensures Holds(c.(tail := true, func := func))
    {
      tailFlag := true;
      this.func := func;
    }

    // A node's memory can be read until it is given back, which is done once.
    method NodeNum() returns (n: nat)
      requires !freed
      ensures n == |node|
    {
      return |node|;
    }

    method Slot(i: nat) returns (child: TrieNode)
      requires !freed && i < |node|
      ensures child == node[i]
    {
      return node[i];
    }

    method Free()
      requires !freed
      modifies this`freed
      ensures freed
    {
      freed := true;
    }
  }

  // What the changing fields of a node hold.
  datatype Content = Content(slots: seq<TrieNode>, tail: bool, func: int)

  // The nodes by the paths to them, what they hold, and the table of paths with a bound on their length.
  datatype Model = Model(nodes: map<Path, TrieNode>, contents: map<Path, Content>, tree: Tree, height: nat)

  // The node of a path: its depth, its element, and its children in their slots.
  ghost predicate NodeFits(m: Model, p: Path)
    requires p in m.nodes && p in m.tree && p in m.contents
  {
    var n, c, kids := m.nodes[p], m.contents[p], m.tree[p];
    && n.path == p && n.depth == |p|
    && (p != [] ==> NameOf(n.data) == p[|p| - 1])
    && |c.slots| == |kids| <= MAX_CHILD_NUM
    && forall i :: 0 <= i < |kids| ==> kids[i] in m.nodes && c.slots[i] == m.nodes[kids[i]]
  }

  ghost predicate Fits(m: Model) {
    && m.tree.Keys == m.nodes.Keys == m.contents.Keys
    && forall p :: p in m.nodes ==> NodeFits(m, p)
  }

  ghost predicate Sound(m: Model) {
    Grown(m.tree, m.height) && Fits(m)
  }

  // A new child of p, in its last slot.
  ghost function WithNode(m: Model, p: Path, x: Name, child: TrieNode): Model
    requires p in m.tree && p in m.contents
  {
    var q, c := p + [x], m.contents[p];
    Model(m.nodes[q := child],
          m.contents[p := c.(slots := c.slots + [child])][q := Content([], false, 0)],
          Added(m.tree, p, x),
          if m.height <= |p| then |p| + 1 else m.height)
  }

  // A path that ends, and its callback.
  ghost function WithTail(m: Model, p: Path, func: int): Model
    requires p in m.contents
  {
    m.(contents := m.contents[p := m.contents[p].(tail := true, func := func)])
  }

  lemma Keys(m: Model)
    requires Sound(m)
    ensures Grown(m.tree, m.height) && [] in m.nodes && m.tree.Keys == m.nodes.Keys == m.contents.Keys
  {
  }

  lemma WithNodeSound(m: Model, p: Path, x: Name, child: TrieNode)
    requires Sound(m) && p in m.tree && p in m.contents && p + [x] !in m.tree && |m.tree[p]| < MAX_CHILD_NUM
    requires child.path == p + [x] && child.depth == |p| + 1 && NameOf(child.data) == x
    ensures var m1 := WithNode(m, p, x, child);
      && Sound(m1) && |m1.tree| == |m.tree| + 1
      && [] in m.nodes && [] in m1.nodes && m1.nodes[[]] == m.nodes[[]]
  {
    AddedGrown(m.tree, m.height, p, x);
    Keys(m);
    WithNodeFits(m, p, x, child);
    hide Grown, Fits, NodeFits, Added;
  }

  lemma WithNodeFits(m: Model, p: Path, x: Name, child: TrieNode)
    requires Fits(m) && p in m.tree && p in m.contents && p + [x] !in m.tree && |m.tree[p]| < MAX_CHILD_NUM
    requires child.path == p + [x] && child.depth == |p| + 1 && NameOf(child.data) == x
    ensures Fits(WithNode(m, p, x, child))
  {
    var q, m1 := p + [x], WithNode(m, p, x, child);
    assert m1.tree.Keys == m.tree.Keys + {q} && m1.nodes.Keys == m.nodes.Keys + {q};
    assert m1.contents.Keys == m.contents.Keys + {q};
    forall r | r in m1.nodes ensures NodeFits(m1, r) {
      if r != q {
        assert NodeFits(m, r);
        NodeFitsStill(m, p, x, child, r);
      } else {
        NewNodeFits(m, p, x, child);
      }
    }
    hide *;
    AllFit(m1);
  }

  lemma AllFit(m: Model)
    requires m.tree.Keys == m.nodes.Keys == m.contents.Keys
    requires forall p :: p in m.nodes ==> NodeFits(m, p)
    ensures Fits(m)
  {
  }

  lemma NodeFitsStill(m: Model, p: Path, x: Name, child: TrieNode, r: Path)
    requires p in m.tree && p in m.contents && p + [x] !in m.nodes && |m.tree[p]| < MAX_CHILD_NUM
    requires r in m.nodes && r in m.tree && r in m.contents && NodeFits(m, r)
    ensures NodeFits(WithNode(m, p, x, child), r)
  {
    hide NameOf;
  }

  lemma NewNodeFits(m: Model, p: Path, x: Name, child: TrieNode)
    requires p in m.tree && p in m.contents
    requires child.path == p + [x] && child.depth == |p| + 1 && NameOf(child.data) == x
    ensures NodeFits(WithNode(m, p, x, child), p + [x])
  {
    hide NameOf;
  }

  lemma NodesWith(m: Model, p: Path, x: Name, child: TrieNode)
    requires p in m.tree && p in m.contents
    ensures WithNode(m, p, x, child).nodes == m.nodes[p + [x] := child]
  {
  }

  lemma WithNodeEntries(m: Model, p: Path, x: Name, child: TrieNode)
    requires p in m.tree && p in m.contents && p + [x] !in m.contents
    ensures EntriesOf(WithNode(m, p, x, child)) == EntriesOf(m)
  {
  }

  lemma WithTailSound(m: Model, p: Path, func: int)
    requires Sound(m) && p in m.contents
    ensures Sound(WithTail(m, p, func))
  {
    var m1 := WithTail(m, p, func);
    assert m1.contents.Keys == m.contents.Keys;
    forall r | r in m1.nodes ensures NodeFits(m1, r) {
      assert NodeFits(m, r);
      TailFits(m, p, func, r);
    }
    hide Grown, NodeFits;
    AllFit(m1);
  }

  lemma TailFits(m: Model, p: Path, func: int, r: Path)
    requires p in m.contents && r in m.nodes && r in m.tree && r in m.contents && NodeFits(m, r)
    ensures NodeFits(WithTail(m, p, func), r)
  {
    hide NameOf;
  }

  lemma WithTailNodes(m: Model, p: Path, func: int)
    requires p in m.contents
    ensures WithTail(m, p, func).nodes == m.nodes && WithTail(m, p, func).tree == m.tree
  {
  }

  lemma WithTailBacked(m: Model, p: Path, func: int)
    requires p in m.nodes && m.nodes.Keys == m.contents.Keys
    requires forall q :: q in m.nodes && q != p ==> m.nodes[q].Holds(m.contents[q])
    requires m.nodes[p].Holds(m.contents[p].(tail := true, func := func))
    ensures Backed(WithTail(m, p, func))
  {
    hide TrieNode.Holds;
  }

  lemma TailIs(m: Model, p: Path)
    requires p in m.contents
    ensures p in EntriesOf(m) <==> m.contents[p].tail
    ensures p in EntriesOf(m) ==> EntriesOf(m)[p] == m.contents[p].func
  {
  }

  lemma WithTailEntries(m: Model, p: Path, func: int)
    requires p in m.contents
    ensures EntriesOf(WithTail(m, p, func)) == EntriesOf(m)[p := func]
  {
  }

  // What has been inserted.
  ghost function EntriesOf(m: Model): map<Path, int> {
    map p | p in m.contents && m.contents[p].tail :: m.contents[p].func
  }

  // The nodes hold their contents.
  ghost predicate Backed(m: Model)
    reads m.nodes.Values
  {
    m.nodes.Keys <= m.contents.Keys && forall p :: p in m.nodes ==> m.nodes[p].Holds(m.contents[p])
  }

  lemma Distinct(m: Model)
    requires Sound(m)
    ensures forall p :: p in m.nodes ==> m.nodes[p].path == p
  {
    assert forall p :: p in m.nodes ==> NodeFits(m, p);
  }

  method GrowAt(search: TrieNode, key: Key, ghost m: Model, ghost p: Path) returns (child: TrieNode)
    requires Sound(m) && Backed(m) && p in m.nodes && p in m.tree && p in m.contents && m.nodes[p] == search
    requires p + [NameOf(key)] !in m.tree && |m.tree[p]| < MAX_CHILD_NUM
    modifies search`node
    ensures fresh(child)
    ensures Sound(WithNode(m, p, NameOf(key), child)) && Backed(WithNode(m, p, NameOf(key), child))
    ensures EntriesOf(WithNode(m, p, NameOf(key), child)) == EntriesOf(m)
    ensures |WithNode(m, p, NameOf(key), child).tree| == |m.tree| + 1
    ensures [] in m.nodes && [] in WithNode(m, p, NameOf(key), child).nodes
    ensures WithNode(m, p, NameOf(key), child).nodes[[]] == m.nodes[[]]
  {
    hide *;
    ghost var x := NameOf(key);
    Keys(m);
    NodeIs(m, p);
    NodeHolds(m, p);
    OthersApart(m, p);
    child := search.Grow(key, p + [x], m.contents[p]);
    WithNodeSound(m, p, x, child);
    WithNodeEntries(m, p, x, child);
    WithNodeBacked(m, p, x, child);
  }

  lemma NodeHolds(m: Model, p: Path)
    requires Backed(m) && p in m.nodes && p in m.contents
    ensures m.nodes[p].Holds(m.contents[p])
  {
  }

  lemma OthersApart(m: Model, p: Path)
    requires Sound(m) && Backed(m) && p in m.nodes
    ensures forall q :: q in m.nodes && q != p ==>
      q in m.contents && m.nodes[q] != m.nodes[p] && m.nodes[q].Holds(m.contents[q])
  {
    Distinct(m);
  }

  lemma NodeIs(m: Model, p: Path)
    requires Sound(m) && p in m.nodes
    ensures p in m.tree && p in m.contents && m.nodes[p].depth == |p|
    ensures p != [] ==> NameOf(m.nodes[p].data) == p[|p| - 1]
    ensures var slots := m.contents[p].slots;
      && |slots| == |m.tree[p]| <= MAX_CHILD_NUM
      && forall i :: 0 <= i < |slots| ==>
        m.tree[p][i] in m.nodes && slots[i] == m.nodes[m.tree[p][i]] && IsChild(m.tree, p, m.tree[p][i])
  {
    assert NodeFits(m, p);
  }

  lemma WithNodeBacked(m: Model, p: Path, x: Name, child: TrieNode)
    requires p in m.nodes && p in m.tree && p + [x] !in m.nodes && m.nodes.Keys == m.contents.Keys
    requires forall q :: q in m.nodes && q != p ==> m.nodes[q].Holds(m.contents[q])
    requires m.nodes[p].Holds(m.contents[p].(slots := m.contents[p].slots + [child]))
    requires child.Holds(Content([], false, 0))
    ensures Backed(WithNode(m, p, x, child))
  {
    hide TrieNode.Holds;
  }

  function Blank(): (r: (seq<Key>, seq<nat>))
    ensures |r.0| == |r.1| == MAX_CHILD_DEPTH && forall d :: 0 <= d < MAX_CHILD_DEPTH ==> r.1[d] == 0
  {
    (seq(MAX_CHILD_DEPTH, i => []), seq(MAX_CHILD_DEPTH, i => 0))
  }

  // The raw elements along a path.
  ghost function DataPath(nodes: map<Path, TrieNode>, p: Path): seq<Key> {
    if p == [] || p !in nodes then [] else DataPath(nodes, Parent(p)) + [nodes[p].data]
  }

  // The scratch arrays have room for every path.
  ghost predicate Shallow(m: Model) {
    forall p :: p in m.tree ==> |p| < MAX_CHILD_DEPTH
  }

  lemma ShallowIs(m: Model)
    ensures Shallow(m) <==> forall p :: p in m.tree ==> |p| <= 15
  {
  }

  // All the nodes but the root in the order in which trie_path_list leaves them.
  ghost function ListOrder(m: Model): seq<Path>
    requires Sound(m)
  {
    RootIn(m.tree, m.height);
    Tops(m.tree, m.height, |m.tree[[]]|)
  }

  // child_index on a way of n elements: what has been taken at each depth, and zero further down.
  ghost predicate IndexOk(ci: seq<nat>, n: nat, taken: seq<nat>) {
    && |ci| == MAX_CHILD_DEPTH && n == |taken| < MAX_CHILD_DEPTH
    && forall d :: 1 <= d < MAX_CHILD_DEPTH ==> ci[d] == if d <= n then taken[d - 1] else 0
  }

  lemma IndexTop(ci: seq<nat>)
    requires IndexOk(ci, 0, [])
    ensures IndexOk(ci, 1, [0])
  {
  }

  lemma IndexDown(ci: seq<nat>, before: seq<nat>, i: nat)
    requires IndexOk(ci, |before| + 1, before + [i]) && |before| + 2 < MAX_CHILD_DEPTH
    ensures ci[|before| + 1] == i
    ensures IndexOk(ci[|before| + 1 := i + 1], |before| + 2, before + [i + 1] + [0])
  {
  }

  lemma IndexUp(ci: seq<nat>, before: seq<nat>, i: nat)
    requires IndexOk(ci, |before| + 1, before + [i])
    ensures ci[|before| + 1] == i
    ensures IndexOk(ci[|before| + 1 := 0], |before|, before)
  {
  }

  // child_data: the path to the parent, before the node itself is written.
  ghost predicate DataOk(m: Model, cd: seq<Key>, p: Path) {
    && |cd| == MAX_CHILD_DEPTH && |p| < MAX_CHILD_DEPTH
    && (p != [] ==> cd[..|p| - 1] == DataPath(m.nodes, Parent(p)))
  }

  lemma DataDown(m: Model, cd: seq<Key>, p: Path, c: Path)
    requires DataOk(m, cd, p) && p != [] && p in m.nodes && c != [] && Parent(c) == p && |c| < MAX_CHILD_DEPTH
    ensures DataOk(m, cd[|p| - 1 := m.nodes[p].data], c)
  {
    var cd1 := cd[|p| - 1 := m.nodes[p].data];
    assert cd1[..|p|] == cd[..|p| - 1] + [m.nodes[p].data];
  }

  lemma DataUp(m: Model, cd: seq<Key>, p: Path)
    requires DataOk(m, cd, p) && p != [] && p in m.nodes && Parent(p) in m.nodes
    ensures var cd1 := cd[|p| - 1 := m.nodes[p].data];
      DataOk(m, cd1, Parent(p)) && cd1[..|p|] == DataPath(m.nodes, p)
  {
    var cd1, q := cd[|p| - 1 := m.nodes[p].data], Parent(p);
    assert cd1[..|p|] == cd[..|p| - 1] + [m.nodes[p].data];
    if q != [] {
      assert DataPath(m.nodes, q) == DataPath(m.nodes, Parent(q)) + [m.nodes[q].data];
      assert cd1[..|q| - 1] == cd[..|p| - 1][..|q| - 1];
    }
  }

  ghost predicate Place(m: Model, s: Spot, left: seq<Path>) {
    && Sound(m) && Shallow(m) && OnSpot(m.tree, s)
    && left + Remaining(m.tree, m.height, s) == ListOrder(m)
  }

  // The state of trie_path_list: the stack, the scratch arrays, where it is and what it has left.
  ghost predicate At(m: Model, st: seq<TrieNode?>, ci: seq<nat>, cd: seq<Key>, s: Spot, left: seq<Path>) {
    && Place(m, s, left) && OnStack(m, SpotStack(m.tree, s), st)
    && IndexOk(ci, |s.p|, Taken(s)) && DataOk(m, cd, s.p)
  }

  lemma StartSpot(m: Model, st: seq<TrieNode?>, ci: seq<nat>, cd: seq<Key>) returns (s: Spot, left: seq<Path>)
    requires Sound(m) && Shallow(m) && [] in m.tree && OnStack(m, m.tree[[]], st)
    requires |ci| == |cd| == MAX_CHILD_DEPTH && forall d :: 0 <= d < MAX_CHILD_DEPTH ==> ci[d] == 0
    ensures left == [] && |s.p| < MAX_CHILD_DEPTH && At(m, st, ci, cd, s, left)
  {
    hide *;
    s, left := Spot([], [], 0, |m.tree[[]]|), [];
    Keys(m);
    OrdersAre(m);
    NoSpot(m.tree, m.height, |m.tree[[]]|);
    ClimbNone(m.tree, m.height, |m.tree[[]]|);
    StartScratch(m, ci, cd);
    var kids := m.tree[[]];
    assert kids[..|kids|] + [] == kids;
    assert left + Remaining(m.tree, m.height, s) == Remaining(m.tree, m.height, s);
    AtFrom(m, st, ci, cd, s, left);
  }

  lemma StartScratch(m: Model, ci: seq<nat>, cd: seq<Key>)
    requires |ci| == |cd| == MAX_CHILD_DEPTH && forall d :: 0 <= d < MAX_CHILD_DEPTH ==> ci[d] == 0
    ensures IndexOk(ci, 0, []) && DataOk(m, cd, []) && 0 < MAX_CHILD_DEPTH
  {
  }

  lemma AtFacts(m: Model, st: seq<TrieNode?>, ci: seq<nat>, cd: seq<Key>, s: Spot, left: seq<Path>)
    requires At(m, st, ci, cd, s, left)
    ensures IndexOk(ci, |s.p|, Taken(s)) && DataOk(m, cd, s.p)
    ensures Sound(m) && Shallow(m) && OnSpot(m.tree, s) && Grown(m.tree, m.height) && m.tree.Keys == m.nodes.Keys
    ensures left + Remaining(m.tree, m.height, s) == ListOrder(m)
    ensures [] in m.tree && s.k <= |m.tree[[]]| && OnStack(m, SpotStack(m.tree, s), st)
    ensures |st| == s.k + |s.p| && |s.p| < MAX_CHILD_DEPTH == |ci| == |cd|
  {
    Keys(m);
    hide Grown, Fits, Remaining, ListOrder, Shallow, IndexOk;
  }

  lemma AtFrom(m: Model, st: seq<TrieNode?>, ci: seq<nat>, cd: seq<Key>, s: Spot, left: seq<Path>)
    requires Sound(m) && Grown(m.tree, m.height) && Shallow(m) && OnSpot(m.tree, s)
    requires left + Remaining(m.tree, m.height, s) == ListOrder(m)
    requires [] in m.tree && s.k <= |m.tree[[]]| && OnStack(m, SpotStack(m.tree, s), st)
    requires IndexOk(ci, |s.p|, Taken(s)) && DataOk(m, cd, s.p)
    ensures At(m, st, ci, cd, s, left)
  {
  }

  lemma SpotFacts(t: Tree, s: Spot)
    requires OnSpot(t, s)
    ensures [] in t && s.k <= |t[[]]| && |Taken(s)| == |s.p|
    ensures s.p == [] ==> s.before == [] && s.i == 0 && Taken(s) == []
    ensures s.p != [] ==> s.p in t && s.i <= |t[s.p]| && Taken(s) == s.before + [s.i] && |s.before| == |s.p| - 1
  {
  }

  lemma AtTop(m: Model, st: seq<TrieNode?>, ci: seq<nat>, cd: seq<Key>, s: Spot, left: seq<Path>) returns (next: Spot)
    requires At(m, st, ci, cd, s, left) && s.p == [] && 0 < s.k
    ensures At(m, st, ci, cd, next, left) && |next.p| == 1
  {
    hide *;
    AtFacts(m, st, ci, cd, s, left);
    SpotFacts(m.tree, s);
    ToTop(m.tree, m.height, s);
    next := TopSpot(m.tree, s);
    SpotFacts(m.tree, next);
    TopIs(m, cd, s);
    IndexTop(ci);
    AtFrom(m, st, ci, cd, next, left);
  }

  lemma TopIs(m: Model, cd: seq<Key>, s: Spot)
    requires [] in m.tree && 0 < s.k <= |m.tree[[]]| && DataOk(m, cd, []) && |TopSpot(m.tree, s).p| == 1
    ensures var next := TopSpot(m.tree, s);
      next.before == [] && next.i == 0 && next.k < |m.tree[[]]| && Taken(next) == [0] && DataOk(m, cd, next.p)
  {
    var next := TopSpot(m.tree, s);
    assert Parent(next.p) == [];
  }

  lemma AtEnd(m: Model, st: seq<TrieNode?>, ci: seq<nat>, cd: seq<Key>, s: Spot, left: seq<Path>)
    requires At(m, st, ci, cd, s, left) && s.p == [] && s.k == 0
    ensures left == ListOrder(m)
  {
    hide Grown, Fits, ListOrder;
    assert left + [] == left;
  }

  // The node on top of the stack is the one at the spot.
  lemma AtNode(m: Model, st: seq<TrieNode?>, ci: seq<nat>, cd: seq<Key>, s: Spot, left: seq<Path>)
    requires At(m, st, ci, cd, s, left) && s.p != []
    ensures s.p in m.nodes && s.p in m.tree && st != [] && st[|st| - 1] == m.nodes[s.p]
    ensures |ci| == |cd| == MAX_CHILD_DEPTH && ci[|s.p|] == s.i <= |m.tree[s.p]|
  {
    AtFacts(m, st, ci, cd, s, left);
    SpotFacts(m.tree, s);
    IndexUp(ci, s.before, s.i);
    hide Grown, Fits, Remaining, ListOrder, OnSpot, IndexOk, At, Shallow;
    var paths := SpotStack(m.tree, s);
    assert paths[|paths| - 1] == s.p;
  }

  // The next child is put on the stack, where there is room for it.
  lemma AtDown(m: Model, st: seq<TrieNode?>, ci: seq<nat>, cd: seq<Key>, s: Spot, left: seq<Path>, child: TrieNode)
    returns (next: Spot)
    requires At(m, st, ci, cd, s, left) && s.p != [] && s.p in m.tree && s.p in m.nodes && s.i < |m.tree[s.p]|
    requires m.tree[s.p][s.i] in m.nodes && child == m.nodes[m.tree[s.p][s.i]]
    ensures |s.p| < MAX_CHILD_DEPTH == |ci| == |cd| && |st| + 1 < |m.tree|
    ensures At(m, st + [child], ci[|s.p| := s.i + 1], cd[|s.p| - 1 := m.nodes[s.p].data], next, left)
    ensures |s.p| < |next.p| < MAX_CHILD_DEPTH
  {
    hide *;
    AtFacts(m, st, ci, cd, s, left);
    SpotFacts(m.tree, s);
    ToChild(m.tree, m.height, s);
    next := DownSpot(m.tree, s);
    SpotFacts(m.tree, next);
    DownIs(m, s);
    IndexDown(ci, s.before, s.i);
    DataDown(m, cd, s.p, next.p);
    RoomLeft(m, next, left);
    PushPath(m, SpotStack(m.tree, s), next.p, st, child);
    AtFrom(m, st + [child], ci[|s.p| := s.i + 1], cd[|s.p| - 1 := m.nodes[s.p].data], next, left);
  }

  lemma DownIs(m: Model, s: Spot)
    requires s.p in m.tree && s.i < |m.tree[s.p]| && Shallow(m) && DownSpot(m.tree, s).p in m.tree
    requires s.p != [] && |DownSpot(m.tree, s).p| == |s.p| + 1
    ensures var next := DownSpot(m.tree, s);
      && next.p == m.tree[s.p][s.i] && next.k == s.k && Taken(next) == s.before + [s.i + 1] + [0]
      && |next.p| < MAX_CHILD_DEPTH
  {
  }

  lemma PushPath(m: Model, paths: seq<Path>, q: Path, nodes: seq<TrieNode?>, child: TrieNode)
    requires OnStack(m, paths, nodes) && q in m.nodes && child == m.nodes[q]
    ensures OnStack(m, paths + [q], nodes + [child])
  {
  }

  // What is left includes what is on the stack, so there is a slot for all of it.
  lemma RoomLeft(m: Model, s: Spot, left: seq<Path>)
    requires Sound(m) && Grown(m.tree, m.height) && OnSpot(m.tree, s)
    requires left + Remaining(m.tree, m.height, s) == ListOrder(m)
    ensures s.k + |s.p| < |m.tree| && |left| < |m.tree|
  {
    OrdersComplete(m.tree, m.height);
    SpotOnWay(m.tree, s);
    ClimbLength(m.tree, m.height, s.p, Taken(s), s.k);
    hide Grown, Fits, Climb, Tops;
    assert |ListOrder(m)| == |m.tree| - 1;
  }

  // The node on top is left behind; the scratch array spells the path to it.
  lemma AtUp(m: Model, st: seq<TrieNode?>, ci: seq<nat>, cd: seq<Key>, s: Spot, left: seq<Path>,
             st1: seq<TrieNode?>, node: TrieNode?)
    returns (next: Spot, left1: seq<Path>)
    requires At(m, st, ci, cd, s, left) && s.p != [] && s.p in m.tree && s.p in m.nodes && s.i == |m.tree[s.p]|
    requires st == st1 + [node]
    ensures |s.p| < MAX_CHILD_DEPTH == |ci| == |cd| && left1 == left + [s.p] && |left1| < |m.tree|
    ensures |next.p| < |s.p|
    ensures var cd1 := cd[|s.p| - 1 := m.nodes[s.p].data];
      At(m, st1, ci[|s.p| := 0], cd1, next, left1) && cd1[..|s.p|] == DataPath(m.nodes, s.p)
  {
    hide *;
    AtFacts(m, st, ci, cd, s, left);
    SpotFacts(m.tree, s);
    ToParent(m.tree, m.height, s);
    next, left1 := UpSpot(s), left + [s.p];
    SpotFacts(m.tree, next);
    UpIs(m.tree, m.height, s);
    IndexUp(ci, s.before, s.i);
    DataUp(m, cd, s.p);
    PopOnStack(m, SpotStack(m.tree, next), s.p, st1, node);
    assert left + ([s.p] + Remaining(m.tree, m.height, next)) == left1 + Remaining(m.tree, m.height, next);
    RoomLeft(m, next, left1);
    AtFrom(m, st1, ci[|s.p| := 0], cd[|s.p| - 1 := m.nodes[s.p].data], next, left1);
  }

  lemma UpIs(t: Tree, h: nat, s: Spot)
    requires Grown(t, h) && s.p != [] && |s.before| == |s.p| - 1 && s.p in t
    ensures UpSpot(s).k == s.k && Parent(s.p) in t && |Parent(s.p)| == |s.p| - 1
  {
  }

  lemma AtCut<A>(m: Model, s: Spot, left: seq<Path>, made: seq<A>, before: seq<Path>, labels: map<Path, A>,
                 func: Handler<A>, p: Path)
    requires Sound(m) && Grown(m.tree, m.height) && OnSpot(m.tree, s)
    requires left + Remaining(m.tree, m.height, s) == ListOrder(m) && left == before + [p] && Going(made, before, labels, func)
    requires p in labels && func.Handler? && func.answer(made + [labels[p]]) < 0
    ensures Sound(m) && CutShort(made + [labels[p]], Labels(ListOrder(m), labels), func, -1)
  {
    GoingCut(made, before, labels, func, p, Remaining(m.tree, m.height, s));
  }

  lemma PatternAt(m: Model, p: Path)
    ensures p in Patterns(m) <==> p in EntriesOf(m)
    ensures p in Patterns(m) ==> Patterns(m)[p] == DataPath(m.nodes, p)
  {
  }

  // The way to a node that ends a pattern, element by element.
  ghost function Patterns(m: Model): map<Path, seq<Key>> {
    map p | p in EntriesOf(m) :: DataPath(m.nodes, p)
  }

  // The nodes that have not been taken can still be looked at.
  ghost predicate Kept(m: Model, left: seq<Path>)
    reads m.nodes.Values
  {
    forall q :: q in m.nodes && q !in left ==> q in m.contents && m.nodes[q].Holds(m.contents[q])
  }

  lemma ValidKept(m: Model, left: seq<Path>)
    requires Backed(m)
    ensures Kept(m, left)
  {
    hide TrieNode.Holds;
  }

  lemma FreedKept(m: Model, left: seq<Path>)
    requires Freed(m, left)
    ensures Kept(m, left)
  {
    hide TrieNode.Holds;
  }

  lemma KeptAt(m: Model, left: seq<Path>, p: Path)
    requires Kept(m, left) && p in m.nodes && p !in left
    ensures p in m.contents && m.nodes[p].Holds(m.contents[p])
  {
  }

  // The nodes taken are freed, and the others as they were.
  ghost predicate Freed(m: Model, left: seq<Path>)
    reads m.nodes.Values
  {
    m.nodes.Keys <= m.contents.Keys &&
    forall q :: q in m.nodes ==> if q in left then m.nodes[q].freed else m.nodes[q].Holds(m.contents[q])
  }

  lemma NoneFreed(m: Model)
    requires Backed(m)
    ensures Freed(m, [])
  {
  }

  lemma FreedFacts(m: Model, left: seq<Path>)
    requires Freed(m, left)
    ensures m.nodes.Keys <= m.contents.Keys
    ensures forall q :: q in m.nodes && q in left ==> m.nodes[q].freed
    ensures forall q :: q in m.nodes && q !in left ==> q in m.contents && m.nodes[q].Holds(m.contents[q])
  {
  }

  lemma FreedMore(m: Model, left: seq<Path>, p: Path)
    requires p in m.nodes && m.nodes[p].freed && m.nodes.Keys <= m.contents.Keys
    requires forall q :: q in m.nodes && q in left ==> m.nodes[q].freed
    requires forall q :: q in m.nodes && q !in left && q != p ==> m.nodes[q].Holds(m.contents[q])
    ensures Freed(m, left + [p])
  {
    hide TrieNode.Holds;
    forall q ensures q in left + [p] <==> q in left || q == p {
    }
  }

  lemma FreedAll(m: Model, left: seq<Path>)
    requires Sound(m) && left == WalkOrder(m) && Freed(m, left + [[]])
    ensures forall q :: q in m.nodes ==> m.nodes[q].freed
  {
    WalkOnce(m);
    Keys(m);
    FreedFacts(m, left + [[]]);
    hide *;
    forall q | q in m.nodes ensures q in left + [[]] {
      if q != [] {
        assert q in multiset(m.tree.Keys - {[]});
      }
    }
  }

  // All the nodes but the root in the order in which the loops that empty a stack take them.
  ghost function WalkOrder(m: Model): seq<Path>
    requires Sound(m)
  {
    RootIn(m.tree, m.height);
    Down(m.tree, m.height, [], |m.tree[[]]|)
  }

  // Such a loop after some of the order: what is left is what waits on the stack.
  ghost predicate Pending(m: Model, paths: seq<Path>, left: seq<Path>, nodes: seq<TrieNode?>) {
    Sound(m) && OnStack(m, paths, nodes) && Waits(m, paths, left)
  }

  ghost predicate Waits(m: Model, paths: seq<Path>, left: seq<Path>)
    requires Sound(m)
  {
    (forall q :: q in paths ==> q in m.tree) && left + Waiting(m.tree, m.height, paths) == WalkOrder(m)
  }

  lemma OrdersAre(m: Model)
    requires Sound(m)
    ensures [] in m.tree && Grown(m.tree, m.height)
    ensures WalkOrder(m) == Down(m.tree, m.height, [], |m.tree[[]]|)
    ensures ListOrder(m) == Tops(m.tree, m.height, |m.tree[[]]|)
  {
    hide Down, Tops;
  }

  lemma PendingFrom(m: Model, paths: seq<Path>, left: seq<Path>, nodes: seq<TrieNode?>)
    requires Sound(m) && OnStack(m, paths, nodes) && Waits(m, paths, left)
    ensures Pending(m, paths, left, nodes)
  {
  }

  lemma StartPending(m: Model, nodes: seq<TrieNode?>) returns (paths: seq<Path>, left: seq<Path>)
    requires Sound(m) && [] in m.tree && OnStack(m, m.tree[[]], nodes)
    ensures left == [] && Pending(m, paths, left, nodes)
  {
    hide *;
    paths, left := m.tree[[]], [];
    Keys(m);
    RootCapacity(m.tree, m.height);
    RootsIn(m.tree, m.height);
    OrdersAre(m);
    assert left + Waiting(m.tree, m.height, paths) == Waiting(m.tree, m.height, paths);
    WaitsFrom(m, paths, left);
    PendingFrom(m, paths, left, nodes);
  }

  lemma PendingFacts(m: Model, paths: seq<Path>, left: seq<Path>, nodes: seq<TrieNode?>)
    requires Pending(m, paths, left, nodes)
    ensures |paths| == |nodes| && OnStack(m, paths, nodes) && Sound(m) && Waits(m, paths, left)
    ensures paths == [] ==> left == WalkOrder(m)
  {
    hide Grown, Fits, WalkOrder;
    if paths == [] {
      WaitingNone(m.tree, m.height);
      assert left + [] == left;
    }
  }

  // The node on top has not been taken, and its children fit on the stack.
  lemma PendingNext(m: Model, below: seq<Path>, p: Path, left: seq<Path>)
    requires Sound(m) && Waits(m, below + [p], left) && p in m.tree
    ensures p !in left && p != [] && |left| + 1 < |m.tree|
    ensures Waits(m, below + m.tree[p], left + [p])
    ensures |below| + |m.tree[p]| < |m.tree| - 1
  {
    hide *;
    var paths := below + [p];
    WaitsFacts(m, paths, left);
    assert paths[..|paths| - 1] == below;
    WaitingNext(m.tree, m.height, paths);
    WalkOnce(m);
    var order, rest := WalkOrder(m), Waiting(m.tree, m.height, below + m.tree[p]);
    NextApart(order, left, p, rest);
    WaitsFrom(m, below + m.tree[p], left + [p]);
  }

  lemma WaitsFacts(m: Model, paths: seq<Path>, left: seq<Path>)
    requires Sound(m) && Waits(m, paths, left)
    ensures Grown(m.tree, m.height) && forall q :: q in paths ==> q in m.tree
    ensures left + Waiting(m.tree, m.height, paths) == WalkOrder(m)
  {
  }

  lemma WaitsFrom(m: Model, paths: seq<Path>, left: seq<Path>)
    requires Sound(m) && Grown(m.tree, m.height) && forall q :: q in paths ==> q in m.tree
    requires left + Waiting(m.tree, m.height, paths) == WalkOrder(m)
    ensures Waits(m, paths, left)
  {
  }

  lemma NextApart(order: seq<Path>, left: seq<Path>, p: Path, rest: seq<Path>)
    requires NoDuplicates(order) && [] !in order && order == left + ([p] + rest)
    ensures p !in left && p != [] && order == left + [p] + rest && |left| < |order|
  {
    assert order[|left|] == p;
    assert forall i :: 0 <= i < |left| ==> order[i] == left[i];
  }

  lemma StillPending(m: Model, below: seq<Path>, p: Path, left: seq<Path>, nodes: seq<TrieNode?>)
    requires Sound(m) && p in m.tree && Waits(m, below + m.tree[p], left + [p]) && OnStack(m, below + m.tree[p], nodes)
    ensures Pending(m, below + m.tree[p], left + [p], nodes)
  {
  }

  // The order has every node but the root exactly once.
  lemma WalkOnce(m: Model)
    requires Sound(m)
    ensures multiset(WalkOrder(m)) == multiset(m.tree.Keys - {[]}) && |WalkOrder(m)| == |m.tree| - 1
    ensures NoDuplicates(WalkOrder(m)) && [] !in WalkOrder(m)
  {
    hide *;
    OrdersAre(m);
    OrdersComplete(m.tree, m.height);
    OnceEach(WalkOrder(m), m.tree.Keys - {[]});
  }

  lemma PendingCut<A>(m: Model, paths: seq<Path>, left: seq<Path>, nodes: seq<TrieNode?>, made: seq<A>,
                      before: seq<Path>, labels: map<Path, A>, func: Handler<A>, p: Path)
    requires Pending(m, paths, left, nodes) && left == before + [p] && Going(made, before, labels, func)
    requires p in labels && func.Handler? && func.answer(made + [labels[p]]) < 0
    ensures Sound(m) && CutShort(made + [labels[p]], Labels(WalkOrder(m), labels), func, -1)
  {
    GoingCut(made, before, labels, func, p, Waiting(m.tree, m.height, paths));
  }

  // The element of every node.
  ghost function Elements(m: Model): map<Path, Key> {
    map p | p in m.nodes :: m.nodes[p].data
  }

  lemma ElementsAt(m: Model, p: Path)
    requires p in m.nodes
    ensures p in Elements(m) && Elements(m)[p] == m.nodes[p].data
  {
  }

  lemma EndsAt(m: Model, p: Path)
    requires p in m.nodes && p in m.contents && m.nodes[p].Holds(m.contents[p])
    ensures p in Ends(m) <==> m.nodes[p].tailFlag
    ensures p in Ends(m) ==> Ends(m)[p] == m.nodes[p].data
  {
  }

  // The elements of the nodes that end a pattern.
  ghost function Ends(m: Model): map<Path, Key> {
    map p | p in m.nodes && p in EntriesOf(m) :: m.nodes[p].data
  }

  // The stack holds the nodes of these paths.
  ghost predicate OnStack(m: Model, paths: seq<Path>, nodes: seq<TrieNode?>) {
    |paths| == |nodes| && forall i :: 0 <= i < |paths| ==> paths[i] in m.nodes && nodes[i] == m.nodes[paths[i]]
  }

  lemma NothingOnStack(m: Model)
    ensures OnStack(m, [], [])
  {
  }

  lemma OnStackAlone(m: Model, kids: seq<Path>, nodes: seq<TrieNode?>)
    requires OnStack(m, [] + kids, nodes)
    ensures OnStack(m, kids, nodes)
  {
    assert [] + kids == kids;
  }

  lemma PopOnStack(m: Model, below: seq<Path>, p: Path, nodes: seq<TrieNode?>, node: TrieNode?)
    requires OnStack(m, below + [p], nodes + [node])
    ensures OnStack(m, below, nodes) && p in m.nodes && node == m.nodes[p]
  {
    var paths, all := below + [p], nodes + [node];
    assert forall i :: 0 <= i < |below| ==> paths[i] == below[i] && all[i] == nodes[i];
    assert paths[|below|] == p && all[|nodes|] == node;
  }

  lemma PushOnStack(m: Model, below: seq<Path>, kids: seq<Path>, i: nat, nodes: seq<TrieNode?>, child: TrieNode)
    requires i < |kids| && OnStack(m, below + kids[..i], nodes) && kids[i] in m.nodes && child == m.nodes[kids[i]]
    ensures OnStack(m, below + kids[..i + 1], nodes + [child]) && |nodes| == |below| + i
  {
    assert below + kids[..i + 1] == below + kids[..i] + [kids[i]];
  }

  ghost predicate RoomFor(t: Tree, path: Path) {
    forall i :: 0 <= i < |path| && path[..i] in t && path[..i + 1] !in t ==> |t[path[..i]]| < MAX_CHILD_NUM
  }

  lemma RoomHere(t: Tree, path: Path, i: nat)
    requires RoomFor(t, path) && i < |path| && path[..i] in t && path[..i + 1] !in t
    ensures |t[path[..i]]| < MAX_CHILD_NUM
  {
  }

  // How far a path goes in a tree, from its i-th element on.
  function LeavesAt(t: Tree, path: Path, i: nat): (k: nat)
    requires i <= |path|
    ensures i <= k <= |path|
    ensures k < |path| ==> path[..k + 1] !in t
    ensures forall j :: i < j <= k ==> path[..j] in t
    decreases |path| - i
  {
    if i == |path| || path[..i + 1] !in t then i else LeavesAt(t, path, i + 1)
  }

  lemma ShorterIn(t: Tree, h: nat, path: Path, k: nat, i: nat)
    requires Grown(t, h) && i <= k <= |path| && path[..k] in t
    ensures path[..i] in t
  {
    PrefixIn(t, h, path[..k], i);
    assert path[..k][..i] == path[..i];
  }

  // A path can be inserted exactly if the node where it leaves the tree has fewer than 16 children.
  lemma RoomExactly(t: Tree, h: nat, path: Path)
    requires Grown(t, h)
    ensures var k := LeavesAt(t, path, 0);
      path[..k] in t && (RoomFor(t, path) <==> path in t || |t[path[..k]]| < MAX_CHILD_NUM)
  {
    var k := LeavesAt(t, path, 0);
    assert path[..0] == [] && path[..|path|] == path;
    assert path[..k] in t;
    forall i | 0 <= i < |path| && path[..i] in t && path[..i + 1] !in t ensures i == k && path !in t {
      if i > k {
        ShorterIn(t, h, path, i, k + 1);
      }
      if path in t {
        ShorterIn(t, h, path, |path|, i + 1);
      }
    }
  }

  // A root with n children, named by as many zero bytes as stand before them.
  function Bush(n: nat): (t: Tree)
    ensures [] in t
  {
    if n == 0 then map[[] := []] else Added(Bush(n - 1), [], Name(n - 1, []))
  }

  lemma {:induction false} BushIs(n: nat)
    ensures Grown(Bush(n), n) && |Bush(n)[[]]| == n
    ensures forall k: nat :: [Name(k, [])] in Bush(n) <==> k < n
  {
    BushStep(n);
    hide *;
    if n > 0 {
      BushIs(n - 1);
      var t, x := Bush(n - 1), Name(n - 1, []);
      assert [] + [x] == [x];
      AddedGrown(t, n - 1, [], x);
      AddedToRoot(t, x);
      GrownDeeper(Bush(n), if n == 1 then 1 else n - 1, n);
    }
  }

  lemma BushStep(n: nat)
    ensures if n == 0 then Bush(0) == map[[] := []] && Grown(Bush(0), 0)
            else Bush(n) == Added(Bush(n - 1), [], Name(n - 1, []))
  {
  }

  lemma AddedToRoot(t: Tree, x: Name)
    requires [] in t && [x] !in t
    ensures [] in Added(t, [], x) && |Added(t, [], x)[[]]| == |t[[]]| + 1
    ensures forall p :: p in Added(t, [], x) <==> p in t || p == [x]
  {
    assert [] + [x] == [x];
  }

  lemma GrownDeeper(t: Tree, h: nat, k: nat)
    requires Grown(t, h) && h <= k
    ensures Grown(t, k)
  {
  }

  // After 16 children of the root there is no room for another.
  lemma SeventeenthChild(n: nat)
    ensures RoomFor(Bush(n), [Name(n, [])]) <==> n < 16
  {
    BushIs(n);
    var path := [Name(n, [])];
    assert path[..0] == [] && path[..1] == path;
  }

  // One of the nodes up to depth i on the way along a path.
  predicate OnPath(q: Path, path: Path, i: nat) {
    |q| <= i <= |path| && q == path[..|q|]
  }

  lemma OnPathMore(q: Path, path: Path, i: nat)
    requires i < |path|
    ensures OnPath(q, path, i + 1) <==> OnPath(q, path, i) || q == path[..i + 1]
  {
  }

  // The nodes up to depth i of the path are there now, the old ones are where they were.
  ghost predicate Grew(was: Model, m: Model, path: Path, i: nat) {
    && (forall q :: q in m.nodes <==> q in was.nodes || OnPath(q, path, i))
    && (forall q :: q in was.nodes ==> q in m.nodes && m.nodes[q] == was.nodes[q])
  }

  lemma GrewNone(m: Model, path: Path)
    requires [] in m.nodes
    ensures Grew(m, m, path, 0) && path[..0] == []
  {
  }

  lemma GrewStill(was: Model, m: Model, m1: Model, path: Path)
    requires Grew(was, m, path, |path|) && m1.nodes == m.nodes
    ensures Grew(was, m1, path, |path|)
  {
  }

  lemma EntryIsNode(m: Model, p: Path)
    requires Sound(m)
    ensures p in EntriesOf(m) ==> p in m.nodes
  {
  }

  lemma PrefixLost(m: Model, path: Path, i: nat)
    requires Sound(m) && i <= |path| && path[..i] !in m.nodes
    ensures path !in m.nodes
  {
    hide *;
    Keys(m);
    if path in m.tree {
      PrefixIn(m.tree, m.height, path, i);
    }
  }

  lemma PrefixNode(m: Model, path: Path, i: nat)
    requires Sound(m) && i < |path| && path[..i + 1] in m.nodes
    ensures path[..i] in m.nodes
  {
    hide *;
    Keys(m);
    PrefixIn(m.tree, m.height, path[..i + 1], i);
    assert path[..i + 1][..i] == path[..i];
  }

  lemma GrewFound(was: Model, m: Model, path: Path, i: nat)
    requires Grew(was, m, path, i) && i < |path| && path[..i + 1] in m.nodes
    ensures Grew(was, m, path, i + 1)
  {
    hide OnPath;
    forall q ensures OnPath(q, path, i + 1) <==> OnPath(q, path, i) || q == path[..i + 1] {
      OnPathMore(q, path, i);
    }
  }

  lemma GrewNew(was: Model, m: Model, path: Path, i: nat, child: TrieNode)
    requires Grew(was, m, path, i) && i < |path| && path[..i + 1] !in m.nodes
    requires path[..i] in m.tree && path[..i] in m.contents
    ensures Grew(was, WithNode(m, path[..i], path[i], child), path, i + 1)
  {
    assert path[..i] + [path[i]] == path[..i + 1];
    hide OnPath;
    forall q ensures OnPath(q, path, i + 1) <==> OnPath(q, path, i) || q == path[..i + 1] {
      OnPathMore(q, path, i);
    }
  }

  lemma RoomNew(m: Model, path: Path, i: nat, child: TrieNode)
    requires Sound(m) && RoomFor(m.tree, path) && i < |path| && path[..i + 1] !in m.tree
    requires path[..i] in m.tree && path[..i] in m.contents
    ensures RoomFor(WithNode(m, path[..i], path[i], child).tree, path)
  {
    hide Sound, Added;
    forall j | 0 <= j < |path|
      ensures var t1 := Added(m.tree, path[..i], path[i]);
        path[..j] in t1 && path[..j + 1] !in t1 ==> |t1[path[..j]]| < MAX_CHILD_NUM
    {
      RoomAt(m, path, i, j);
    }
  }

  lemma RoomAt(m: Model, path: Path, i: nat, j: nat)
    requires Sound(m) && RoomFor(m.tree, path) && i < |path| && path[..i + 1] !in m.tree && path[..i] in m.tree
    requires j < |path|
    ensures var t1 := Added(m.tree, path[..i], path[i]);
      path[..j] in t1 && path[..j + 1] !in t1 ==> |t1[path[..j]]| < MAX_CHILD_NUM
  {
    hide Sound, Grown;
    var p, q, t := path[..i], path[..i + 1], m.tree;
    assert p + [path[i]] == q;
    if i + 1 < j && path[..j] in t {
      Keys(m);
      PrefixIn(t, m.height, path[..j], i + 1);
      assert path[..j][..i + 1] == q;
    }
    assert i == j ==> path[..j + 1] == q;
    assert i + 1 == j ==> path[..j] == q;
  }

  // None of the first n children of p is called x.
  ghost predicate NoneBefore(t: Tree, p: Path, x: Name, n: nat) {
    p in t && n <= |t[p]| && forall j :: 0 <= j < n ==> t[p][j] != p + [x]
  }

  lemma NoneYet(t: Tree, p: Path, x: Name)
    requires p in t
    ensures NoneBefore(t, p, x, 0)
  {
  }

  lemma SlotIs(m: Model, p: Path, x: Name, i: nat)
    requires Sound(m) && p in m.nodes && p in m.tree && i < |m.tree[p]| && NoneBefore(m.tree, p, x, i)
    ensures p in m.contents && i < |m.contents[p].slots|
    ensures var child := m.contents[p].slots[i];
      if NameOf(child.data) == x then p + [x] in m.nodes && child == m.nodes[p + [x]]
      else NoneBefore(m.tree, p, x, i + 1)
  {
    NodeIs(m, p);
    var q := m.tree[p][i];
    NodeIs(m, q);
    hide Sound, NameOf, Grown, Fits;
    NamedAfter(m.tree, p, q, x);
  }

  lemma NamedAfter(t: Tree, p: Path, q: Path, x: Name)
    requires IsChild(t, p, q)
    ensures q != [] && (q[|q| - 1] == x <==> q == p + [x])
  {
    assert q == Parent(q) + [q[|q| - 1]];
  }

  lemma NoChild(t: Tree, h: nat, p: Path, x: Name)
    requires Grown(t, h) && p in t && NoneBefore(t, p, x, |t[p]|)
    ensures p + [x] !in t
  {
    assert Parent(p + [x]) == p;
  }

  // ---------------------------------------------------------------------------------------------
  // What the walks report

  lemma {:induction false} DataPathIs(m: Model, p: Path)
    requires Sound(m) && p in m.nodes
    ensures PathOf(DataPath(m.nodes, p)) == p
    decreases |p|
  {
    hide *;
    if p == [] {
      DataPathNone(m.nodes);
    } else {
      ParentIn(m, p);
      DataPathIs(m, Parent(p));
      DataPathLast(m.nodes, p);
      PathOfLast(DataPath(m.nodes, Parent(p)), m.nodes[p].data);
    }
  }

  lemma ParentIn(m: Model, p: Path)
    requires Sound(m) && p in m.nodes && p != []
    ensures Parent(p) in m.nodes && |Parent(p)| < |p| && p == Parent(p) + [NameOf(m.nodes[p].data)]
  {
    hide *;
    Keys(m);
    NodeIs(m, p);
    HasParent(m.tree, m.height, p);
    LastName(p);
  }

  lemma DataPathNone(nodes: map<Path, TrieNode>)
    ensures PathOf(DataPath(nodes, [])) == []
  {
  }

  lemma DataPathLast(nodes: map<Path, TrieNode>, p: Path)
    requires p != [] && p in nodes
    ensures DataPath(nodes, p) == DataPath(nodes, Parent(p)) + [nodes[p].data]
  {
  }

  lemma PathOfLast(d: seq<Key>, x: Key)
    ensures PathOf(d + [x]) == PathOf(d) + [NameOf(x)]
  {
  }

  // With a callback that never fails, trie_path_list reports every inserted pattern but the empty one
  // exactly once, as the elements on the way to its node.
  lemma ListComplete(m: Model)
    requires Sound(m)
    ensures var made := Labels(ListOrder(m), Patterns(m));
      && NoDuplicates(made)
      && forall x :: x in made <==> exists p :: p in EntriesOf(m) && p != [] && x == DataPath(m.nodes, p)
    ensures forall p :: p in EntriesOf(m) ==> PathOf(DataPath(m.nodes, p)) == p
  {
    hide *;
    var order, labels := ListOrder(m), Patterns(m);
    ListOnce(m);
    forall p | p in EntriesOf(m) ensures PathOf(DataPath(m.nodes, p)) == p {
      EntryIsNode(m, p);
      DataPathIs(m, p);
    }
    forall p ensures p in labels <==> p in EntriesOf(m) {
      PatternAt(m, p);
    }
    forall p | p in labels ensures labels[p] == DataPath(m.nodes, p) && p in m.nodes {
      PatternAt(m, p);
      EntryIsNode(m, p);
    }
    LabelsOnce(order, labels);
    forall x ensures x in Labels(order, labels) <==> exists p :: p in EntriesOf(m) && p != [] && x == DataPath(m.nodes, p) {
      if p :| p in EntriesOf(m) && p != [] && x == DataPath(m.nodes, p) {
        assert p in order && p in labels && labels[p] == x;
      }
    }
  }

  lemma ListOnce(m: Model)
    requires Sound(m)
    ensures NoDuplicates(ListOrder(m)) && |ListOrder(m)| == |m.tree| - 1
    ensures forall p :: p in ListOrder(m) <==> p in m.nodes && p != []
  {
    hide *;
    Keys(m);
    OrdersAre(m);
    OrdersComplete(m.tree, m.height);
    OnceEach(ListOrder(m), m.tree.Keys - {[]});
  }
}
