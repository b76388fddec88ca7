/**
 The trie of `trie.c`. A TrieRoot keeps, beside its nodes, a model of them (see TrieModels); `Entries`
 is what has been inserted: a table from paths to callbacks.
 */
module Trie {
  import opened TriePaths
  import opened TrieModels
  import opened Stacks

  class TrieRoot {
    const root: TrieNode
    var totalNodeNum: nat
    ghost var model: Model

    ghost predicate Valid()
      reads this, model.nodes.Values
    {
      && Sound(model) && Backed(model)
      && [] in model.nodes && model.nodes[[]] == root && totalNodeNum + 1 == |model.tree|
    }

    ghost function Entries(): map<Path, int>
      reads this`model
    {
      EntriesOf(model)
    }

    // A path can be inserted if the node that needs a new child has a free slot.
    ghost predicate HasRoom(path: Path)
      reads this`model
    {
      RoomFor(model.tree, path)
    }

    // trie_init
    constructor ()
      ensures Valid() && Entries() == map[] && totalNodeNum == 0
      ensures forall p :: p in model.nodes ==> fresh(model.nodes[p])
    {
      var n := new TrieNode(0, [], []);
      root, totalNodeNum := n, 0;
      model := Model(map[[] := n], map[[] := Content([], false, 0)], map[[] := []], 0);
    }

    // trie_new_node for the node of p, and the count its callers keep
    method NewNode(search: TrieNode, key: Key, ghost p: Path) returns (child: TrieNode)
      requires Valid() && p in model.nodes && p in model.tree && p in model.contents && model.nodes[p] == search
      requires p + [NameOf(key)] !in model.tree && |model.tree[p]| < MAX_CHILD_NUM
      modifies this, search`node
      ensures fresh(child) && model == WithNode(old(model), p, NameOf(key), child)
      ensures Entries() == old(Entries())
      ensures Valid()
    {
      hide Sound, Backed, WithNode, EntriesOf, NameOf;
      child := GrowAt(search, key, model, p);
      totalNodeNum := totalNodeNum + 1;
      model := WithNode(model, p, NameOf(key), child);
    }

    // The scan of a node's slots: the child with this name, if there is one.
    method Child(search: TrieNode, key: Key, ghost p: Path) returns (found: bool, next: TrieNode)
      requires Valid() && p in model.nodes && model.nodes[p] == search
      ensures p in model.tree && (found <==> p + [NameOf(key)] in model.nodes)
      ensures if found then next == model.nodes[p + [NameOf(key)]] else next == search
    {
      hide *;
      ValidFacts();
      NodeIs(model, p);
      NodeHolds(model, p);
      search.HoldsFacts(model.contents[p]);
      ghost var x := NameOf(key);
      NoneYet(model.tree, p, x);
      next := search;
      var num := search.NodeNum();
      for i := 0 to num
        invariant NoneBefore(model.tree, p, x, i)
      {
        var child := search.Slot(i);
        SlotIs(model, p, x, i);
        StrcmpIsName(key, child.data);
        if TrieStrcmp(key, child.data) {
          return true, child;
        }
      }
      NoChild(model.tree, model.height, p, x);
      return false, next;
    }

    lemma ValidFacts()
      requires Valid()
      ensures Sound(model) && Backed(model) && model.tree.Keys == model.nodes.Keys == model.contents.Keys
      ensures [] in model.nodes && model.nodes[[]] == root && totalNodeNum + 1 == |model.tree|
      ensures Grown(model.tree, model.height)
    {
    }

    // trie_insert
    method Insert(pattern: seq<Key>, func: int) returns (ret: int)
      requires Valid() && HasRoom(PathOf(pattern))
      modifies this, model.nodes.Values
      ensures ret == if PathOf(pattern) in old(Entries()) then -1 else 0
      ensures Entries() == if ret == 0 then old(Entries())[PathOf(pattern) := func] else old(Entries())
      ensures Grew(old(model), model, PathOf(pattern), |pattern|)
      ensures ret != 0 ==> model == old(model) && totalNodeNum == old(totalNodeNum)
      ensures forall q :: q in model.nodes && q !in old(model.nodes) ==> fresh(model.nodes[q])
      ensures Valid()
    {
      hide *;
      ValidFacts();
      RoomIs(PathOf(pattern));
      EntriesAre();
      ghost var path, was := PathOf(pattern), model;
      GrewNone(was, path);
      var search := root;
      for i := 0 to |pattern|
        invariant Valid() && path[..i] in model.nodes && search == model.nodes[path[..i]]
        invariant Entries() == old(Entries()) && RoomFor(model.tree, path)
        invariant Grew(was, model, path, i)
        invariant path[..i] in was.nodes ==> model == was && totalNodeNum == old(totalNodeNum)
        invariant search in was.nodes.Values || fresh(search)
        invariant forall q :: q in model.nodes && q !in was.nodes ==> fresh(model.nodes[q])
      {
        if path[..i + 1] in was.nodes {
          PrefixNode(was, path, i);
        }
        search := Descend(search, pattern[i], path, i, was);
      }
      assert path[..|path|] == path;
      ghost var grown := model;
      EntriesAre();
      EntryIsNode(was, path);
      ret := EndAt(search, func, path);
      GrewStill(was, grown, model, path);
    }

    method EndAt(search: TrieNode, func: int, ghost path: Path) returns (ret: int)
      requires Valid() && path in model.nodes && search == model.nodes[path]
      modifies this`model, search
      ensures ret == if path in old(Entries()) then -1 else 0
      ensures Entries() == if ret == 0 then old(Entries())[path := func] else old(Entries())
      ensures model.nodes == old(model).nodes && (ret != 0 ==> model == old(model))
      ensures Valid()
    {
      hide *;
      ValidFacts();
      NodeIs(model, path);
      NodeHolds(model, path);
      ghost var c := model.contents[path];
      search.HoldsFacts(c);
      EntriesAre();
      TailIs(model, path);
      if search.tailFlag {
        return -1;
      }
      OthersApart(model, path);
      search.Mark(func, c);
      WithTailBacked(model, path, func);
      WithTailSound(model, path, func);
      WithTailEntries(model, path, func);
      WithTailNodes(model, path, func);
      model := WithTail(model, path, func);
      EntriesAre();
      ValidFrom();
      return 0;
    }

    lemma EntriesAre()
      ensures Entries() == EntriesOf(model)
    {
    }

    lemma ValidFrom()
      requires Sound(model) && Backed(model)
      requires [] in model.nodes && model.nodes[[]] == root && totalNodeNum + 1 == |model.tree|
      ensures Valid()
    {
    }

    method Descend(search: TrieNode, key: Key, ghost path: Path, ghost i: nat, ghost was: Model) returns (next: TrieNode)
      requires Valid() && i < |path| && path[i] == NameOf(key)
      requires path[..i] in model.nodes && search == model.nodes[path[..i]]
      requires RoomFor(model.tree, path) && Grew(was, model, path, i)
      modifies this, search`node
      ensures Entries() == old(Entries()) && RoomFor(model.tree, path)
      ensures Grew(was, model, path, i + 1)
      ensures path[..i + 1] in model.nodes && next == model.nodes[path[..i + 1]]
      ensures if path[..i + 1] in old(model).nodes then model == old(model) && totalNodeNum == old(totalNodeNum)
              else fresh(next) && model.nodes == old(model).nodes[path[..i + 1] := next]
      ensures Valid()
    {
      hide *;
      ghost var p, m := path[..i], model;
      assert path[..i + 1] == p + [path[i]];
      ValidFacts();
      NodeIs(m, p);
      NodeHolds(m, p);
      search.HoldsFacts(m.contents[p]);
      var num := search.NodeNum();
      if num == 0 {
        NoneYet(m.tree, p, path[i]);
        NoChild(m.tree, m.height, p, path[i]);
        next := Extend(search, key, path, i, was);
        return;
      }
      var found;
      found, next := Child(search, key, p);
      if found {
        GrewFound(was, m, path, i);
      } else {
        next := Extend(search, key, path, i, was);
      }
    }

    method Extend(search: TrieNode, key: Key, ghost path: Path, ghost i: nat, ghost was: Model) returns (next: TrieNode)
      requires Valid() && i < |path| && path[i] == NameOf(key)
      requires path[..i] in model.nodes && search == model.nodes[path[..i]] && path[..i + 1] !in model.nodes
      requires RoomFor(model.tree, path) && Grew(was, model, path, i)
      modifies this, search`node
      ensures Entries() == old(Entries()) && RoomFor(model.tree, path)
      ensures Grew(was, model, path, i + 1)
      ensures path[..i + 1] in model.nodes && next == model.nodes[path[..i + 1]]
      ensures fresh(next) && model.nodes == old(model).nodes[path[..i + 1] := next]
      ensures Valid()
    {
      hide *;
      ghost var p, m := path[..i], model;
      assert path[..i + 1] == p + [path[i]];
      ValidFacts();
      RoomHere(m.tree, path, i);
      next := NewNode(search, key, p);
      GrewNew(was, m, path, i, next);
      RoomNew(m, path, i, next);
      NodesWith(m, p, path[i], next);
    }

    lemma RoomIs(path: Path)
      ensures HasRoom(path) <==> RoomFor(model.tree, path)
    {
    }

    // tire_found
    method Found(pattern: seq<Key>) returns (n: TrieNode?)
      requires Valid()
      ensures n != null <==> PathOf(pattern) in Entries()
      ensures n != null ==> PathOf(pattern) in model.nodes && n == model.nodes[PathOf(pattern)]
      ensures n != null ==> n.func == Entries()[PathOf(pattern)]
    {
      hide *;
      ValidFacts();
      EntriesAre();
      ghost var path := PathOf(pattern);
      EntryIsNode(model, path);
      assert path[..0] == [];
      var search := root;
      for i := 0 to |pattern|
        invariant path[..i] in model.nodes && search == model.nodes[path[..i]]
      {
        var next := Lookup(search, pattern[i], path, i);
        if next == null {
          return null;
        }
        search := next;
      }
      assert path[..|path|] == path;
      NodeIs(model, path);
      NodeHolds(model, path);
      search.HoldsFacts(model.contents[path]);
      TailIs(model, path);
      if !search.tailFlag {
        return null;
      }
      return search;
    }

    method Lookup(search: TrieNode, key: Key, ghost path: Path, ghost i: nat) returns (next: TrieNode?)
      requires Valid() && i < |path| && path[i] == NameOf(key)
      requires path[..i] in model.nodes && search == model.nodes[path[..i]]
      ensures if next == null then path !in model.nodes
              else path[..i + 1] in model.nodes && next == model.nodes[path[..i + 1]]
    {
      hide *;
      ghost var p := path[..i];
      assert path[..i + 1] == p + [path[i]];
      ValidFacts();
      NodeIs(model, p);
      NodeHolds(model, p);
      search.HoldsFacts(model.contents[p]);
      if path[..i + 1] !in model.nodes {
        PrefixLost(model, path, i + 1);
      }
      var num := search.NodeNum();
      if num == 0 {
        NoneYet(model.tree, p, path[i]);
        NoChild(model.tree, model.height, p, path[i]);
        return null;
      }
      var found, child := Child(search, key, p);
      if !found {
        return null;
      }
      return child;
    }

    // -------------------------------------------------------------------------------------------
    // The walks

    // Each walk starts with a stack of the root's children. It has a slot for every other node.
    method Start() returns (stack: SpStack<TrieNode?>)
      requires Valid()
      ensures fresh(stack) && fresh(stack.addr) && stack.Valid() && stack.offset == LINK_SIZE
      ensures stack.total == totalNodeNum
      ensures [] in model.tree && OnStack(model, model.tree[[]], stack.Elements())
      ensures Valid()
    {
      hide *;
      ValidFacts();
      NodeIs(model, []);
      NodeHolds(model, []);
      root.HoldsFacts(model.contents[[]]);
      RootCapacity(model.tree, model.height);
      stack := new SpStack<TrieNode?>(totalNodeNum, LINK_SIZE, null);
      NothingOnStack(model);
      PushAll(stack, root, [], []);
      OnStackAlone(model, model.tree[[]], stack.Elements());
    }

    // Putting all the children of a node on the stack.
    method PushAll(stack: SpStack<TrieNode?>, node: TrieNode, ghost below: seq<Path>, ghost p: Path)
      requires Sound(model) && p in model.nodes && node == model.nodes[p] && p in model.tree && p in model.contents
      requires node.Holds(model.contents[p])
      requires stack.Valid() && stack.offset == LINK_SIZE && OnStack(model, below, stack.Elements())
      requires |below| + |model.tree[p]| <= stack.total
      modifies stack, stack.addr
      ensures stack.Valid() && OnStack(model, below + model.tree[p], stack.Elements())
    {
      hide *;
      NodeIs(model, p);
      ghost var kids, c := model.tree[p], model.contents[p];
      node.HoldsFacts(c);
      var num := node.NodeNum();
      assert below + kids[..0] == below && below + kids[..num] == below + kids;
      for i := 0 to num
        invariant stack.Valid() && node.Holds(c) && OnStack(model, below + kids[..i], stack.Elements())
      {
        node.HoldsFacts(c);
        var child := node.Slot(i);
        PushOnStack(model, below, kids, i, stack.Elements(), child);
        var pushed := stack.Enstack(child, LINK_SIZE);
      }
    }

    // The part the loops share: the top node is taken and its children are put there.
    method Expand(stack: SpStack<TrieNode?>, stale: TrieNode?, ghost paths: seq<Path>, ghost left: seq<Path>)
      returns (ret: int, node: TrieNode?, ghost p: Path, ghost rest: seq<Path>)
      requires Sound(model) && stack.Valid() && stack.offset == LINK_SIZE && stack.total + 1 == |model.tree|
      requires Pending(model, paths, left, stack.Elements())
      requires Kept(model, left)
      modifies stack, stack.addr
      ensures stack.Valid()
      ensures if ret != 0 then left == WalkOrder(model)
        else
          && p in model.nodes && p in model.contents && p !in left && p != [] && node == model.nodes[p]
          && node.Holds(model.contents[p])
          && Pending(model, rest, left + [p], stack.Elements()) && |left| + 1 < |model.tree|
    {
      hide *;
      Keys(model);
      PendingFacts(model, paths, left, stack.Elements());
      ret, node := stack.Destack(stale, LINK_SIZE);
      p, rest := [], [];
      if ret != 0 {
        return;
      }
      ghost var below := paths[..|paths| - 1];
      p := paths[|paths| - 1];
      assert paths == below + [p];
      PopOnStack(model, below, p, stack.Elements(), node);
      NodeIs(model, p);
      PendingNext(model, below, p, left);
      KeptAt(model, left, p);
      rest := below + model.tree[p];
      node.HoldsFacts(model.contents[p]);
      var num := node.NodeNum();
      if num != 0 {
        PushAll(stack, node, below, p);
      } else {
        assert rest == below;
      }
      StillPending(model, below, p, left, stack.Elements());
    }

    // trie_each_entry_accord_hierarchy: every node but the root is reported, up to the first bad answer.
    // OrdersComplete says that the order has each of them once.
    method EachEntry(func: Handler<Key>) returns (ret: int, reported: seq<Key>)
      requires Valid()
      ensures Sound(model) && CutShort(reported, Labels(WalkOrder(model), Elements(model)), func, ret)
      ensures Valid()
    {
      hide *;
      ghost var labels := Elements(model);
      var stack := Start();
      ValidFacts();
      ghost var paths, left := StartPending(model, stack.Elements());
      GoingStart(labels, func);
      var node: TrieNode? := null;
      reported := [];
      while true
        invariant stack.Valid() && stack.offset == LINK_SIZE && stack.total == totalNodeNum
        invariant fresh(stack) && fresh(stack.addr) && Valid()
        invariant Pending(model, paths, left, stack.Elements()) && Going(reported, left, labels, func)
        decreases |model.tree| - |left|
      {
        ghost var p, rest, before := [], [], left;
        var got;
        ValidFacts();
        ValidKept(model, left);
        got, node, p, rest := Expand(stack, node, paths, left);
        if got != 0 {
          break;
        }
        ElementsAt(model, p);
        paths, left := rest, left + [p];
        if func.NoHandler? {
          GoingSkip(reported, before, labels, func, p);
          continue;
        }
        if func.answer(reported + [node.data]) < 0 {
          PendingCut(model, paths, left, stack.Elements(), reported, before, labels, func, p);
          return -1, reported + [node.data];
        }
        GoingCall(reported, before, labels, func, p);
        reported := reported + [node.data];
      }
      GoingEnd(reported, left, labels, func);
      return 0, reported;
    }

    // trie_path_entry: the same for the nodes that end a pattern.
    method PathEntry(func: Handler<Key>) returns (ret: int, reported: seq<Key>)
      requires Valid()
      ensures Sound(model) && CutShort(reported, Labels(WalkOrder(model), Ends(model)), func, ret)
      ensures Valid()
    {
      hide *;
      ghost var labels := Ends(model);
      var stack := Start();
      ValidFacts();
      ghost var paths, left := StartPending(model, stack.Elements());
      GoingStart(labels, func);
      var node: TrieNode? := null;
      reported := [];
      while true
        invariant stack.Valid() && stack.offset == LINK_SIZE && stack.total == totalNodeNum
        invariant fresh(stack) && fresh(stack.addr) && Valid()
        invariant Pending(model, paths, left, stack.Elements()) && Going(reported, left, labels, func)
        decreases |model.tree| - |left|
      {
        ghost var p, rest, before := [], [], left;
        var got;
        ValidFacts();
        ValidKept(model, left);
        got, node, p, rest := Expand(stack, node, paths, left);
        if got != 0 {
          break;
        }
        EndsAt(model, p);
        paths, left := rest, left + [p];
        if !node.tailFlag {
          GoingSkip(reported, before, labels, func, p);
          continue;
        }
        if func.Handler? {
          if func.answer(reported + [node.data]) < 0 {
            PendingCut(model, paths, left, stack.Elements(), reported, before, labels, func, p);
            return -1, reported + [node.data];
          }
          GoingCall(reported, before, labels, func, p);
          reported := reported + [node.data];
        } else {
          GoingSkip(reported, before, labels, func, p);
        }
      }
      GoingEnd(reported, left, labels, func);
      return 0, reported;
    }

    // trie_uinit: every node is given back, none twice and none before it is looked at for the last
    // time, which the conditions on NodeNum, Slot and Free say.
    method Uninit()
      requires Valid()
      modifies model.nodes.Values`freed
      ensures forall q :: q in model.nodes ==> model.nodes[q].freed
    {
      hide *;
      ValidFacts();
      var stack := Start();
      ghost var paths, left := StartPending(model, stack.Elements());
      NoneFreed(model);
      var node: TrieNode? := null;
      while true
        invariant stack.Valid() && stack.offset == LINK_SIZE && stack.total == totalNodeNum
        invariant fresh(stack) && fresh(stack.addr)
        invariant Pending(model, paths, left, stack.Elements()) && Freed(model, left)
        decreases |model.tree| - |left|
      {
        ghost var p, rest;
        var got;
        FreedKept(model, left);
        got, node, p, rest := Expand(stack, node, paths, left);
        if got != 0 {
          break;
        }
        Release(node, p, left);
        paths, left := rest, left + [p];
      }
      WalkOnce(model);
      Release(root, [], left);
      FreedAll(model, left);
    }

    method Release(node: TrieNode, ghost p: Path, ghost left: seq<Path>)
      requires Sound(model) && Freed(model, left) && p in model.nodes && node == model.nodes[p] && p !in left
      modifies node`freed
      ensures Freed(model, left + [p])
    {
      hide *;
      Distinct(model);
      FreedFacts(model, left);
      node.HoldsFacts(model.contents[p]);
      node.Free();
      FreedMore(model, left, p);
    }

    // trie_path_list. `childData` spells the path to the node on top of the stack, and `childIndex` counts
    // the children that have been taken at each depth; they have room for paths of 15 elements. Both
    // arrays are local to the loop, so they are kept as values here.
    method PathList(func: Handler<seq<Key>>) returns (ret: int, reported: seq<seq<Key>>)
      requires Valid() && Shallow(model)
      ensures Sound(model) && CutShort(reported, Labels(ListOrder(model), Patterns(model)), func, ret)
      ensures Valid()
    {
      hide *;
      ghost var labels := Patterns(model);
      var stack := Start();
      ValidFacts();
      var node: TrieNode? := null;
      var childData, childIndex := Blank().0, Blank().1;
      ghost var s, left := StartSpot(model, stack.Elements(), childIndex, childData);
      GoingStart(labels, func);
      reported := [];
      while true
        invariant stack.Valid() && stack.offset == LINK_SIZE && stack.total == totalNodeNum
        invariant fresh(stack) && fresh(stack.addr) && Valid()
        invariant At(model, stack.Elements(), childIndex, childData, s, left)
        invariant |left| < |model.tree| && |s.p| < MAX_CHILD_DEPTH && Going(reported, left, labels, func)
        decreases |model.tree| - |left|, MAX_CHILD_DEPTH - |s.p|
      {
        ghost var before := left;
        ghost var p;
        var got, popped, tail, depth;
        got, node, popped, tail, depth, childData, childIndex, p, s, left := Turn(stack, node, childData, childIndex, s, left);
        if got != 0 {
          break;
        }
        if !popped {
          continue;
        }
        PatternAt(model, p);
        if !tail || func.NoHandler? {
          GoingSkip(reported, before, labels, func, p);
          continue;
        }
        if func.answer(reported + [childData[..depth]]) < 0 {
          AtFacts(model, stack.Elements(), childIndex, childData, s, left);
          AtCut(model, s, left, reported, before, labels, func, p);
          return -1, reported + [childData[..depth]];
        }
        GoingCall(reported, before, labels, func, p);
        reported := reported + [childData[..depth]];
      }
      GoingEnd(reported, left, labels, func);
      return 0, reported;
    }

    // One turn of the loop up to the callback.
    method Turn(stack: SpStack<TrieNode?>, stale: TrieNode?, childData0: seq<Key>, childIndex0: seq<nat>,
                ghost s0: Spot, ghost left: seq<Path>)
      returns (got: int, node: TrieNode?, popped: bool, tail: bool, depth: nat, childData: seq<Key>, childIndex: seq<nat>,
               ghost p: Path, ghost next: Spot, ghost left1: seq<Path>)
      requires Valid() && stack.Valid() && stack.offset == LINK_SIZE && stack.total == totalNodeNum
      requires At(model, stack.Elements(), childIndex0, childData0, s0, left) && |left| < |model.tree|
      modifies stack, stack.addr
      ensures stack.Valid() && At(model, stack.Elements(), childIndex, childData, next, left1)
      ensures |left1| < |model.tree| && |next.p| < MAX_CHILD_DEPTH
      ensures if got != 0 then left1 == left == ListOrder(model)
        else if !popped then left1 == left && |next.p| > |s0.p|
        else
          && left1 == left + [p] && (tail <==> p in EntriesOf(model))
          && depth <= |childData| && childData[..depth] == DataPath(model.nodes, p)
    {
      hide *;
      popped, tail, depth, childData, childIndex, p, left1 := false, false, 0, childData0, childIndex0, [], left;
      ghost var s := s0;
      AtFacts(model, stack.Elements(), childIndex, childData, s, left);
      if s.p == [] && 0 < s.k {
        s := AtTop(model, stack.Elements(), childIndex, childData, s, left);
        AtFacts(model, stack.Elements(), childIndex, childData, s, left);
      }
      next := s;
      got, node := stack.Top(stale, LINK_SIZE);
      if got != 0 {
        AtEnd(model, stack.Elements(), childIndex, childData, s, left);
        return;
      }
      p := s.p;
      AtNode(model, stack.Elements(), childIndex, childData, s, left);
      ValidFacts();
      NodeHolds(model, p);
      NodeIs(model, p);
      node.HoldsFacts(model.contents[p]);
      TailIs(model, p);
      tail, depth := node.tailFlag, node.depth;
      popped, childData, childIndex, next, left1 := Step(stack, node, childData, childIndex, s, left);
    }

    // The turn for the node on top: its next child is put on the stack, or the node is left.
    method Step(stack: SpStack<TrieNode?>, node: TrieNode, childData0: seq<Key>, childIndex0: seq<nat>,
                ghost s: Spot, ghost left: seq<Path>)
      returns (popped: bool, childData: seq<Key>, childIndex: seq<nat>, ghost next: Spot, ghost left1: seq<Path>)
      requires stack.Valid() && stack.offset == LINK_SIZE && stack.total + 1 == |model.tree|
      requires At(model, stack.Elements(), childIndex0, childData0, s, left)
      requires s.p != [] && s.p in model.nodes && node == model.nodes[s.p]
      requires s.p in model.contents && node.Holds(model.contents[s.p])
      modifies stack, stack.addr
      ensures stack.Valid() && At(model, stack.Elements(), childIndex, childData, next, left1)
      ensures |left1| < |model.tree| && |next.p| < MAX_CHILD_DEPTH
      ensures if !popped then left1 == left && |next.p| > |s.p|
              else left1 == left + [s.p] && |s.p| <= |childData| && childData[..|s.p|] == DataPath(model.nodes, s.p)
    {
      hide *;
      ghost var st := stack.Elements();
      AtFacts(model, st, childIndex0, childData0, s, left);
      AtNode(model, st, childIndex0, childData0, s, left);
      NodeIs(model, s.p);
      node.HoldsFacts(model.contents[s.p]);
      RoomLeft(model, s, left);
      var depth := node.depth;
      childData := childData0[depth - 1 := node.data];
      var idx := childIndex0[depth];
      childIndex := childIndex0[depth := idx + 1];
      left1 := left;
      var num := node.NodeNum();
      popped := !(num != 0 && idx < num);
      if !popped {
        var child := node.Slot(idx);
        next := AtDown(model, st, childIndex0, childData0, s, left, child);
        var pushed := stack.Enstack(child, LINK_SIZE);
      } else {
        var got, same := stack.Destack(node, LINK_SIZE);
        childIndex := childIndex[depth := 0];
        assert childIndex == childIndex0[depth := 0];
        next, left1 := AtUp(model, st, childIndex0, childData0, s, left, stack.Elements(), node);
      }
    }
  }
}
