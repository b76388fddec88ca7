/**
 What the trie of `trie.c` stands for. A node is the path that leads to it, and the trie is a table
 from each path to the paths of its children, in the order of the node's slots.
 */
module TriePaths {

  // The bytes of one pattern element.
  type Key = seq<bv8>

  // Two elements are the same to trie_strcmp if they have the same length and the same text up to the
  // first zero byte.
  datatype Name = Name(size: nat, text: Key)

  type Path = seq<Name>

  function TextOf(a: Key): Key {
    if a == [] || a[0] == 0 then [] else [a[0]] + TextOf(a[1..])
  }

  function NameOf(a: Key): Name {
    Name(|a|, TextOf(a))
  }

  function PathOf(pattern: seq<Key>): (p: Path)
    ensures |p| == |pattern| && forall i :: 0 <= i < |p| ==> p[i] == NameOf(pattern[i])
  {
    seq(|pattern|, i requires 0 <= i < |pattern| => NameOf(pattern[i]))
  }

  // !strncmp(a, b, n) from position i on
  predicate StrnEqual(a: Key, b: Key, i: nat)
    requires i <= |a| == |b|
    decreases |a| - i
  {
    i == |a| || (a[i] == b[i] && (a[i] == 0 || StrnEqual(a, b, i + 1)))
  }

  predicate TrieStrcmp(a: Key, b: Key) {
    |a| == |b| && StrnEqual(a, b, 0)
  }

  lemma ConsEqual(x: bv8, s: Key, y: bv8, t: Key)
    ensures [x] + s == [y] + t <==> x == y && s == t
  {
    if [x] + s == [y] + t {
      assert ([x] + s)[0] == x && ([y] + t)[0] == y;
      assert ([x] + s)[1..] == s && ([y] + t)[1..] == t;
    }
  }

  lemma {:induction false} StrnEqualIsText(a: Key, b: Key, i: nat)
    requires i <= |a| == |b|
    ensures StrnEqual(a, b, i) <==> TextOf(a[i..]) == TextOf(b[i..])
    decreases |a| - i
  {
    if i < |a| {
      StrnEqualIsText(a, b, i + 1);
      var x, y := a[i..], b[i..];
      assert x[0] == a[i] && y[0] == b[i] && x[1..] == a[i + 1..] && y[1..] == b[i + 1..];
      if x[0] != 0 && y[0] != 0 {
        ConsEqual(x[0], TextOf(x[1..]), y[0], TextOf(y[1..]));
      }
    }
  }

  // trie_strcmp compares names, so it is an equivalence.
  lemma StrcmpIsName(a: Key, b: Key)
    ensures TrieStrcmp(a, b) <==> NameOf(a) == NameOf(b)
  {
    if |a| == |b| {
      StrnEqualIsText(a, b, 0);
      assert a[0..] == a && b[0..] == b;
    }
  }

  // ---------------------------------------------------------------------------------------------
  // The shape

  type Tree = map<Path, seq<Path>>

  function Parent(p: Path): Path
    requires p != []
  {
    p[..|p| - 1]
  }

  // Every path but the empty one is once among the children of its parent, and nothing is deeper than h.
  ghost predicate Grown(t: Tree, h: nat) {
    && [] in t
    && (forall p :: p in t ==> |p| <= h)
    && (forall p, i :: p in t && 0 <= i < |t[p]| ==> IsChild(t, p, t[p][i]))
    && (forall p, i, j :: p in t && 0 <= i < j < |t[p]| ==> t[p][i] != t[p][j])
    && (forall p :: p in t && p != [] ==> Parent(p) in t && p in t[Parent(p)])
  }

  predicate IsChild(t: Tree, p: Path, q: Path) {
    q in t && q != [] && Parent(q) == p
  }

  // A new child of p, in its last slot.
  function Added(t: Tree, p: Path, x: Name): Tree
    requires p in t
  {
    t[p := t[p] + [p + [x]]][p + [x] := []]
  }

  lemma AddedGrown(t: Tree, h: nat, p: Path, x: Name)
    requires Grown(t, h) && p in t && p + [x] !in t
    ensures Grown(Added(t, p, x), if h <= |p| then |p| + 1 else h)
    ensures |Added(t, p, x)| == |t| + 1
  {
    var q, u, g := p + [x], Added(t, p, x), if h <= |p| then |p| + 1 else h;
    assert u.Keys == t.Keys + {q};
    forall r | r in u ensures GrownAt(u, g, r) {
      if r in t {
        GrownHas(t, h, r);
        AddedAt(t, h, p, x, r);
      } else {
        assert Parent(q) == p;
        assert u[p][|t[p]|] == q;
      }
    }
    GrownFrom(u, g);
  }

  // What being grown says about one node.
  ghost predicate GrownAt(t: Tree, h: nat, p: Path)
    requires p in t
  {
    && |p| <= h
    && (forall i :: 0 <= i < |t[p]| ==> IsChild(t, p, t[p][i]))
    && (forall i, j :: 0 <= i < j < |t[p]| ==> t[p][i] != t[p][j])
    && (p != [] ==> Parent(p) in t && p in t[Parent(p)])
  }

  lemma GrownHas(t: Tree, h: nat, p: Path)
    requires Grown(t, h) && p in t
    ensures GrownAt(t, h, p)
  {
  }

  lemma HasParent(t: Tree, h: nat, p: Path)
    requires Grown(t, h) && p in t && p != []
    ensures Parent(p) in t && |Parent(p)| < |p|
  {
  }

  lemma LastName(p: Path)
    requires p != []
    ensures p == Parent(p) + [p[|p| - 1]]
  {
  }

  lemma GrownFrom(t: Tree, h: nat)
    requires [] in t && forall p :: p in t ==> GrownAt(t, h, p)
    ensures Grown(t, h)
  {
    forall p, i | p in t && 0 <= i < |t[p]| ensures IsChild(t, p, t[p][i]) {
      assert GrownAt(t, h, p);
    }
    forall p, i, j | p in t && 0 <= i < j < |t[p]| ensures t[p][i] != t[p][j] {
      assert GrownAt(t, h, p);
    }
  }

  lemma AddedAt(t: Tree, h: nat, p: Path, x: Name, r: Path)
    requires p in t && p + [x] !in t && r in t && GrownAt(t, h, r)
    ensures GrownAt(Added(t, p, x), if h <= |p| then |p| + 1 else h, r)
  {
    var q, u := p + [x], Added(t, p, x);
    assert Parent(q) == p;
    if r == p {
      assert u[r] == t[r] + [q];
      forall i | 0 <= i < |t[r]| ensures u[r][i] == t[r][i] && IsChild(u, r, u[r][i]) {
        assert IsChild(t, r, t[r][i]);
      }
    } else {
      forall i | 0 <= i < |u[r]| ensures IsChild(u, r, u[r][i]) {
        assert IsChild(t, r, t[r][i]);
      }
    }
    if r != [] && Parent(r) == p {
      assert r in t[p] + [q];
    }
  }

  // p leads to q, or is q.
  predicate Under(p: Path, q: Path) {
    p <= q
  }

  // The subtree of p in the order in which trie_path_list leaves its nodes: children first, in the order
  // of their slots, from slot k on; then p.
  ghost function Rest(t: Tree, h: nat, p: Path, k: nat): seq<Path>
    requires Grown(t, h) && p in t && k <= |t[p]|
    decreases h - |p|, |t[p]| - k
  {
    if k == |t[p]| then [p]
    else
      assert IsChild(t, p, t[p][k]);
      Rest(t, h, t[p][k], 0) + Rest(t, h, p, k + 1)
  }

  predicate NoDuplicates<A(==)>(s: seq<A>) {
    forall i, j :: 0 <= i < j < |s| ==> s[i] != s[j]
  }

  // From slot k of p on, what lies under a child, and p itself.
  ghost predicate Covers(t: Tree, p: Path, k: nat, q: Path)
    requires p in t && k <= |t[p]|
  {
    q in t && (q == p || exists j :: k <= j < |t[p]| && Under(t[p][j], q))
  }

  lemma {:induction false} RestCovers(t: Tree, h: nat, p: Path, k: nat)
    requires Grown(t, h) && p in t && k <= |t[p]|
    ensures forall q :: q in Rest(t, h, p, k) <==> Covers(t, p, k, q)
    ensures NoDuplicates(Rest(t, h, p, k))
    decreases h - |p|, |t[p]| - k
  {
    if k == |t[p]| {
      LastCovers(t, h, p);
    } else {
      var c := t[p][k];
      ChildIs(t, h, p, k);
      RestStep(t, h, p, k);
      RestCovers(t, h, c, 0);
      RestCovers(t, h, p, k + 1);
      hide *;
      var first, second := Rest(t, h, c, 0), Rest(t, h, p, k + 1);
      forall q
        ensures q in first <==> q in t && Under(c, q)
        ensures q in first ==> q !in second
        ensures q in first || q in second <==> Covers(t, p, k, q)
      {
        CoversAll(t, h, c, q);
        CoversStep(t, h, p, k, q);
      }
      JoinDistinct(first, second);
    }
  }

  lemma LastCovers(t: Tree, h: nat, p: Path)
    requires Grown(t, h) && p in t
    ensures forall q :: q in Rest(t, h, p, |t[p]|) <==> Covers(t, p, |t[p]|, q)
    ensures NoDuplicates(Rest(t, h, p, |t[p]|))
  {
  }

  lemma ChildIs(t: Tree, h: nat, p: Path, k: nat)
    requires Grown(t, h) && p in t && k < |t[p]|
    ensures IsChild(t, p, t[p][k]) && t[p][k] in t && |t[p][k]| == |p| + 1 <= h && p <= t[p][k]
  {
  }

  lemma RestStep(t: Tree, h: nat, p: Path, k: nat)
    requires Grown(t, h) && p in t && k < |t[p]|
    ensures t[p][k] in t
    ensures Rest(t, h, p, k) == Rest(t, h, t[p][k], 0) + Rest(t, h, p, k + 1)
  {
  }

  lemma JoinDistinct<A>(s: seq<A>, t: seq<A>)
    requires NoDuplicates(s) && NoDuplicates(t) && forall x :: x in s ==> x !in t
    ensures NoDuplicates(s + t) && forall x :: x in s + t <==> x in s || x in t
  {
    var u := s + t;
    forall i, j | 0 <= i < j < |u| ensures u[i] != u[j] {
      if i < |s| <= j {
        assert u[i] in s && u[j] in t;
      }
    }
  }

  lemma {:induction false} PrefixIn(t: Tree, h: nat, q: Path, n: nat)
    requires Grown(t, h) && q in t && n <= |q|
    ensures q[..n] in t
    decreases |q| - n
  {
    if n < |q| {
      PrefixIn(t, h, q, n + 1);
      assert Parent(q[..n + 1]) == q[..n];
    } else {
      assert q[..n] == q;
    }
  }

  // From slot 0 on that is everything under p.
  lemma CoversAll(t: Tree, h: nat, p: Path, q: Path)
    requires Grown(t, h) && p in t
    ensures Covers(t, p, 0, q) <==> q in t && Under(p, q)
  {
    if q in t && Under(p, q) && q != p {
      var c := q[..|p| + 1];
      PrefixIn(t, h, q, |p| + 1);
      assert Parent(c) == p;
      var j :| 0 <= j < |t[p]| && t[p][j] == c;
      assert Under(t[p][j], q);
    }
    if Covers(t, p, 0, q) && q != p {
      var j :| 0 <= j < |t[p]| && Under(t[p][j], q);
      ChildIs(t, h, p, j);
    }
  }

  // A path lies under one child only.
  lemma CoversStep(t: Tree, h: nat, p: Path, k: nat, q: Path)
    requires Grown(t, h) && p in t && k < |t[p]|
    ensures Covers(t, p, k, q) <==> (q in t && Under(t[p][k], q)) || Covers(t, p, k + 1, q)
    ensures q in t && Under(t[p][k], q) ==> !Covers(t, p, k + 1, q)
  {
    hide Grown, Under;
    ChildIs(t, h, p, k);
    RootNotUnder(t, h, p, k);
    forall j | k < j < |t[p]| && Under(t[p][k], q) ensures !Under(t[p][j], q) {
      ChildIs(t, h, p, j);
      ChildrenDiffer(t, h, p, k, j);
      OneUnder(t[p][k], t[p][j], q);
    }
  }

  lemma ChildrenDiffer(t: Tree, h: nat, p: Path, k: nat, j: nat)
    requires Grown(t, h) && p in t && k < j < |t[p]|
    ensures t[p][k] != t[p][j]
  {
  }

  lemma RootNotUnder(t: Tree, h: nat, p: Path, k: nat)
    requires Grown(t, h) && p in t && k < |t[p]|
    ensures !Under(t[p][k], p)
  {
    ChildIs(t, h, p, k);
  }

  lemma OneUnder(a: Path, b: Path, q: Path)
    requires |a| == |b| && a != b && Under(a, q)
    ensures !Under(b, q)
  {
    assert a == q[..|a|];
  }

  // ---------------------------------------------------------------------------------------------
  // Two orders of all the nodes but the root

  // What a loop visits that takes a node from the stack and puts its children there: the first k
  // children of p, the last of them first, each before what is under it.
  ghost function Down(t: Tree, h: nat, p: Path, k: nat): seq<Path>
    requires Grown(t, h) && p in t && k <= |t[p]|
    decreases h - |p|, k
  {
    if k == 0 then []
    else
      assert IsChild(t, p, t[p][k - 1]);
      [t[p][k - 1]] + Down(t, h, t[p][k - 1], |t[t[p][k - 1]]|) + Down(t, h, p, k - 1)
  }

  // What trie_path_list leaves: the subtrees of the root's first k children, the last of them first.
  ghost function Tops(t: Tree, h: nat, k: nat): seq<Path>
    requires Grown(t, h) && k <= |t[[]]|
    decreases k
  {
    if k == 0 then []
    else
      assert IsChild(t, [], t[[]][k - 1]);
      Rest(t, h, t[[]][k - 1], 0) + Tops(t, h, k - 1)
  }

  lemma DownStep(t: Tree, h: nat, p: Path, k: nat)
    requires Grown(t, h) && p in t && 0 < k <= |t[p]|
    ensures var c := t[p][k - 1];
      c in t && Down(t, h, p, k) == [c] + Down(t, h, c, |t[c]|) + Down(t, h, p, k - 1)
  {
    ChildIs(t, h, p, k - 1);
  }

  lemma RestEnd(t: Tree, h: nat, p: Path)
    requires Grown(t, h) && p in t
    ensures Rest(t, h, p, |t[p]|) == [p] && Down(t, h, p, 0) == []
  {
  }

  lemma {:induction false} DownIsRest(t: Tree, h: nat, p: Path, k: nat)
    requires Grown(t, h) && p in t && k <= |t[p]|
    ensures multiset(Rest(t, h, p, 0)) == multiset(Down(t, h, p, k)) + multiset(Rest(t, h, p, k))
    decreases h - |p|, k
  {
    RestEnd(t, h, p);
    if k > 0 {
      var c := t[p][k - 1];
      ChildIs(t, h, p, k - 1);
      DownIsRest(t, h, p, k - 1);
      DownIsRest(t, h, c, |t[c]|);
      DownStep(t, h, p, k);
      RestStep(t, h, p, k - 1);
      RestEnd(t, h, c);
      hide *;
      Regroup(Rest(t, h, p, 0), Down(t, h, p, k - 1), Rest(t, h, c, 0), Rest(t, h, p, k), Down(t, h, c, |t[c]|), c);
    }
  }

  lemma Regroup<A>(all: seq<A>, below: seq<A>, mine: seq<A>, rest: seq<A>, inner: seq<A>, c: A)
    requires multiset(all) == multiset(below) + multiset(mine + rest)
    requires multiset(mine) == multiset(inner) + multiset([c])
    ensures multiset(all) == multiset([c] + inner + below) + multiset(rest)
  {
  }

  lemma RegroupTops<A>(all: seq<A>, below: seq<A>, mine: seq<A>, rest: seq<A>)
    requires multiset(all) == multiset(below) + multiset(mine + rest)
    ensures multiset(all) == multiset(mine + below) + multiset(rest)
  {
  }

  lemma {:induction false} TopsIsRest(t: Tree, h: nat, k: nat)
    requires Grown(t, h) && k <= |t[[]]|
    ensures multiset(Rest(t, h, [], 0)) == multiset(Tops(t, h, k)) + multiset(Rest(t, h, [], k))
    decreases k
  {
    hide *;
    RootIn(t, h);
    if k == 0 {
      TopsNone(t, h);
    } else {
      ChildIs(t, h, [], k - 1);
      TopsIsRest(t, h, k - 1);
      RestStep(t, h, [], k - 1);
      TopsStep(t, h, k);
      RegroupTops(Rest(t, h, [], 0), Tops(t, h, k - 1), Rest(t, h, t[[]][k - 1], 0), Rest(t, h, [], k));
    }
  }

  lemma TopsNone(t: Tree, h: nat)
    requires Grown(t, h)
    ensures Tops(t, h, 0) == []
  {
  }

  lemma TopsStep(t: Tree, h: nat, k: nat)
    requires Grown(t, h) && 0 < k <= |t[[]]|
    ensures var c := t[[]][k - 1];
      c in t && Tops(t, h, k) == Rest(t, h, c, 0) + Tops(t, h, k - 1)
  {
    ChildIs(t, h, [], k - 1);
  }

  lemma {:induction false} DistinctMultiset<A>(s: seq<A>, all: set<A>)
    requires NoDuplicates(s) && forall x :: x in s <==> x in all
    ensures multiset(s) == multiset(all) && |s| == |all|
  {
    if s == [] {
      assert all == {};
    } else {
      var n := |s| - 1;
      assert s == s[..n] + [s[n]];
      DistinctMultiset(s[..n], all - {s[n]});
    }
  }

  // Both orders hold every node but the root exactly once.
  lemma OrdersComplete(t: Tree, h: nat)
    requires Grown(t, h)
    ensures [] in t
    ensures multiset(Down(t, h, [], |t[[]]|)) == multiset(t.Keys - {[]})
    ensures multiset(Tops(t, h, |t[[]]|)) == multiset(t.Keys - {[]})
    ensures |Down(t, h, [], |t[[]]|)| == |Tops(t, h, |t[[]]|)| == |t| - 1
  {
    RestCovers(t, h, [], 0);
    var all := Rest(t, h, [], 0);
    forall q ensures q in all <==> q in t.Keys {
      CoversAll(t, h, [], q);
    }
    DistinctMultiset(all, t.Keys);
    DownIsRest(t, h, [], |t[[]]|);
    TopsIsRest(t, h, |t[[]]|);
    RestEnd(t, h, []);
    hide *;
    assert [] in t;
    MultisetLess(Down(t, h, [], |t[[]]|), t.Keys, []);
    MultisetLess(Tops(t, h, |t[[]]|), t.Keys, []);
  }

  lemma OnceEach<A>(s: seq<A>, all: set<A>)
    requires multiset(s) == multiset(all)
    ensures NoDuplicates(s) && forall x :: x in s <==> x in all
  {
    forall i, j | 0 <= i < j < |s| ensures s[i] != s[j] {
      var x := s[i];
      assert s == s[..j] + s[j..] && s[..j][i] == x;
      assert multiset(s)[x] == multiset(s[..j])[x] + multiset(s[j..])[x];
      assert x in s[..j] && s[j..][0] == s[j];
      assert x in multiset(s[..j]) && s[j] in multiset(s[j..]);
    }
    forall x ensures x in s <==> x in all {
      assert x in s <==> x in multiset(s);
    }
  }

  lemma MultisetLess<A>(s: seq<A>, all: set<A>, x: A)
    requires x in all && multiset(s) + multiset([x]) == multiset(all)
    ensures multiset(s) == multiset(all - {x}) && |s| == |all| - 1
  {
    assert |multiset(s)| == |s|;
    assert multiset(s) == multiset(all) - multiset{x};
  }

  // ---------------------------------------------------------------------------------------------
  // Half way through

  // On the way from the root to p, next[d] children of the node at depth d + 1 have been taken.
  ghost predicate OnWay(t: Tree, p: Path, next: seq<nat>)
    decreases |p|
  {
    && |next| == |p| && p in t
    && (p != [] ==> next[|p| - 1] <= |t[p]| && OnWay(t, Parent(p), next[..|p| - 1]))
  }

  // What trie_path_list has still to leave when it is at p and k of the root's children are below.
  ghost function Climb(t: Tree, h: nat, p: Path, next: seq<nat>, k: nat): seq<Path>
    requires Grown(t, h) && OnWay(t, p, next) && k <= |t[[]]|
    decreases |p|
  {
    if p == [] then Tops(t, h, k)
    else
      Rest(t, h, p, next[|p| - 1]) + Climb(t, h, Parent(p), next[..|p| - 1], k)
  }

  lemma ClimbStep(t: Tree, h: nat, p: Path, before: seq<nat>, i: nat, k: nat)
    requires Grown(t, h) && p in t && p != [] && i <= |t[p]| && OnWay(t, Parent(p), before) && k <= |t[[]]|
    ensures OnWay(t, p, before + [i])
    ensures Climb(t, h, p, before + [i], k) == Rest(t, h, p, i) + Climb(t, h, Parent(p), before, k)
  {
    assert (before + [i])[..|p| - 1] == before;
    hide Grown, Rest;
  }

  // Going on to the next child.
  lemma ClimbDown(t: Tree, h: nat, p: Path, before: seq<nat>, i: nat, k: nat)
    requires Grown(t, h) && p in t && p != [] && i < |t[p]| && OnWay(t, Parent(p), before) && k <= |t[[]]|
    ensures t[p][i] in t && OnWay(t, p, before + [i]) && OnWay(t, t[p][i], before + [i + 1] + [0])
    ensures Climb(t, h, t[p][i], before + [i + 1] + [0], k) == Climb(t, h, p, before + [i], k)
  {
    hide *;
    ChildIs(t, h, p, i);
    ChildParent(t, h, p, i);
    RestStep(t, h, p, i);
    ClimbStep(t, h, p, before, i, k);
    ClimbStep(t, h, p, before, i + 1, k);
    ClimbStep(t, h, t[p][i], before + [i + 1], 0, k);
  }

  // Leaving a node whose children have all been taken.
  lemma ClimbUp(t: Tree, h: nat, p: Path, before: seq<nat>, k: nat)
    requires Grown(t, h) && p in t && p != [] && OnWay(t, Parent(p), before) && k <= |t[[]]|
    ensures OnWay(t, p, before + [|t[p]|])
    ensures Climb(t, h, p, before + [|t[p]|], k) == [p] + Climb(t, h, Parent(p), before, k)
  {
    ClimbStep(t, h, p, before, |t[p]|, k);
    RestEnd(t, h, p);
  }

  lemma ChildParent(t: Tree, h: nat, p: Path, k: nat)
    requires Grown(t, h) && p in t && k < |t[p]|
    ensures t[p][k] != [] && Parent(t[p][k]) == p
  {
    ChildIs(t, h, p, k);
  }

  lemma ClimbNone(t: Tree, h: nat, k: nat)
    requires Grown(t, h) && k <= |t[[]]| && OnWay(t, [], [])
    ensures Climb(t, h, [], [], k) == Tops(t, h, k)
  {
    hide Grown, Tops;
  }

  // Starting on the last of the root's children that are left.
  lemma ClimbTop(t: Tree, h: nat, k: nat)
    requires Grown(t, h) && 0 < k <= |t[[]]|
    ensures var c := t[[]][k - 1];
      && OnWay(t, [], []) && OnWay(t, c, [0]) && |c| == 1
      && Climb(t, h, c, [0], k - 1) == Climb(t, h, [], [], k)
  {
    var c := t[[]][k - 1];
    ChildIs(t, h, [], k - 1);
    ChildParent(t, h, [], k - 1);
    TopsStep(t, h, k);
    ClimbStep(t, h, c, [], 0, k - 1);
    assert [] + [0] == [0];
    hide Grown, Rest;
  }

  // The stack: the root's children that are left, and the way to p.
  function Way(p: Path): (s: seq<Path>)
    ensures |s| == |p|
  {
    if p == [] then [] else Way(Parent(p)) + [p]
  }

  lemma {:induction false} ClimbLength(t: Tree, h: nat, p: Path, next: seq<nat>, k: nat)
    requires Grown(t, h) && OnWay(t, p, next) && k <= |t[[]]|
    ensures k + |p| <= |Climb(t, h, p, next, k)|
    decreases |p|, k
  {
    if p != [] {
      ClimbLength(t, h, Parent(p), next[..|p| - 1], k);
      RestLength(t, h, p, next[|p| - 1]);
    } else if k > 0 {
      TopsStep(t, h, k);
      RestLength(t, h, t[[]][k - 1], 0);
      ClimbLength(t, h, p, next, k - 1);
    }
    hide Grown, Rest, OnWay, Tops;
  }

  lemma {:induction false} RestLength(t: Tree, h: nat, p: Path, k: nat)
    requires Grown(t, h) && p in t && k <= |t[p]|
    ensures 1 <= |Rest(t, h, p, k)|
    decreases |t[p]| - k
  {
    hide *;
    if k < |t[p]| {
      RestLength(t, h, p, k + 1);
      RestStep(t, h, p, k);
    } else {
      RestEnd(t, h, p);
    }
  }

  // What a loop that puts children on the stack has still to visit.
  ghost function Waiting(t: Tree, h: nat, stack: seq<Path>): seq<Path>
    requires Grown(t, h) && forall p :: p in stack ==> p in t
  {
    if stack == [] then []
    else
      var p := stack[|stack| - 1];
      [p] + Down(t, h, p, |t[p]|) + Waiting(t, h, stack[..|stack| - 1])
  }

  lemma {:induction false} WaitingLength(t: Tree, h: nat, stack: seq<Path>)
    requires Grown(t, h) && forall p :: p in stack ==> p in t
    ensures |stack| <= |Waiting(t, h, stack)|
  {
    if stack != [] {
      WaitingLength(t, h, stack[..|stack| - 1]);
    }
  }

  lemma {:induction false} WaitingKids(t: Tree, h: nat, stack: seq<Path>, p: Path, k: nat)
    requires Grown(t, h) && p in t && k <= |t[p]| && forall q :: q in stack ==> q in t
    ensures forall q :: q in stack + t[p][..k] ==> q in t
    ensures Waiting(t, h, stack + t[p][..k]) == Down(t, h, p, k) + Waiting(t, h, stack)
    decreases k
  {
    hide *;
    if k == 0 {
      RestEnd(t, h, p);
      assert stack + t[p][..0] == stack;
      assert [] + Waiting(t, h, stack) == Waiting(t, h, stack);
    } else {
      var c, below := t[p][k - 1], stack + t[p][..k - 1];
      SliceOn(stack, t[p], k);
      WaitingKids(t, h, stack, p, k - 1);
      ChildIs(t, h, p, k - 1);
      DownStep(t, h, p, k);
      WaitingTop(t, h, below, c);
      Associate([c], Down(t, h, c, |t[c]|), Down(t, h, p, k - 1), Waiting(t, h, stack));
    }
  }

  lemma SliceOn<A>(s: seq<A>, u: seq<A>, k: nat)
    requires 0 < k <= |u|
    ensures s + u[..k - 1] + [u[k - 1]] == s + u[..k]
  {
  }

  lemma Associate<A>(a: seq<A>, b: seq<A>, c: seq<A>, d: seq<A>)
    ensures a + b + (c + d) == a + b + c + d
  {
  }

  lemma WaitingTop(t: Tree, h: nat, stack: seq<Path>, p: Path)
    requires Grown(t, h) && p in t && forall q :: q in stack ==> q in t
    ensures forall q :: q in stack + [p] ==> q in t
    ensures Waiting(t, h, stack + [p]) == [p] + Down(t, h, p, |t[p]|) + Waiting(t, h, stack)
  {
    assert (stack + [p])[..|stack|] == stack;
  }

  // A stack of the root's children, of the nodes that wait, or of the way to a node is never larger
  // than the number of nodes that are left.
  lemma RootCapacity(t: Tree, h: nat)
    requires Grown(t, h)
    ensures [] in t && |t[[]]| <= |t| - 1
    ensures Waiting(t, h, t[[]]) == Down(t, h, [], |t[[]]|) && |Waiting(t, h, t[[]])| == |t| - 1
  {
    hide *;
    RootIn(t, h);
    OrdersComplete(t, h);
    AllIn(t, h, [], |t[[]]|);
    WaitingKids(t, h, [], [], |t[[]]|);
    assert [] + t[[]][..|t[[]]|] == t[[]];
    WaitingNone(t, h);
    WaitingLength(t, h, t[[]]);
  }

  lemma RootIn(t: Tree, h: nat)
    requires Grown(t, h)
    ensures [] in t
  {
  }

  lemma AllIn(t: Tree, h: nat, p: Path, k: nat)
    requires Grown(t, h) && p in t && k <= |t[p]|
    ensures forall q :: q in t[p][..k] ==> q in t
  {
    forall q | q in t[p][..k] ensures q in t {
      var i :| 0 <= i < k && t[p][i] == q;
      ChildIs(t, h, p, i);
    }
  }

  lemma RootsIn(t: Tree, h: nat)
    requires Grown(t, h)
    ensures [] in t && forall q :: q in t[[]] ==> q in t
  {
    AllIn(t, h, [], |t[[]]|);
    assert t[[]][..|t[[]]|] == t[[]];
  }

  lemma WaitingNone(t: Tree, h: nat)
    requires Grown(t, h)
    ensures Waiting(t, h, []) == []
  {
  }

  // Taking p from the stack and putting its children there.
  lemma WaitingNext(t: Tree, h: nat, stack: seq<Path>)
    requires Grown(t, h) && stack != [] && forall q :: q in stack ==> q in t
    ensures var below, p := stack[..|stack| - 1], stack[|stack| - 1];
      && p in t && (forall q :: q in below + t[p] ==> q in t)
      && Waiting(t, h, stack) == [p] + Waiting(t, h, below + t[p])
      && |below + t[p]| < |Waiting(t, h, stack)|
  {
    hide *;
    var below, p := stack[..|stack| - 1], stack[|stack| - 1];
    assert stack == below + [p];
    assert p in stack && forall q :: q in below ==> q in stack;
    var after := below + t[p];
    assert t[p][..|t[p]|] == t[p];
    WaitingTop(t, h, below, p);
    WaitingKids(t, h, below, p, |t[p]|);
    Associate([], [p], Down(t, h, p, |t[p]|), Waiting(t, h, below));
    assert [p] + (Down(t, h, p, |t[p]|) + Waiting(t, h, below)) == [p] + Down(t, h, p, |t[p]|) + Waiting(t, h, below);
    WaitingLength(t, h, after);
  }

  // Where trie_path_list is: at p with i children of p taken and, above it, `before`; p is empty between
  // two of the root's children, of which k are left.
  datatype Spot = Spot(p: Path, before: seq<nat>, i: nat, k: nat)

  function Taken(s: Spot): seq<nat> {
    if s.p == [] then [] else s.before + [s.i]
  }

  ghost predicate OnSpot(t: Tree, s: Spot) {
    && [] in t && s.k <= |t[[]]|
    && if s.p == [] then s.before == [] && s.i == 0
       else s.p in t && s.i <= |t[s.p]| && OnWay(t, Parent(s.p), s.before)
  }

  lemma SpotOnWay(t: Tree, s: Spot)
    requires OnSpot(t, s)
    ensures OnWay(t, s.p, Taken(s)) && |Taken(s)| == |s.p|
  {
    assert s.p != [] ==> Taken(s)[..|s.p| - 1] == s.before;
  }

  ghost function Remaining(t: Tree, h: nat, s: Spot): seq<Path>
    requires Grown(t, h) && OnSpot(t, s)
  {
    SpotOnWay(t, s);
    Climb(t, h, s.p, Taken(s), s.k)
  }

  // What is on the stack.
  ghost function SpotStack(t: Tree, s: Spot): seq<Path>
    requires [] in t && s.k <= |t[[]]|
  {
    t[[]][..s.k] + Way(s.p)
  }

  function TopSpot(t: Tree, s: Spot): Spot
    requires [] in t && 0 < s.k <= |t[[]]|
  {
    Spot(t[[]][s.k - 1], [], 0, s.k - 1)
  }

  // What makes a spot, and what it amounts to.
  lemma SpotIs(t: Tree, h: nat, s: Spot)
    requires Grown(t, h) && s.p != [] && s.p in t && s.i <= |t[s.p]| && OnWay(t, Parent(s.p), s.before)
    requires [] in t && s.k <= |t[[]]|
    ensures OnSpot(t, s) && |s.before| == |s.p| - 1
    ensures Taken(s) == s.before + [s.i] && OnWay(t, s.p, Taken(s))
    ensures Remaining(t, h, s) == Climb(t, h, s.p, s.before + [s.i], s.k)
    ensures SpotStack(t, s) == t[[]][..s.k] + (Way(Parent(s.p)) + [s.p])
  {
    SpotOnWay(t, s);
    hide Climb, Grown;
  }

  lemma SpotHas(t: Tree, s: Spot)
    requires OnSpot(t, s) && s.p != []
    ensures s.p in t && s.i <= |t[s.p]| && OnWay(t, Parent(s.p), s.before)
    ensures [] in t && s.k <= |t[[]]|
  {
  }

  lemma NoSpot(t: Tree, h: nat, k: nat)
    requires Grown(t, h) && [] in t && k <= |t[[]]|
    ensures OnWay(t, [], []) && OnSpot(t, Spot([], [], 0, k)) && Taken(Spot([], [], 0, k)) == []
    ensures Remaining(t, h, Spot([], [], 0, k)) == Climb(t, h, [], [], k)
    ensures SpotStack(t, Spot([], [], 0, k)) == t[[]][..k] + []
  {
    hide Grown, Climb;
  }

  lemma ToTop(t: Tree, h: nat, s: Spot)
    requires Grown(t, h) && OnSpot(t, s) && s.p == [] && 0 < s.k
    ensures var next := TopSpot(t, s);
      && OnSpot(t, next) && |next.p| == 1
      && Remaining(t, h, next) == Remaining(t, h, s) && SpotStack(t, next) == SpotStack(t, s)
  {
    hide *;
    TopSpotIs(t, s);
    var c, next := t[[]][s.k - 1], TopSpot(t, s);
    ClimbTop(t, h, s.k);
    ChildIs(t, h, [], s.k - 1);
    ChildParent(t, h, [], s.k - 1);
    NoSpot(t, h, s.k);
    SpotIs(t, h, next);
    assert [] + [0] == [0];
    OneWay(c);
    SliceOn([], t[[]], s.k);
    Associate([], t[[]][..s.k - 1], [c], []);
  }

  lemma TopSpotIs(t: Tree, s: Spot)
    requires OnSpot(t, s) && s.p == [] && 0 < s.k
    ensures [] in t && s.k <= |t[[]]| && s == Spot([], [], 0, s.k)
    ensures TopSpot(t, s) == Spot(t[[]][s.k - 1], [], 0, s.k - 1)
  {
    hide OnWay;
  }

  lemma OneWay(c: Path)
    requires |c| == 1
    ensures Way(Parent(c)) + [c] == [c]
  {
  }

  function DownSpot(t: Tree, s: Spot): Spot
    requires s.p in t && s.i < |t[s.p]|
  {
    Spot(t[s.p][s.i], s.before + [s.i + 1], 0, s.k)
  }

  lemma DownSpotIs(t: Tree, s: Spot)
    requires s.p in t && s.i < |t[s.p]|
    ensures DownSpot(t, s) == Spot(t[s.p][s.i], s.before + [s.i + 1], 0, s.k)
  {
  }

  lemma ToChild(t: Tree, h: nat, s: Spot)
    requires Grown(t, h) && OnSpot(t, s) && s.p != [] && s.p in t && s.i < |t[s.p]|
    ensures var next := DownSpot(t, s);
      && OnSpot(t, next) && |next.p| == |s.p| + 1 && Parent(next.p) == s.p
      && Remaining(t, h, next) == Remaining(t, h, s) && SpotStack(t, next) == SpotStack(t, s) + [next.p]
  {
    hide *;
    var c, next, after := t[s.p][s.i], DownSpot(t, s), s.before + [s.i + 1];
    DownSpotIs(t, s);
    SpotHas(t, s);
    ChildIs(t, h, s.p, s.i);
    ChildParent(t, h, s.p, s.i);
    ClimbDown(t, h, s.p, s.before, s.i, s.k);
    ClimbStep(t, h, s.p, s.before, s.i + 1, s.k);
    SpotIs(t, h, s);
    SpotIs(t, h, next);
    WayIs(s.p);
  }

  lemma WayIs(p: Path)
    requires p != []
    ensures Way(p) == Way(Parent(p)) + [p]
  {
  }

  function UpSpot(s: Spot): Spot
    requires s.p != [] && |s.before| == |s.p| - 1
  {
    if |s.p| == 1 then Spot([], [], 0, s.k)
    else Spot(Parent(s.p), s.before[..|s.p| - 2], s.before[|s.p| - 2], s.k)
  }

  lemma ToParent(t: Tree, h: nat, s: Spot)
    requires Grown(t, h) && OnSpot(t, s) && s.p != [] && s.p in t && s.i == |t[s.p]|
    ensures |s.before| == |s.p| - 1
    ensures var next := UpSpot(s);
      && OnSpot(t, next) && next.p == Parent(s.p) && Taken(next) == s.before
      && Remaining(t, h, s) == [s.p] + Remaining(t, h, next) && SpotStack(t, s) == SpotStack(t, next) + [s.p]
  {
    hide *;
    SpotHas(t, s);
    SpotIs(t, h, s);
    UpIs(t, s);
    var next, q := UpSpot(s), Parent(s.p);
    ClimbUp(t, h, s.p, s.before, s.k);
    if q == [] {
      NoSpot(t, h, s.k);
      assert Way([]) == [];
    } else {
      SpotIs(t, h, next);
      WayIs(q);
    }
    Associate([], t[[]][..s.k], Way(q), [s.p]);
    assert t[[]][..s.k] + (Way(q) + [s.p]) == t[[]][..s.k] + Way(q) + [s.p];
  }

  lemma UpIs(t: Tree, s: Spot)
    requires s.p != [] && OnWay(t, Parent(s.p), s.before)
    ensures |s.before| == |s.p| - 1 && |Parent(s.p)| == |s.p| - 1
    ensures var q, next := Parent(s.p), UpSpot(s);
      if q == [] then s.before == [] && next == Spot([], [], 0, s.k)
      else
        && next.p == q && next.k == s.k && q in t && next.i <= |t[q]| && OnWay(t, Parent(q), next.before)
        && next.before + [next.i] == s.before
  {
  }

  // ---------------------------------------------------------------------------------------------
  // Reports

  // What is reported of the nodes of an order: what the labelled ones are labelled with.
  function Labels<A>(order: seq<Path>, labels: map<Path, A>): seq<A> {
    if order == [] then []
    else
      var n := |order| - 1;
      Labels(order[..n], labels) + if order[n] in labels then [labels[order[n]]] else []
  }

  lemma LabelsOne<A>(order: seq<Path>, p: Path, labels: map<Path, A>)
    ensures Labels(order + [p], labels) == Labels(order, labels) + if p in labels then [labels[p]] else []
  {
    assert (order + [p])[..|order|] == order;
  }

  // If labels tell nodes apart, each label of a node in the order is reported exactly once.
  lemma {:induction false} LabelsOnce<A>(order: seq<Path>, labels: map<Path, A>)
    requires NoDuplicates(order)
    requires forall p, q :: p in labels && q in labels && labels[p] == labels[q] ==> p == q
    ensures NoDuplicates(Labels(order, labels))
    ensures forall x :: x in Labels(order, labels) <==> exists p :: p in order && p in labels && labels[p] == x
  {
    if order != [] {
      var n := |order| - 1;
      LabelsOnce(order[..n], labels);
      assert order == order[..n] + [order[n]];
      forall x
        ensures x in Labels(order, labels) <==>
          x in Labels(order[..n], labels) || (order[n] in labels && labels[order[n]] == x)
      {
      }
      assert order[n] in labels ==> labels[order[n]] !in Labels(order[..n], labels);
    }
  }

  // A null callback, or one whose answer may depend on all the calls so far.
  datatype Handler<!A> = NoHandler | Handler(answer: seq<A> -> int)

  // The calls made are all of them, or end with the first that is answered by a negative number.
  ghost predicate CutShort<A>(made: seq<A>, all: seq<A>, func: Handler<A>, ret: int) {
    if func.NoHandler? then made == [] && ret == 0
    else
      && (forall n :: 0 < n < |made| ==> func.answer(made[..n]) >= 0)
      && made <= all
      && if ret == 0 then made == all && (all != [] ==> func.answer(all) >= 0)
         else ret == -1 && made != [] && func.answer(made) < 0
  }

  // So the answers alone decide how far it goes: to the end, or to the first that is negative.
  lemma CutShortIs<A>(made: seq<A>, all: seq<A>, func: Handler<A>, ret: int)
    requires CutShort(made, all, func, ret) && func.Handler?
    ensures ret == 0 <==> forall n :: 0 < n <= |all| ==> func.answer(all[..n]) >= 0
    ensures ret == 0 ==> made == all
    ensures ret != 0 ==>
      && ret == -1 && 0 < |made| <= |all| && made == all[..|made|] && func.answer(made) < 0
      && forall n :: 0 < n < |made| ==> func.answer(all[..n]) >= 0
  {
    assert made == all[..|made|];
    assert forall n :: 0 < n <= |made| ==> made[..n] == all[..n];
  }

  // Half way through an order: every call so far was made and answered well.
  ghost predicate Going<A>(made: seq<A>, left: seq<Path>, labels: map<Path, A>, func: Handler<A>) {
    if func.NoHandler? then made == []
    else made == Labels(left, labels) && forall n :: 0 < n <= |made| ==> func.answer(made[..n]) >= 0
  }

  lemma GoingStart<A>(labels: map<Path, A>, func: Handler<A>)
    ensures Going([], [], labels, func)
  {
  }

  lemma GoingSkip<A>(made: seq<A>, left: seq<Path>, labels: map<Path, A>, func: Handler<A>, p: Path)
    requires Going(made, left, labels, func) && (p !in labels || func.NoHandler?)
    ensures Going(made, left + [p], labels, func)
  {
    LabelsOne(left, p, labels);
  }

  lemma GoingCall<A>(made: seq<A>, left: seq<Path>, labels: map<Path, A>, func: Handler<A>, p: Path)
    requires Going(made, left, labels, func) && p in labels && func.Handler?
    requires func.answer(made + [labels[p]]) >= 0
    ensures Going(made + [labels[p]], left + [p], labels, func)
  {
    LabelsOne(left, p, labels);
    var after := made + [labels[p]];
    forall n | 0 < n <= |after| ensures func.answer(after[..n]) >= 0 {
      if n <= |made| {
        assert after[..n] == made[..n];
      } else {
        assert after[..n] == after;
      }
    }
  }

  lemma GoingEnd<A>(made: seq<A>, all: seq<Path>, labels: map<Path, A>, func: Handler<A>)
    requires Going(made, all, labels, func)
    ensures CutShort(made, Labels(all, labels), func, 0)
  {
    assert made[..|made|] == made;
  }

  lemma GoingCut<A>(made: seq<A>, left: seq<Path>, labels: map<Path, A>, func: Handler<A>, p: Path, rest: seq<Path>)
    requires Going(made, left, labels, func) && p in labels && func.Handler?
    requires func.answer(made + [labels[p]]) < 0
    ensures CutShort(made + [labels[p]], Labels(left + [p] + rest, labels), func, -1)
  {
    LabelsOne(left, p, labels);
    LabelsPrefix(left + [p], rest, labels);
    var after := made + [labels[p]];
    forall n | 0 < n < |after| ensures func.answer(after[..n]) >= 0 {
      assert after[..n] == made[..n];
    }
  }

  lemma {:induction false} LabelsPrefix<A>(order: seq<Path>, rest: seq<Path>, labels: map<Path, A>)
    ensures Labels(order, labels) <= Labels(order + rest, labels)
    decreases |rest|
  {
    if rest == [] {
      assert order + rest == order;
    } else {
      var n := |rest| - 1;
      LabelsPrefix(order, rest[..n], labels);
      LabelsOne(order + rest[..n], rest[n], labels);
      assert order + rest[..n] + [rest[n]] == order + rest;
    }
  }
}
