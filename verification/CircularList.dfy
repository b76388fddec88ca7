/**
 The intrusive circular doubly linked list of `rule/list.h`.

 A list is a sentinel `head` and the entries strung behind it. Its contents are described by a
 ghost sequence: `Ring(head, s)` says that following `next` from `head` visits exactly `s` and
 comes back to `head`, and that `prev` is the inverse walk. Each operation is specified by the
 sequence operation it performs; the sentinel may stand on either side of the position worked on.
 */
module CircularList {

  /** Which of the two links of a rule node a head is embedded as (the offset in `container_of`). */
  datatype Member = IdHead | PriorityHead

  class ListHead {
    var next: ListHead
    var prev: ListHead
    const slot: int       // the index of the node this head is embedded in, negative for a sentinel
    const part: Member

    // INIT_LIST_HEAD on a new head
    constructor (slot: int, part: Member)
      ensures Ring(this, [])
      ensures this.slot == slot && this.part == part
    {
      this.slot, this.part := slot, part;
      next, prev := this, this;
    }
  }

  ghost predicate Distinct<T>(s: seq<T>) {
    forall i, j :: 0 <= i < j < |s| ==> s[i] != s[j]
  }

  ghost predicate Ring(head: ListHead, s: seq<ListHead>)
    reads head, s
  {
    && head !in s
    && Distinct(s)
    && Linked(head, s)
  }

  ghost predicate Linked(head: ListHead, s: seq<ListHead>)
    reads head, s
  {
    && head.next == At(head, s, 0)
    && head.prev == At(head, s, |s| - 1)
    && (forall i {:trigger s[i].next} :: 0 <= i < |s| ==> s[i].next == At(head, s, i + 1))
    && (forall i {:trigger s[i].prev} :: 0 <= i < |s| ==> s[i].prev == At(head, s, i - 1))
  }

  // The head at position i of the cycle, with the sentinel at both ends.
  ghost function At(head: ListHead, s: seq<ListHead>, i: int): ListHead {
    if 0 <= i < |s| then s[i] else head
  }

  ghost function Insert<T>(s: seq<T>, k: nat, x: T): seq<T>
    requires k <= |s|
  {
    s[..k] + [x] + s[k..]
  }

  ghost function Remove<T>(s: seq<T>, k: nat): seq<T>
    requires k < |s|
  {
    s[..k] + s[k + 1..]
  }

  lemma OnlyAt<T>(s: seq<T>, k: nat)
    requires Distinct(s) && k < |s|
    ensures forall i :: 0 <= i < |s| && i != k ==> s[i] != s[k]
  {
  }

  // Distinct numbers below n, n of them, are all the numbers below n.
  lemma {:induction false} Pigeonhole(s: seq<int>, n: nat)
    requires Distinct(s) && |s| == n && forall i :: 0 <= i < n ==> 0 <= s[i] < n
    ensures forall x :: 0 <= x < n ==> x in s
    decreases n
  {
    if n > 0 {
      // Rename n - 1 to the last element, then drop the last.
      var last := s[n - 1];
      var t := seq(n - 1, i requires 0 <= i < n - 1 => if s[i] == n - 1 then last else s[i]);
      assert forall i {:trigger t[i]} :: 0 <= i < n - 1 ==> t[i] == if s[i] == n - 1 then last else s[i];
      Pigeonhole(t, n - 1);
      forall x | 0 <= x < n ensures x in s {
        if x == last {
        } else if x < n - 1 {
          assert x in t;
          var i :| 0 <= i < n - 1 && t[i] == x;
          assert s[i] == x;
        } else {
          assert last in t;
          var i :| 0 <= i < n - 1 && t[i] == last;
          assert s[i] == last || s[i] == n - 1;
        }
      }
    }
  }

  method InitListHead(list: ListHead)
    modifies list
    ensures Ring(list, [])
  {
    list.next := list;
    list.prev := list;
  }

  // __list_add: the entry goes between two neighbours of a ring.
  method AddBetween(entry: ListHead, prev: ListHead, next: ListHead,
                    ghost head: ListHead, ghost s: seq<ListHead>, ghost k: nat)
    requires Ring(head, s) && entry != head && entry !in s
    requires k <= |s| && prev == At(head, s, k - 1) && next == At(head, s, k)
    modifies entry, prev, next
    ensures Ring(head, Insert(s, k, entry))
    ensures entry.next == next && entry.prev == prev
  {
    next.prev := entry;
    entry.next := next;
    entry.prev := prev;
    prev.next := entry;
    SplicedRing(head, s, k, [entry]);
    assert Spliced(s, k, [entry]) == Insert(s, k, entry);
  }

  method ListAdd(entry: ListHead, head: ListHead, ghost s: seq<ListHead>)
    requires Ring(head, s) && entry != head && entry !in s
    modifies entry, head, head.next
    ensures Ring(head, [entry] + s)
  {
    AddBetween(entry, head, head.next, head, s, 0);
    assert Insert(s, 0, entry) == [entry] + s;
  }

  method ListAddTail(entry: ListHead, head: ListHead, ghost s: seq<ListHead>)
    requires Ring(head, s) && entry != head && entry !in s
    modifies entry, head, head.prev
    ensures Ring(head, s + [entry])
  {
    AddBetween(entry, head.prev, head, head, s, |s|);
    assert Insert(s, |s|, entry) == s + [entry];
  }

  // __list_del and list_del: the entry keeps its own links.
  method ListDel(entry: ListHead, ghost head: ListHead, ghost s: seq<ListHead>, ghost k: nat)
    requires Ring(head, s) && k < |s| && s[k] == entry
    modifies entry.prev, entry.next
    ensures Ring(head, Remove(s, k))
    ensures entry.next == old(entry.next) && entry.prev == old(entry.prev)
  {
    entry.next.prev := entry.prev;
    entry.prev.next := entry.next;
    ghost var t := Remove(s, k);
    assert forall i {:trigger t[i]} :: 0 <= i < |t| ==> t[i] == if i < k then s[i] else s[i + 1];
    assert head !in t && Distinct(t);
    forall i | 0 <= i < |t| ensures t[i].next == At(head, t, i + 1) && t[i].prev == At(head, t, i - 1) {
      if i < k { assert t[i] == s[i]; } else { assert t[i] == s[i + 1]; }
    }
  }

  // list_replace: the sentinel (k < 0) or entry k makes way for another head, also when it is alone.
  method ListReplace(entry: ListHead, replacement: ListHead, ghost head: ListHead, ghost s: seq<ListHead>, ghost k: int)
    requires Ring(head, s) && replacement != head && replacement !in s
    requires -1 <= k < |s| && entry == At(head, s, k)
    modifies replacement, entry, entry.next, entry.prev
    ensures if k < 0 then Ring(replacement, s) else Ring(head, s[k := replacement])
  {
    replacement.next := entry.next;
    replacement.next.prev := replacement;
    replacement.prev := entry.prev;
    replacement.prev.next := replacement;
    ghost var t := if k < 0 then s else s[k := replacement];
    ghost var h := if k < 0 then replacement else head;
    assert h !in t && Distinct(t);
    forall i | 0 <= i < |t| ensures t[i].next == At(h, t, i + 1) && t[i].prev == At(h, t, i - 1) {
      assert i != k ==> t[i] == s[i];
    }
  }

  // list_del_init
  method ListDelInit(entry: ListHead, ghost head: ListHead, ghost s: seq<ListHead>, ghost k: nat)
    requires Ring(head, s) && k < |s| && s[k] == entry
    modifies entry, entry.prev, entry.next
    ensures Ring(head, Remove(s, k)) && Ring(entry, [])
  {
    ListDel(entry, head, s, k);
    InitListHead(entry);
  }

  // Two rings with no head in common.
  ghost predicate Apart(h1: ListHead, s1: seq<ListHead>, h2: ListHead, s2: seq<ListHead>) {
    && h1 != h2 && h1 !in s2 && h2 !in s1
    && forall x :: x in s1 ==> x !in s2
  }

  lemma RemoveKeepsOthers<T>(s: seq<T>, k: nat)
    requires k < |s| && Distinct(s)
    ensures Distinct(Remove(s, k)) && s[k] !in Remove(s, k)
    ensures forall x :: x in Remove(s, k) ==> x in s && x != s[k]
    ensures forall x :: x in s && x != s[k] ==> x in Remove(s, k)
  {
    var t := Remove(s, k);
    assert forall i {:trigger t[i]} :: 0 <= i < |t| ==> t[i] == if i < k then s[i] else s[i + 1];
    forall x | x in s && x != s[k] ensures x in t {
      var i :| 0 <= i < |s| && s[i] == x;
      assert t[if i < k then i else i - 1] == x;
    }
  }

  // The two ends of a ring, and the neighbours of an entry.
  lemma RingEnds(head: ListHead, s: seq<ListHead>)
    requires Ring(head, s)
    ensures head !in s && Distinct(s)
    ensures head.next == At(head, s, 0) && head.prev == At(head, s, |s| - 1)
    ensures (head.next == head || head.next in s) && (head.prev == head || head.prev in s)
  {
  }

  lemma Neighbours(head: ListHead, s: seq<ListHead>, k: nat)
    requires Ring(head, s) && k < |s|
    ensures s[k] in s && s[k].next == At(head, s, k + 1) && s[k].prev == At(head, s, k - 1)
    ensures (s[k].next == head || s[k].next in s) && (s[k].prev == head || s[k].prev in s)
  {
  }

  // The ends of a ring that has lost its k-th entry.
  lemma EndsWithout(head: ListHead, s: seq<ListHead>, k: nat)
    requires k < |s|
    ensures |Remove(s, k)| == |s| - 1
    ensures At(head, Remove(s, k), 0) == if k == 0 then At(head, s, 1) else At(head, s, 0)
    ensures At(head, Remove(s, k), |s| - 2) == if k == |s| - 1 then At(head, s, k - 1) else At(head, s, |s| - 1)
  {
  }

  lemma ApartIs(h1: ListHead, s1: seq<ListHead>, h2: ListHead, s2: seq<ListHead>)
    ensures Apart(h1, s1, h2, s2) <==> h1 != h2 && h1 !in s2 && h2 !in s1 && forall x :: x in s1 ==> x !in s2
  {
  }

  // Moving entry k touches nothing of the other ring but the entry's new neighbours.
  lemma MoveApart(src: ListHead, s: seq<ListHead>, k: nat, head: ListHead, d: seq<ListHead>)
    requires Ring(src, s) && Ring(head, d) && k < |s| && Apart(src, s, head, d)
    ensures var list := s[k];
      && list != src && list != head && list !in d && src != head && head !in s
      && list.prev != head && list.next != head && list.prev !in d && list.next !in d
      && head.next != src && head.prev != src && head.next !in s && head.prev !in s
  {
    hide *;
    RingEnds(src, s);
    RingEnds(head, d);
    Neighbours(src, s, k);
    ApartIs(src, s, head, d);
  }

  // list_move: within one ring (src == head and d == s) or from one ring to another.
  method ListMove(list: ListHead, ghost src: ListHead, ghost s: seq<ListHead>, ghost k: nat,
                  head: ListHead, ghost d: seq<ListHead>)
    requires Ring(src, s) && k < |s| && s[k] == list && Ring(head, d)
    requires (src == head && s == d) || Apart(src, s, head, d)
    modifies list, list.prev, list.next, head, head.next
    ensures if src == head then Ring(head, [list] + Remove(s, k))
            else Ring(src, Remove(s, k)) && Ring(head, [list] + d)
  {
    hide *;
    RingEnds(src, s);
    Neighbours(src, s, k);
    RemoveKeepsOthers(s, k);
    EndsWithout(src, s, k);
    ghost var t := Remove(s, k);
    if src != head {
      MoveApart(src, s, k, head, d);
    }
    ListDel(list, src, s, k);
    RingEnds(src, t);
    ghost var touched := {list, head, head.next};
    assert src != head ==> src !in touched && forall i :: 0 <= i < |t| ==> t[i] in t && t[i] !in touched;
    ListAdd(list, head, if src == head then t else d);
  }

  // list_move_tail
  method ListMoveTail(list: ListHead, ghost src: ListHead, ghost s: seq<ListHead>, ghost k: nat,
                      head: ListHead, ghost d: seq<ListHead>)
    requires Ring(src, s) && k < |s| && s[k] == list && Ring(head, d)
    requires (src == head && s == d) || Apart(src, s, head, d)
    modifies list, list.prev, list.next, head, head.prev
    ensures if src == head then Ring(head, Remove(s, k) + [list])
            else Ring(src, Remove(s, k)) && Ring(head, d + [list])
  {
    hide *;
    RingEnds(src, s);
    Neighbours(src, s, k);
    RemoveKeepsOthers(s, k);
    EndsWithout(src, s, k);
    ghost var t := Remove(s, k);
    if src != head {
      MoveApart(src, s, k, head, d);
    }
    ListDel(list, src, s, k);
    RingEnds(src, t);
    ghost var touched := {list, head, head.prev};
    assert src != head ==> src !in touched && forall i :: 0 <= i < |t| ==> t[i] in t && t[i] !in touched;
    ListAddTail(list, head, if src == head then t else d);
  }

  predicate ListEmpty(head: ListHead)
    reads head
  {
    head.next == head
  }

  predicate ListIsSingular(head: ListHead)
    reads head
  {
    !ListEmpty(head) && head.next == head.prev
  }

  predicate ListIsLast(list: ListHead, head: ListHead)
    reads list
  {
    list.next == head
  }

  // The three tests read two links and answer a question about the whole list.
  lemma TestsAgree(head: ListHead, s: seq<ListHead>)
    requires Ring(head, s)
    ensures ListEmpty(head) <==> s == []
    ensures ListIsSingular(head) <==> |s| == 1
    ensures forall k :: 0 <= k < |s| ==> (ListIsLast(s[k], head) <==> k == |s| - 1)
  {
    if s != [] {
      assert s[0] in s && head.next == s[0] && head.prev == s[|s| - 1];
      forall k | 0 <= k < |s| ensures ListIsLast(s[k], head) <==> k == |s| - 1 {
        assert s[k].next == At(head, s, k + 1);
        assert k + 1 < |s| ==> s[k + 1] in s;
      }
    }
  }

  // list_rotate_left
  method ListRotateLeft(head: ListHead, ghost s: seq<ListHead>)
    requires Ring(head, s)
    modifies head, s
    ensures Ring(head, if s == [] then [] else s[1..] + [s[0]])
  {
    TestsAgree(head, s);
    if !ListEmpty(head) {
      var first := head.next;
      ListMoveTail(first, head, s, 0, head, s);
      assert Remove(s, 0) == s[1..];
    }
  }

  lemma RotatedOnce<T>(s: seq<T>, i: nat)
    requires i < |s|
    ensures var t := s[i..] + s[..i];
      && (forall x :: x in t ==> x in s)
      && t[1..] + [t[0]] == s[i + 1..] + s[..i + 1]
  {
  }

  // Rotating once per entry is the identity.
  method RotateRoundTrip(head: ListHead, ghost s: seq<ListHead>, n: nat)
    requires Ring(head, s) && n == |s|
    modifies head, s
    ensures Ring(head, s)
  {
    assert s[0..] + s[..0] == s;
    for i := 0 to n
      invariant Ring(head, s[i..] + s[..i])
    {
      ghost var t := s[i..] + s[..i];
      RotatedOnce(s, i);
      ListRotateLeft(head, t);
    }
    assert s[n..] + s[..n] == s;
  }

  ghost predicate OnRing(entry: ListHead, head: ListHead, s: seq<ListHead>) {
    entry == head || entry in s
  }

  // list_cut_position: the k entries up to and including entry move to list. A ring that is empty,
  // or has one entry that is neither the head nor the one asked for, is left alone.
  method ListCutPosition(list: ListHead, head: ListHead, entry: ListHead, ghost s: seq<ListHead>, ghost k: nat)
    requires Ring(head, s) && list != head && list !in s
    requires |s| >= 2 ==> OnRing(entry, head, s)
    requires OnRing(entry, head, s) ==> k <= |s| && entry == At(head, s, k - 1)
    modifies list, head, entry, head.next, entry.next
    ensures if s != [] && OnRing(entry, head, s) then Ring(list, s[..k]) && Ring(head, s[k..])
            else Ring(head, s) && list.next == old(list.next) && list.prev == old(list.prev)
  {
    TestsAgree(head, s);
    if ListEmpty(head) {
      return;
    }
    if ListIsSingular(head) && head.next != entry && head != entry {
      return;
    }
    if entry == head {
      InitListHead(list);
      assert s[..k] == [] && s[k..] == s;
    } else {
      assert s[k - 1] == entry;
      CutEntry(list, head, entry, s, k);
    }
  }

  // __list_cut_position
  method CutEntry(list: ListHead, head: ListHead, entry: ListHead, ghost s: seq<ListHead>, ghost k: nat)
    requires Ring(head, s) && list != head && list !in s
    requires 0 < k <= |s| && s[k - 1] == entry
    modifies list, head, entry, head.next, entry.next
    ensures Ring(list, s[..k]) && Ring(head, s[k..])
  {
    var newFirst := entry.next;
    list.next := head.next;
    list.next.prev := list;
    list.prev := entry;
    entry.next := list;
    head.next := newFirst;
    newFirst.prev := head;
  }

  ghost function Spliced<T>(s: seq<T>, k: nat, t: seq<T>): seq<T>
    requires k <= |s|
  {
    s[..k] + t + s[k..]
  }

  lemma SplicedAt<T>(s: seq<T>, k: nat, t: seq<T>)
    requires k <= |s| && Distinct(s) && Distinct(t) && forall x :: x in t ==> x !in s
    ensures |Spliced(s, k, t)| == |s| + |t| && Distinct(Spliced(s, k, t))
    ensures forall i {:trigger Spliced(s, k, t)[i]} :: 0 <= i < |s| + |t| ==>
      Spliced(s, k, t)[i] == if i < k then s[i] else if i < k + |t| then t[i - k] else s[i - |t|]
  {
    assert forall i, j :: 0 <= i < |t| && 0 <= j < |s| ==> t[i] != s[j] by {
      assert forall i :: 0 <= i < |t| ==> t[i] in t;
    }
  }

  // __list_splice: the entries of list go between two neighbours of the ring at head.
  method SpliceBetween(list: ListHead, prev: ListHead, next: ListHead,
                       ghost t: seq<ListHead>, ghost head: ListHead, ghost s: seq<ListHead>, ghost k: nat)
    requires Ring(list, t) && Ring(head, s) && Apart(list, t, head, s) && t != []
    requires k <= |s| && prev == At(head, s, k - 1) && next == At(head, s, k)
    modifies list.next, list.prev, prev, next
    ensures Ring(head, Spliced(s, k, t))
    ensures list.next == old(list.next) && list.prev == old(list.prev)
  {
    var first := list.next;
    var last := list.prev;
    first.prev := prev;
    prev.next := first;
    last.next := next;
    next.prev := last;
    assert forall j :: 0 <= j < |s| ==> s[j] in s && s[j] !in t;
    SplicedRing(head, s, k, t);
  }

  // A ring whose two links at position k lead into t and out of it holds the spliced sequence.
  lemma SplicedRing(head: ListHead, s: seq<ListHead>, k: nat, t: seq<ListHead>)
    requires k <= |s| && Distinct(s) && Distinct(t) && t != []
    requires head !in s && head !in t && forall x :: x in t ==> x !in s
    requires head.next == (if k == 0 then t[0] else At(head, s, 0))
    requires head.prev == (if k == |s| then t[|t| - 1] else At(head, s, |s| - 1))
    requires forall j {:trigger s[j].next} :: 0 <= j < |s| ==>
      s[j].next == if j == k - 1 then t[0] else At(head, s, j + 1)
    requires forall j {:trigger s[j].prev} :: 0 <= j < |s| ==>
      s[j].prev == if j == k then t[|t| - 1] else At(head, s, j - 1)
    requires forall j {:trigger t[j].next} :: 0 <= j < |t| ==>
      t[j].next == if j == |t| - 1 then At(head, s, k) else t[j + 1]
    requires forall j {:trigger t[j].prev} :: 0 <= j < |t| ==>
      t[j].prev == if j == 0 then At(head, s, k - 1) else t[j - 1]
    ensures Ring(head, Spliced(s, k, t))
  {
    SplicedAt(s, k, t);
  }

  // list_splice
  method ListSplice(list: ListHead, head: ListHead, ghost t: seq<ListHead>, ghost s: seq<ListHead>)
    requires Ring(list, t) && Ring(head, s) && Apart(list, t, head, s)
    modifies list.next, list.prev, head, head.next
    ensures Ring(head, t + s)
  {
    TestsAgree(list, t);
    if !ListEmpty(list) {
      SpliceBetween(list, head, head.next, t, head, s, 0);
      assert Spliced(s, 0, t) == t + s;
    } else {
      assert t + s == s;
    }
  }

  // list_splice_tail
  method ListSpliceTail(list: ListHead, head: ListHead, ghost t: seq<ListHead>, ghost s: seq<ListHead>)
    requires Ring(list, t) && Ring(head, s) && Apart(list, t, head, s)
    modifies list.next, list.prev, head, head.prev
    ensures Ring(head, s + t)
  {
    TestsAgree(list, t);
    if !ListEmpty(list) {
      SpliceBetween(list, head.prev, head, t, head, s, |s|);
      assert Spliced(s, |s|, t) == s + t;
    } else {
      assert s + t == s;
    }
  }

  // list_splice_init
  method ListSpliceInit(list: ListHead, head: ListHead, ghost t: seq<ListHead>, ghost s: seq<ListHead>)
    requires Ring(list, t) && Ring(head, s) && Apart(list, t, head, s)
    modifies list, list.next, list.prev, head, head.next
    ensures Ring(head, t + s) && Ring(list, [])
  {
    TestsAgree(list, t);
    if !ListEmpty(list) {
      SpliceBetween(list, head, head.next, t, head, s, 0);
      assert Spliced(s, 0, t) == t + s;
      InitListHead(list);
    } else {
      assert t + s == s;
    }
  }

  // Cutting at any entry into an initialised list and splicing back restores both lists.
  method CutSpliceRoundTrip(list: ListHead, head: ListHead, entry: ListHead, ghost s: seq<ListHead>, ghost k: nat)
    requires Ring(head, s) && list != head && list !in s && Ring(list, [])
    requires OnRing(entry, head, s) && k <= |s| && entry == At(head, s, k - 1)
    modifies list, head, s
    ensures Ring(head, s) && Ring(list, [])
  {
    ListCutPosition(list, head, entry, s, k);
    assert s[..k] + s[k..] == s;
    assert forall i :: 0 <= i < k ==> s[..k][i] == s[i];
    assert forall i :: 0 <= i < |s| - k ==> s[k..][i] == s[k + i];
    ListSpliceInit(list, head, s[..k], s[k..]);
  }
}
