/**
 The array stack of `stack.c`. Pointers into the buffer are slot numbers: `prod` is the slot behind
 the top one.
 */
module Stacks {

  class SpStack<T(0)> {
    const addr: array<T>
    var top: int
    var prod: int
    const offset: nat
    var avail: int
    const total: nat

    ghost predicate Valid()
      reads this
    {
      addr.Length == total && 0 <= avail <= total && prod == total - avail
    }

    // The elements, the top one last.
    ghost function Elements(): (s: seq<T>)
      requires Valid()
      reads this, addr
      ensures |s| == total - avail
    {
      addr[..prod]
    }

    // sp_stack_create
    constructor (nodeNum: nat, nodeSize: nat, blank: T)
      ensures Valid() && Elements() == [] && total == nodeNum && offset == nodeSize && fresh(addr)
    {
      addr := new T[nodeNum](i => blank);
      top, prod, offset, avail, total := 0, 0, nodeSize, nodeNum, nodeNum;
      new;
    }

    // sp_enstack. `prod` never reaches the end before the last slot is taken, so it is never reset.
    method Enstack(node: T, size: nat) returns (ret: int)
      requires Valid()
      modifies this`prod, this`avail, addr
      ensures Valid()
      ensures ret == if size > offset then -2 else if |old(Elements())| == total then -3 else 0
      ensures Elements() == if ret == 0 then old(Elements()) + [node] else old(Elements())
    {
      if size > offset {
        return -2;
      }
      if avail == 0 {
        return -3;
      }
      addr[prod] := node;
      var slot := prod;
      if slot > total || slot + 1 > total {
        slot := 0;
      }
      prod := slot + 1;
      avail := avail - 1;
      return 0;
    }

    // sp_destack. `top` is never below the buffer, so `prod` is never moved to its end.
    method Destack(stale: T, size: nat) returns (ret: int, node: T)
      requires Valid()
      modifies this`top, this`prod, this`avail
      ensures Valid()
      ensures ret == if old(Elements()) == [] then -4 else if offset < size then -5 else 0
      ensures if ret == 0 then old(Elements()) == Elements() + [node]
              else Elements() == old(Elements()) && node == stale
    {
      node := stale;
      if avail == total {
        return -4, node;
      }
      if offset < size {
        return -5, node;
      }
      var slot := prod;
      top := slot - 1;
      if top < 0 {
        slot := total - 1;
      }
      node := addr[top];
      prod := slot - 1;
      avail := avail + 1;
      return 0, node;
    }

    // sp_stack_top
    method Top(stale: T, size: nat) returns (ret: int, node: T)
      requires Valid()
      ensures ret == if Elements() == [] then -4 else if offset < size then -5 else 0
      ensures node == if ret == 0 then Elements()[|Elements()| - 1] else stale
    {
      node := stale;
      if avail == total {
        return -4, node;
      }
      if offset < size {
        return -5, node;
      }
      node := addr[prod - 1];
      return 0, node;
    }
  }
}
