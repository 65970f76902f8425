/**
 * The list of messages that were left on the server because of their size:
 * the items that no message referred to are unlinked in place.
 */
module SkippedList {

  class Item {
    const id: string
    /** Whether a message of the last poll referred to the item; not changed here. */
    const mark: int
    var next: Item?

    constructor (id: string, mark: int, next: Item?)
      ensures this.id == id && this.mark == mark && this.next == next
    {
      this.id, this.mark, this.next := id, mark, next;
    }
  }

  /** The item at position `i`; behind the last one there is none. */
  function Nth(items: seq<Item>, i: nat): Item? {
    if i < |items| then items[i] else null
  }

  /** The list that starts at `head` runs through exactly these items, in this order. */
  ghost predicate Chain(head: Item?, items: seq<Item>)
    reads items
  {
    head == Nth(items, 0) && forall i :: 0 <= i < |items| ==> items[i].next == Nth(items, i + 1)
  }

  /** The items that are referred to, in order. */
  function Marked(items: seq<Item>): seq<Item> {
    if items == [] then []
    else
      var rest, last := items[..|items| - 1], items[|items| - 1];
      if last.mark == 0 then Marked(rest) else Marked(rest) + [last]
  }

  lemma MarkedNext(items: seq<Item>, k: nat)
    requires k < |items|
    ensures Marked(items[..k + 1]) == Marked(items[..k]) + if items[k].mark == 0 then [] else [items[k]]
  {
    assert items[..k + 1][..k] == items[..k];
  }

  /** A list that ends does not meet an item twice. */
  lemma {:induction false} ChainDistinct(head: Item?, s: seq<Item>, i: nat, j: nat)
    requires Chain(head, s) && i < j < |s|
    ensures s[i] != s[j]
    decreases |s| - j
  {
    if s[i] == s[j] {
      assert s[i].next == Nth(s, j + 1) == Nth(s, i + 1);
      if j + 1 < |s| { ChainDistinct(head, s, i + 1, j + 1); }
    }
  }

  /** A list runs through one sequence of items only. */
  lemma {:induction false} ChainUnique(head: Item?, s: seq<Item>, t: seq<Item>)
    requires Chain(head, s) && Chain(head, t)
    ensures s == t
  {
    if s != [] && t != [] {
      Tail(head, s);
      Tail(head, t);
      ChainUnique(s[0].next, s[1..], t[1..]);
      assert s == [s[0]] + s[1..] && t == [t[0]] + t[1..];
    }
  }

  lemma Tail(head: Item?, s: seq<Item>)
    requires s != [] && Chain(head, s)
    ensures Chain(s[0].next, s[1..])
  {
    var t := s[1..];
    forall i | 0 <= i < |t| ensures t[i].next == Nth(t, i + 1) {
      assert t[i] == s[i + 1];
    }
  }

  /** The list without the item at position `d`. */
  function Without(s: seq<Item>, d: nat): seq<Item>
    requires d < |s|
  {
    s[..d] + s[d + 1..]
  }

  /**
   * Takes the item at position `d` out of the list, at its head or behind
   * `prev`, and moves on.
   */
  method Unlink(head: Item?, prev: Item, current: Item, ghost s: seq<Item>, ghost d: nat)
    returns (head': Item?, prev': Item?, current': Item?)
    requires Chain(head, s) && d < |s|
    requires current == s[d] && prev == if d == 0 then s[0] else s[d - 1]
    modifies prev`next
    ensures Chain(head', Without(s, d))
    ensures current' == Nth(Without(s, d), d)
    ensures prev' == if d == 0 then head' else prev
  {
    ghost var t := Without(s, d);
    assert forall i :: 0 <= i < |t| ==> t[i] == s[if i < d then i else i + 1];
    if d > 0 { ChainDistinct(head, s, 0, d); }
    if current == head {
      head' := current.next;
      prev', current' := head', head';
      assert forall i :: 0 <= i < |t| ==> t[i].next == Nth(t, i + 1);
    } else {
      var tmp := current.next;
      forall i | 0 <= i < |s| && i != d - 1 ensures s[i] != prev {
        if i < d - 1 { ChainDistinct(head, s, i, d - 1); } else { ChainDistinct(head, s, d - 1, i); }
      }
      prev.next := tmp;
      assert forall i :: 0 <= i < |s| && i != d - 1 ==> s[i].next == Nth(s, i + 1);
      assert forall i :: 0 <= i < |t| ==> t[i].next == Nth(t, i + 1);
      head', prev', current' := head, prev, tmp;
    }
  }

  predicate Among(s: seq<Item>, all: set<Item>) { forall i :: 0 <= i < |s| ==> s[i] in all }

  /** One step along a list whose part from `d` on is the part from `k` on of `items`. */
  lemma Advance(s: seq<Item>, d: nat, items: seq<Item>, k: nat, all: set<Item>)
    requires d < |s| && k < |items| && s[d..] == items[k..]
    ensures s[d] == items[k]
    ensures items[..k + 1] == items[..k] + [items[k]] && items[..k + 1][..k] == items[..k]
    ensures s[..d + 1] == s[..d] + [items[k]] && s[d + 1..] == items[k + 1..]
    ensures Without(s, d)[..d] == s[..d] && Without(s, d)[d..] == items[k + 1..]
    ensures Among(s, all) ==> Among(Without(s, d), all)
  {
    assert s[d] == s[d..][0] == items[k..][0];
    assert s[d + 1..] == s[d..][1..] == items[k..][1..] == items[k + 1..];
  }

  /** Unlinks the item at position `d`, or passes it when it is marked. */
  method CleanItem(head: Item?, prev: Item, current: Item, ghost s: seq<Item>, ghost d: nat,
                   ghost items: seq<Item>, ghost k: nat, ghost all: set<Item>)
    returns (head': Item?, prev': Item?, current': Item?, ghost s': seq<Item>, ghost d': nat)
    requires Chain(head, s) && d < |s| && k < |items| && s[d..] == items[k..]
    requires current == s[d] && prev == if d == 0 then s[0] else s[d - 1]
    requires Among(s, all)
    modifies prev`next
    ensures d' <= |s'| && Chain(head', s') && current' == Nth(s', d')
    ensures prev' == if d' == 0 then head' else s'[d' - 1]
    ensures s'[..d'] == s[..d] + if items[k].mark == 0 then [] else [items[k]]
    ensures s'[d'..] == items[k + 1..]
    ensures Among(s', all)
  {
    Advance(s, d, items, k, all);
    if current.mark == 0 {
      head', prev', current' := Unlink(head, prev, current, s, d);
      s', d' := Without(s, d), d;
    } else {
      head', prev', current' := head, current, current.next;
      s', d' := s, d + 1;
    }
  }

  /**
   * Unlinks every item that is not marked.  The list then runs through the
   * marked ones in their old order, and through no others.
   */
  method Clean(list: Item?, ghost items: seq<Item>, ghost all: set<Item>) returns (head: Item?)
    requires Chain(list, items) && Among(items, all)
    modifies all`next
    ensures Chain(head, Marked(items))
  {
    head := list;
    if head == null { return; }
    var prev: Item?, current: Item? := head, head;
    ghost var k: nat, d: nat, s := 0, 0, items;
    while current != null
      invariant d <= |s| && k <= |items|
      invariant Chain(head, s) && current == Nth(s, d)
      invariant prev == if d == 0 then head else s[d - 1]
      invariant s[..d] == Marked(items[..k])
      invariant s[d..] == items[k..]
      invariant Among(s, all)
      decreases |items| - k
    {
      assert s[d..] != [];
      MarkedNext(items, k);
      assert prev in all;
      head, prev, current, s, d := CleanItem(head, prev, current, s, d, items, k, all);
      k := k + 1;
    }
    assert d == |s| && s[d..] == [];
    assert items[..k] == items && s[..d] == s;
  }
}
