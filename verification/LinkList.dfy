/** The intrusive circular list of lib/_linklist.js.

    A ring is a list head followed by its items from the most to the least idle one. */
module LinkList {

  // What the lists link: a timer, which heads a list, or an item with an idle timeout. The links
  // are null while the object is in no list.
  class Item {
    var idleNext: Item?
    var idlePrev: Item?

    // Of an item
    var idleStart: int
    var idleTimeout: int
    var hasCallback: bool

    // Of a list head: when its timer goes off, and whether the timer has been closed
    var due: int
    var closed: bool

    constructor (hasCallback: bool)
      ensures idleNext == null && idlePrev == null && !closed && this.hasCallback == hasCallback
    {
      idleNext, idlePrev := null, null;
      idleStart, idleTimeout, due, closed := 0, 0, 0, false;
      this.hasCallback := hasCallback;
    }
  }

  ghost predicate Distinct(r: seq<Item>) {
    forall i, j :: 0 <= i < j < |r| ==> r[i] != r[j]
  }

  ghost predicate Ring(r: seq<Item>)
    reads r`idleNext, r`idlePrev
  {
    && |r| > 0 && Distinct(r)
    && (forall i :: 0 <= i < |r| - 1 ==> r[i].idlePrev == r[i + 1])
    && (forall i :: 1 <= i < |r| ==> r[i].idleNext == r[i - 1])
    && r[|r| - 1].idlePrev == r[0] && r[0].idleNext == r[|r| - 1]
  }

  ghost predicate Loose(item: Item)
    reads item`idleNext, item`idlePrev
  {
    item.idleNext == null && item.idlePrev == null
  }

  ghost function Without(r: seq<Item>, k: nat): (s: seq<Item>)
    requires k < |r|
    ensures |s| == |r| - 1
    ensures forall i :: 0 <= i < k ==> s[i] == r[i]
    ensures forall i :: k <= i < |s| ==> s[i] == r[i + 1]
  {
    r[..k] + r[k + 1..]
  }

  method Init(list: Item)
    modifies list`idleNext, list`idlePrev
    ensures Ring([list])
  {
    list.idleNext := list;
    list.idlePrev := list;
  }

  // The most idle item
  method Peek(list: Item, ghost r: seq<Item>) returns (first: Item?)
    requires Ring(r) && r[0] == list
    ensures first == if |r| == 1 then null else r[1]
  {
    if list.idlePrev == list {
      return null;
    }
    return list.idlePrev;
  }

  method IsEmpty(list: Item, ghost r: seq<Item>) returns (empty: bool)
    requires Ring(r) && r[0] == list
    ensures empty <==> |r| == 1
  {
    empty := list.idleNext == list;
  }

  lemma Neighbours(r: seq<Item>, k: nat)
    requires Ring(r) && k < |r|
    ensures r[k].idleNext == r[if k == 0 then |r| - 1 else k - 1]
    ensures r[k].idlePrev == r[if k == |r| - 1 then 0 else k + 1]
  {
  }

  // Takes an item out of its ring, or lets go of one that is in no ring or alone in its own.
  method Remove(item: Item, ghost r: seq<Item>, ghost k: nat)
    requires if r == [] then Loose(item) else Ring(r) && k < |r| && r[k] == item && (k > 0 || |r| == 1)
    modifies item`idleNext, item`idlePrev, r`idleNext, r`idlePrev
    ensures Loose(item)
    ensures |r| > 1 ==> Ring(Without(r, k))
  {
    ghost var last := |r| - 1;
    if r != [] {
      Neighbours(r, k);
    }
    if item.idleNext != null {
      item.idleNext.idlePrev := item.idlePrev;
    }
    if item.idlePrev != null {
      item.idlePrev.idleNext := item.idleNext;
    }
    item.idleNext := null;
    item.idlePrev := null;
    if last > 0 {
      ghost var s := Without(r, k);
      assert forall i, j :: 0 <= i < j < last ==> s[i] != s[j];
      assert forall i :: 0 <= i < last - 1 ==> s[i].idlePrev == s[i + 1];
      assert forall i :: 1 <= i < last ==> s[i].idleNext == s[i - 1];
    }
  }

  // Puts a loose item last.
  method Link(list: Item, item: Item, ghost r: seq<Item>)
    requires Ring(r) && r[0] == list && item !in r
    modifies item`idleNext, item`idlePrev, r`idleNext, r`idlePrev
    ensures Ring(r + [item])
  {
    item.idleNext := list.idleNext;
    list.idleNext.idlePrev := item;
    item.idlePrev := list;
    list.idleNext := item;
  }

  // Takes an item out of its ring, or lets go of one in no ring. Another ring stays as it is.
  method Detach(item: Item, ghost from: seq<Item>, ghost k: nat, ghost other: seq<Item>)
    requires if from == [] then Loose(item) else Ring(from) && k < |from| && from[k] == item && (k > 0 || |from| == 1)
    requires other != [] ==> Ring(other) && forall x <- [item] + from :: x !in other
    modifies item`idleNext, item`idlePrev, from`idleNext, from`idlePrev
    ensures Loose(item) && (|from| > 1 ==> Ring(Without(from, k))) && (other != [] ==> Ring(other))
  {
    hide Ring, Distinct, Without;
    assert item in [item] + from && forall x <- from :: x in [item] + from;
    Remove(item, from, k);
    assert forall x <- other :: x.idleNext == old(x.idleNext) && x.idlePrev == old(x.idlePrev);
  }

  // Puts a loose item last. Another ring stays as it is.
  method Attach(list: Item, item: Item, ghost r: seq<Item>, ghost other: seq<Item>)
    requires Ring(r) && r[0] == list && item !in r
    requires other != [] ==> Ring(other) && forall x <- [item] + r :: x !in other
    modifies item`idleNext, item`idlePrev, r`idleNext, r`idlePrev
    ensures Ring(r + [item]) && (other != [] ==> Ring(other))
  {
    hide Ring, Distinct;
    assert item in [item] + r && forall x <- r :: x in [item] + r;
    Link(list, item, r);
    assert forall x <- other :: x.idleNext == old(x.idleNext) && x.idlePrev == old(x.idlePrev);
  }

  // Takes an item out of its ring, or out of none, and puts it last in the list's ring. Another ring
  // that it was in goes on without it.
  method Append(list: Item, item: Item, ghost r: seq<Item>, ghost from: seq<Item>, ghost k: nat)
    requires Ring(r) && r[0] == list && list != item
    requires from == [] ==> Loose(item)
    requires from != [] ==> Ring(from) && k < |from| && from[k] == item && (k > 0 || |from| == 1)
    requires if from == r then k > 0 else item !in r && forall x <- from :: x !in r
    modifies item`idleNext, item`idlePrev, r`idleNext, r`idlePrev, from`idleNext, from`idlePrev
    ensures Ring((if from == r then Without(r, k) else r) + [item])
    ensures from != r && |from| > 1 ==> Ring(Without(from, k))
  {
    hide Ring, Distinct, Without;
    NotEmpty(r);
    if from != [] {
      Leaves(from, k);
    }
    ghost var rest := if |from| > 1 then Without(from, k) else [];
    Detach(item, from, k, if from == r then [] else r);
    Attach(list, item, if from == r then rest else r, if from == r then [] else rest);
  }

  // What is left of a ring without an item
  lemma Leaves(from: seq<Item>, k: nat)
    requires Ring(from) && k < |from|
    ensures |from| > 1 ==>
      var rest := Without(from, k);
      from[k] !in rest && (forall x <- rest :: x in from) && (k > 0 ==> rest[0] == from[0])
  {
    if |from| > 1 {
      var rest := Without(from, k);
      assert forall i :: 0 <= i < |rest| ==> rest[i] != from[k] && rest[i] in from;
    }
  }

  lemma NotEmpty(r: seq<Item>)
    requires Ring(r)
    ensures r != []
  {
  }
}
