/** The idle timers of lib/timers.js: one timer and one list for every timeout in use.

    The clock is a parameter of each operation and never runs backwards. Callbacks are collected
    rather than called: what they do to the lists is not part of this model. */
module Timers {
  import opened LinkList

  ghost predicate Late(item: Item, msecs: int, now: int)
    reads item`idleStart
  {
    now - item.idleStart + 1 >= msecs
  }

  ghost function WithCallback(s: seq<Item>): (r: seq<Item>)
    reads s`hasCallback
  {
    if s == [] then [] else WithCallback(s[..|s| - 1]) + if s[|s| - 1].hasCallback then [s[|s| - 1]] else []
  }

  // What is left of a queue when an item leaves it
  ghost function Gone(s: seq<Item>, item: Item): (r: seq<Item>) {
    if s == [] then [] else if s[0] == item then s[1..] else [s[0]] + Gone(s[1..], item)
  }

  lemma {:induction false} GoneAt(s: seq<Item>, k: nat)
    requires Distinct(s) && k < |s|
    ensures Gone(s, s[k]) == s[..k] + s[k + 1..]
  {
    if k > 0 {
      var rest := s[1..];
      GoneAt(rest, k - 1);
      assert rest[k - 1] == s[k] != s[0];
      assert [s[0]] + rest[..k - 1] == s[..k] && rest[k..] == s[k + 1..];
      assert [s[0]] + (rest[..k - 1] + rest[k..]) == s[..k] + s[k + 1..];
    }
  }

  lemma {:induction false} GoneOther(s: seq<Item>, item: Item)
    requires item !in s
    ensures Gone(s, item) == s
  {
    if s != [] {
      GoneOther(s[1..], item);
    }
  }

  lemma StaysIn(r: seq<Item>, k: nat, y: Item)
    requires k < |r| && y in r && y != r[k]
    ensures y in Without(r, k)
  {
    var i :| 0 <= i < |r| && r[i] == y;
    assert Without(r, k)[if i < k then i else i - 1] == y;
  }

  // The items of a list, without its head
  ghost function Behind(rings: map<int, seq<Item>>, m: int): (s: seq<Item>) {
    if m in rings && |rings[m]| > 0 then rings[m][1..] else []
  }

  class Timers {
    // The timeouts in use, in milliseconds, with their lists
    var lists: map<int, Item>
    // The ring behind each of them
    ghost var rings: map<int, seq<Item>>
    // Every item that was ever enrolled
    ghost var items: set<Item>
    ghost var clock: int

    constructor (ghost now: int)
      ensures Valid() && clock == now && lists == map[] && items == {} && forall m :: Waiting(m) == []
    {
      lists, rings, items, clock := map[], map[], {}, now;
    }

    // The items with a timeout that is running, the most idle one first
    ghost function Waiting(m: int): (s: seq<Item>)
      reads this`rings
    {
      Behind(rings, m)
    }

    ghost predicate Listed(item: Item)
      reads this`rings, item`idleTimeout
    {
      item.idleTimeout in rings && item in rings[item.idleTimeout]
    }

    ghost predicate Alone(item: Item)
      reads item`idleNext, item`idlePrev
    {
      item.idleNext == item && item.idlePrev == item
    }

    // A list in order of idleness, which may have run empty
    ghost predicate Kept(m: int, list: Item, r: seq<Item>)
      reads r`idleNext, r`idlePrev, r`idleTimeout, r`idleStart, list`closed
    {
      && Ring(r) && r[0] == list && !list.closed
      && (forall i :: 0 <= i < |r| ==> r[i].idleTimeout == m)
      && (forall i, j :: 1 <= i < j < |r| ==> r[i].idleStart <= r[j].idleStart)
    }

    // Every list is in order, and its timer is not an item.
    ghost predicate InOrder()
      reads this`lists, this`rings, lists.Values, set m, i | m in rings && 0 <= i < |rings[m]| :: rings[m][i]
    {
      lists.Keys == rings.Keys && forall m <- rings :: m >= 0 && Kept(m, lists[m], rings[m])
    }

    // The rings hold items, but for their heads.
    ghost predicate Members()
      reads this`lists, this`rings, this`items
    {
      && (forall m <- lists :: lists[m] !in items)
      && (forall m <- rings, i | 1 <= i < |rings[m]| :: rings[m][i] in items)
    }

    // Every item is in the list for its timeout, alone, or loose.
    ghost predicate Placed()
      reads this`rings, this`items, items`idleNext, items`idlePrev, items`idleTimeout
    {
      forall item <- items :: Loose(item) || Alone(item) || Listed(item)
    }

    // No idle time starts in the future.
    ghost predicate Past()
      reads this`rings, this`items, this`clock, items`idleStart, items`idleTimeout
    {
      forall item <- items | Listed(item) :: item.idleStart <= clock
    }

    // Lists in order, whose timers may be late
    ghost predicate Sound()
      reads this, items, lists.Values, set m, i | m in rings && 0 <= i < |rings[m]| :: rings[m][i]
    {
      InOrder() && Members() && Placed() && Past()
    }

    // A timer goes off no later than its oldest item is due.
    ghost predicate Armed(m: int, list: Item, r: seq<Item>)
      reads list`due, r`idleStart
    {
      |r| > 1 && list.due <= r[1].idleStart + m
    }

    ghost predicate Valid()
      reads this, items, lists.Values, set m, i | m in rings && 0 <= i < |rings[m]| :: rings[m][i]
    {
      Sound() && forall m <- rings :: m in lists && Armed(m, lists[m], rings[m])
    }

    // The ring an item is in: that of its list, its own, or none
    ghost function RingOf(item: Item): (r: seq<Item>)
      reads this, item
    {
      if Listed(item) then rings[item.idleTimeout] else if Loose(item) then [] else [item]
    }

    // What Kept says of the objects of a ring
    lemma Belongs(m: int, list: Item, r: seq<Item>)
      requires Kept(m, list, r)
      ensures |r| > 0 && r[0] == list && forall y <- r :: y.idleTimeout == m
    {
    }

    // No two lists share an object.
    lemma Apart()
      requires Sound()
      ensures forall m <- rings ::
        |rings[m]| > 0 && rings[m][0] == lists[m] && forall y <- rings[m] :: y.idleTimeout == m
    {
      hide Kept, Alone, Loose, Ring, Distinct;
      forall m <- rings
        ensures |rings[m]| > 0 && rings[m][0] == lists[m] && forall y <- rings[m] :: y.idleTimeout == m
      {
        Belongs(m, lists[m], rings[m]);
      }
    }

    method Drop(item: Item, ghost list: Item, ghost r: seq<Item>, ghost k: nat)
      requires if r == [] then Loose(item) else k < |r| && r[k] == item
      requires if |r| > 1 then Kept(item.idleTimeout, list, r) && item != list else r == [] || Alone(item)
      modifies item`idleNext, item`idlePrev, r`idleNext, r`idlePrev
      ensures Loose(item)
      ensures |r| > 1 ==> Kept(item.idleTimeout, list, Without(r, k)) && item !in Without(r, k)
    {
      Remove(item, r, k);
    }

    // Takes the links of an item out of the ring it is in, if it is in one.
    method Detach(item: Item, ghost k: nat)
      requires Sound() && item in items
      requires Listed(item) ==> k < |rings[item.idleTimeout]| && rings[item.idleTimeout][k] == item
      modifies items`idleNext, items`idlePrev, lists.Values`idleNext, lists.Values`idlePrev
      ensures Loose(item)
      ensures forall m <- rings | !Listed(item) || m != item.idleTimeout :: Kept(m, lists[m], rings[m])
      ensures Listed(item) ==>
        var t, r := item.idleTimeout, Without(rings[item.idleTimeout], k);
        Kept(t, lists[t], r) && item !in r
      ensures forall y <- items | y != item :: Loose(y) || Alone(y) || Listed(y)
    {
      hide Kept, Ring, Distinct, Without;
      ghost var t, listed, from := item.idleTimeout, Listed(item), RingOf(item);
      Apart();
      assert forall x <- from :: x in items || x in lists.Values;
      Drop(item, if listed then lists[t] else item, from, if listed then k else 0);
      forall m <- rings | !listed || m != t ensures Kept(m, lists[m], rings[m]) {
        hide Members, Placed, Past, Loose, Alone;
        var r, list := rings[m], lists[m];
        assert old(Kept(m, list, r));
        assert list in r && item !in r;
        assert forall o <- r :: o.idleNext == old(o.idleNext) && o.idlePrev == old(o.idlePrev);
        assert list.idleNext == old(list.idleNext) && list.idlePrev == old(list.idlePrev);
        assert Kept(m, list, r);
      }
      forall y <- items | y != item ensures Loose(y) || Alone(y) || Listed(y) {
        hide InOrder, Members, Past;
        assert old(Loose(y) || Alone(y) || Listed(y));
      }
    }

    // Takes an item out of the ring it is in, if it is in one, which may leave a list empty.
    method TakeOut(item: Item, ghost k: nat)
      requires Sound() && item in items
      requires Listed(item) ==> k < |rings[item.idleTimeout]| && rings[item.idleTimeout][k] == item
      modifies this`rings, items`idleNext, items`idlePrev, lists.Values`idleNext, lists.Values`idlePrev
      ensures Sound() && Loose(item) && !Listed(item)
      ensures rings ==
        if old(Listed(item)) then old(rings)[item.idleTimeout := Without(old(rings)[item.idleTimeout], k)]
          else old(rings)
    {
      hide Kept, Ring, Distinct;
      Detach(item, k);
      if Listed(item) {
        ghost var t, from := item.idleTimeout, rings[item.idleTimeout];
        forall y <- items | y != item && y in from ensures y in Without(from, k) {
          StaysIn(from, k, y);
        }
        rings := rings[t := Without(from, k)];
      }
      assert InOrder() by {
        hide Members, Placed, Past, Loose, Alone;
      }
      assert Placed() by {
        hide InOrder, Members, Past, Loose, Alone;
      }
      assert Members() by {
        hide InOrder, Placed, Past, Loose, Alone, Listed;
      }
      assert Past() by {
        hide InOrder, Members, Placed, Loose, Alone;
      }
      hide InOrder, Members, Placed, Past;
    }

    // Puts an item last in a list, with its idle time starting now.
    method Requeue(list: Item, item: Item, now: int, ghost r: seq<Item>, ghost from: seq<Item>, ghost k: nat)
      requires Kept(item.idleTimeout, list, r) && item != list && forall i :: 1 <= i < |r| ==> r[i].idleStart <= now
      requires if from == [] then Loose(item) else k < |from| && from[k] == item
      requires from != [] && from != r ==> |from| == 1 && Alone(item)
      requires from != r ==> item !in r
      modifies item`idleStart, item`idleNext, item`idlePrev, r`idleNext, r`idlePrev
      ensures Kept(item.idleTimeout, list, (if from == r then Without(r, k) else r) + [item])
      ensures item.idleStart == now
    {
      hide Loose, Without;
      item.idleStart := now;
      Append(list, item, r, from, k);
    }

    // The ring of a list once an item has been moved to its end
    ghost function Requeued(item: Item, k: nat): (q: seq<Item>)
      requires item.idleTimeout in rings && (Listed(item) ==> k < |rings[item.idleTimeout]|)
      reads this`rings, item`idleTimeout
    {
      (if Listed(item) then Without(rings[item.idleTimeout], k) else rings[item.idleTimeout]) + [item]
    }

    lemma RequeuedItems(item: Item, k: nat)
      requires Sound() && item in items && item.idleTimeout in rings
      requires Listed(item) ==> k < |rings[item.idleTimeout]| && rings[item.idleTimeout][k] == item
      ensures var q := Requeued(item, k);
        && (forall y <- q[1..] :: y in items && (y == item || y.idleStart <= clock))
        && (forall y <- items | y.idleTimeout == item.idleTimeout && Listed(y) :: y in q)
    {
      hide Kept, Ring, Distinct, Loose, Alone;
      var t, q := item.idleTimeout, Requeued(item, k);
      assert t in rings;
      var r := rings[t];
      Apart();
      if Listed(item) {
        forall y <- items | y != item && y in r ensures y in q {
          StaysIn(r, k, y);
        }
      }
      forall i | 1 <= i < |q| ensures q[i] in items && (q[i] == item || q[i].idleStart <= clock) {
        if i < |q| - 1 {
          var j := if Listed(item) && i >= k then i + 1 else i;
          assert 1 <= j < |r|;
          assert q[i] == r[j];
          assert rings[t][j] in items && r[j].idleTimeout == t;
        }
      }
    }

    // The same for the links alone
    method Reattach(list: Item, item: Item, now: int, ghost k: nat)
      requires Sound() && item in items && clock <= now
      requires item.idleTimeout in lists && list == lists[item.idleTimeout]
      requires Listed(item) ==> k < |rings[item.idleTimeout]| && rings[item.idleTimeout][k] == item
      modifies item`idleStart
      modifies items`idleNext, items`idlePrev, lists.Values`idleNext, lists.Values`idlePrev
      ensures item.idleStart == now
      ensures forall m <- rings | m != item.idleTimeout :: Kept(m, lists[m], rings[m])
      ensures Kept(item.idleTimeout, list, Requeued(item, k))
      ensures forall y <- items | y != item :: Loose(y) || Alone(y) || Listed(y)
    {
      hide Kept, Ring, Distinct, Without;
      ghost var t, listed, from := item.idleTimeout, Listed(item), RingOf(item);
      Apart();
      assert forall x <- rings[t] :: x in items || x in lists.Values;
      Requeue(list, item, now, rings[t], from, if listed then k else 0);
      forall m <- rings | m != t ensures Kept(m, lists[m], rings[m]) {
        hide Members, Placed, Past, Loose, Alone;
        var r, list := rings[m], lists[m];
        assert old(Kept(m, list, r));
        assert list in r && item !in r;
        assert forall o <- r :: o.idleNext == old(o.idleNext) && o.idlePrev == old(o.idlePrev);
        assert list.idleNext == old(list.idleNext) && list.idlePrev == old(list.idlePrev);
        assert Kept(m, list, r);
      }
      forall y <- items | y != item ensures Loose(y) || Alone(y) || Listed(y) {
        hide InOrder, Members, Past;
        assert old(Loose(y) || Alone(y) || Listed(y));
      }
    }

    // Notes the new ring of a list.
    ghost method Record(item: Item, q: seq<Item>, now: int)
      requires item in items && item.idleTimeout in rings && item.idleTimeout >= 0 && lists.Keys == rings.Keys
      requires forall m <- rings | m != item.idleTimeout :: m >= 0 && Kept(m, lists[m], rings[m])
      requires Kept(item.idleTimeout, lists[item.idleTimeout], q)
      requires Members() && |q| > 1 && q[|q| - 1] == item
      requires forall y <- q[1..] :: y in items && y.idleStart <= now
      requires forall y <- items | y != item :: Loose(y) || Alone(y) || Listed(y)
      requires forall y <- items | y != item && Listed(y) :: y.idleStart <= now
      requires forall y <- items | y.idleTimeout == item.idleTimeout && Listed(y) :: y in q
      modifies this`rings, this`clock
      ensures Sound() && clock == now && rings == old(rings)[item.idleTimeout := q]
    {
      hide Kept, Ring, Distinct, Loose, Alone;
      ghost var list := lists[item.idleTimeout];
      assert q[0] == list by {
        Belongs(item.idleTimeout, list, q);
      }
      assert list !in items;
      clock := now;
      rings := rings[item.idleTimeout := q];
      assert forall i :: 1 <= i < |q| ==> q[i] == q[1..][i - 1];
    }

    // Moves an item to the end of a list, from wherever it was.
    method MoveLast(list: Item, item: Item, now: int, ghost k: nat)
      requires Sound() && item in items && clock <= now
      requires item.idleTimeout in lists && list == lists[item.idleTimeout]
      requires Listed(item) ==> k < |rings[item.idleTimeout]| && rings[item.idleTimeout][k] == item
      modifies this`rings, this`clock, item`idleStart
      modifies items`idleNext, items`idlePrev, lists.Values`idleNext, lists.Values`idlePrev
      ensures Sound() && item.idleStart == now == clock
      ensures rings == old(rings)[item.idleTimeout := old(Requeued(item, k))]
    {
      hide Kept, Ring, Distinct, Loose, Alone, Without;
      RequeuedItems(item, k);
      Apart();
      ghost var q := Requeued(item, k);
      Reattach(list, item, now, k);
      Record(item, q, now);
    }

    // Changes the timeout of an item that is in no list, and its own links at will.
    method Retime(item: Item, msecs: int, alone: bool)
      requires Sound() && item in items && !Listed(item) && (!alone ==> Loose(item))
      modifies item`idleTimeout, item`idleNext, item`idlePrev
      ensures Sound() && item.idleTimeout == msecs && !Listed(item) && if alone then Alone(item) else Loose(item)
    {
      hide Kept, Ring, Distinct;
      Apart();
      item.idleTimeout := msecs;
      if alone {
        Init(item);
      }
      forall m <- rings ensures Kept(m, lists[m], rings[m]) {
        hide Members, Placed, Past, Loose, Alone;
        var r, list := rings[m], lists[m];
        assert old(Kept(m, list, r));
        assert list in r && item !in r;
        assert forall o <- r :: o.idleNext == old(o.idleNext) && o.idlePrev == old(o.idlePrev);
        assert list.idleNext == old(list.idleNext) && list.idlePrev == old(list.idlePrev);
        assert Kept(m, list, r);
      }
      forall y <- items | y != item ensures Loose(y) || Alone(y) || Listed(y) {
        hide InOrder, Members, Past;
        assert old(Loose(y) || Alone(y) || Listed(y));
      }
    }

    ghost function Position(item: Item): (k: nat)
      reads this`rings, item
      ensures Listed(item) ==> k < |rings[item.idleTimeout]| && rings[item.idleTimeout][k] == item
    {
      if Listed(item)
        then var k :| 0 <= k < |rings[item.idleTimeout]| && rings[item.idleTimeout][k] == item; k
        else 0
    }

    // An item that leaves its ring leaves the queue behind the head.
    lemma Leaves(item: Item, k: nat)
      requires Sound() && item in items
      requires Listed(item) ==> k < |rings[item.idleTimeout]| && rings[item.idleTimeout][k] == item
      ensures Listed(item) ==>
        k > 0 && Without(rings[item.idleTimeout], k)[1..] == Gone(Waiting(item.idleTimeout), item)
      ensures !Listed(item) ==> Gone(Waiting(item.idleTimeout), item) == Waiting(item.idleTimeout)
    {
      var t := item.idleTimeout;
      if Listed(item) {
        var r := rings[t];
        assert Kept(t, lists[t], r) && Waiting(t)[k - 1] == item;
        GoneAt(Waiting(t), k - 1);
      } else {
        GoneOther(Waiting(t), item);
      }
    }

    lemma Ordered(m: int)
      requires Sound() && m in rings
      ensures m in lists && Kept(m, lists[m], rings[m])
    {
    }

    method IsEmptyList(m: int) returns (empty: bool)
      requires InOrder() && m in lists
      ensures empty <==> |rings[m]| == 1
      ensures |rings[m]| > 0 && rings[m][0] == lists[m]
    {
      assert Kept(m, lists[m], rings[m]);
      empty := IsEmpty(lists[m], rings[m]);
    }

    // Gives up the list for a timeout once it is empty.
    method DropIfEmpty(m: int, list: Item)
      requires Sound() && m in lists && list == lists[m]
      modifies this`lists, this`rings, list`closed
      ensures Sound()
      ensures if |old(rings)[m]| > 1
        then rings == old(rings) && lists == old(lists) && list.closed == old(list.closed)
        else rings == old(rings) - {m} && lists == old(lists) - {m} && list.closed
    {
      hide Kept, Ring, Distinct;
      Apart();
      var empty := IsEmptyList(m);
      if empty {
        list.closed := true;
        lists := lists - {m};
        rings := rings - {m};
        assert InOrder() by {
          hide Members, Placed, Past, Loose, Alone;
          forall n <- rings ensures n >= 0 && Kept(n, lists[n], rings[n]) {
            assert old(n >= 0 && Kept(n, lists[n], rings[n]));
            assert list !in rings[n];
            assert lists[n] in rings[n];
          }
        }
        assert Placed() by {
          hide InOrder, Past;
        }
        assert Members() && Past() by {
          hide InOrder, Placed, Loose, Alone;
        }
        hide InOrder, Members, Placed, Past;
      }
    }

    // A list stays armed when one of its items leaves.
    lemma StaysArmed(m: int, list: Item, r: seq<Item>, k: nat)
      requires Kept(m, list, r) && Armed(m, list, r) && 0 < k < |r|
      ensures |r| > 2 ==> Armed(m, list, Without(r, k))
    {
    }

    // The rings once one of them has become another, or has run empty
    ghost function Left(was: map<int, seq<Item>>, t: int, q: seq<Item>): (r: map<int, seq<Item>>) {
      if |q| > 1 then was[t := q] else was - {t}
    }

    lemma LeftBehind(was: map<int, seq<Item>>, t: int, q: seq<Item>)
      requires |q| > 0
      ensures Behind(Left(was, t, q), t) == q[1..] && (t in Left(was, t, q) <==> q[1..] != [])
      ensures forall m | m != t :: Behind(Left(was, t, q), m) == Behind(was, m)
    {
    }

    // Takes an item out of its ring, and the list out of use if that was the last item.
    method Leave(item: Item, ghost k: nat)
      requires Valid() && item in items
      requires Listed(item) ==> 0 < k < |rings[item.idleTimeout]| && rings[item.idleTimeout][k] == item
      modifies this`lists, this`rings
      modifies items`idleNext, items`idlePrev, lists.Values`idleNext, lists.Values`idlePrev, lists.Values`closed
      ensures Valid() && Loose(item) && !Listed(item)
      ensures lists.Keys == rings.Keys
      ensures var t := item.idleTimeout;
        && rings == (if old(Listed(item)) then Left(old(rings), t, Without(old(rings)[t], k)) else old(rings))
        && lists == (if t in rings then old(lists) else old(lists) - {t})
        && (t in old(lists) && t !in lists ==> old(lists)[t].closed)
    {
      hide Kept, Ring, Distinct, Loose, Alone, Without, Placed, Past, Members;
      ghost var t, r := item.idleTimeout, RingOf(item);
      if Listed(item) {
        Ordered(t);
        StaysArmed(t, lists[t], r, k);
      }
      TakeOut(item, k);
      if item.idleTimeout in lists {
        DropIfEmpty(item.idleTimeout, lists[item.idleTimeout]);
      }
      assert t !in old(lists) ==> old(lists) - {t} == old(lists);
      assert !Listed(item);
    }

    // Takes an item out of its list, and the list out of use if that was the last item.
    method Depart(item: Item)
      requires Valid() && item in items
      modifies this`lists, this`rings
      modifies items`idleNext, items`idlePrev, lists.Values`idleNext, lists.Values`idlePrev, lists.Values`closed
      ensures Valid() && Loose(item) && !Listed(item)
      ensures var t := item.idleTimeout;
        && Waiting(t) == Gone(old(Waiting(t)), item)
        && (forall m | m != t :: Waiting(m) == old(Waiting(m)))
        && (lists == if Waiting(t) == [] then old(lists) - {t} else old(lists))
        && (t in old(lists) && t !in lists ==> old(lists)[t].closed)
    {
      hide Kept, Ring, Distinct, Loose, Alone, Without, Sound, Gone, Left, Armed;
      ghost var t, k, was := item.idleTimeout, Position(item), rings;
      Leaves(item, k);
      WaitingIn(t);
      if Listed(item) {
        LeftBehind(rings, t, Without(rings[t], k));
      }
      Leave(item, k);
    }

    lemma WaitingIn(t: int)
      requires Valid()
      ensures (t in rings <==> Waiting(t) != []) && lists.Keys == rings.Keys
    {
    }

    method Unenroll(item: Item)
      requires Valid() && item in items
      modifies this`lists, this`rings, item`idleTimeout
      modifies items`idleNext, items`idlePrev, lists.Values`idleNext, lists.Values`idlePrev, lists.Values`closed
      ensures Valid() && Loose(item) && !Listed(item) && item.idleTimeout == -1
      ensures var t := old(item.idleTimeout);
        && Waiting(t) == Gone(old(Waiting(t)), item)
        && (forall m | m != t :: Waiting(m) == old(Waiting(m)))
        && (lists == if Waiting(t) == [] then old(lists) - {t} else old(lists))
        && (t in old(lists) && t !in lists ==> old(lists)[t].closed)
    {
      hide Kept, Ring, Distinct, Loose, Alone, Without, Placed, Past, Members, Gone, Armed, Sound;
      Depart(item);
      Retime(item, -1, false);
      assert forall m <- rings :: m in lists && Armed(m, lists[m], rings[m]);
    }

    // A loose item that no list knows joins the items.
    ghost method Admit(item: Item)
      requires Sound() && Loose(item) && item !in items && item !in lists.Values
      modifies this`items
      ensures Sound() && items == old(items) + {item} && !Listed(item)
    {
      hide Kept, Ring, Distinct;
      Apart();
      forall m <- rings ensures item !in rings[m] {
        assert rings[m][0] == lists[m];
        assert forall i :: 1 <= i < |rings[m]| ==> rings[m][i] in items;
      }
      items := items + {item};
    }

    lemma Linked(item: Item)
      requires Sound() && item in items && item.idleNext == null
      ensures Loose(item) && !Listed(item) && Gone(Waiting(item.idleTimeout), item) == Waiting(item.idleTimeout)
    {
      if Listed(item) {
        Ordered(item.idleTimeout);
        var k := Position(item);
        Neighbours(rings[item.idleTimeout], k);
        assert false;
      }
      Leaves(item, 0);
    }

    // Gives an item its timeout, without starting it.
    method Enroll(item: Item, msecs: int)
      requires Valid() && (item in items || (Loose(item) && item !in lists.Values))
      modifies this`lists, this`rings, this`items, item`idleTimeout, item`idleNext, item`idlePrev
      modifies items`idleNext, items`idlePrev, lists.Values`idleNext, lists.Values`idlePrev, lists.Values`closed
      ensures Valid() && Alone(item) && !Listed(item) && item.idleTimeout == msecs && items == old(items) + {item}
      ensures var t := old(item.idleTimeout);
        && Waiting(t) == (if item in old(items) then Gone(old(Waiting(t)), item) else old(Waiting(t)))
        && (forall m | m != t :: Waiting(m) == old(Waiting(m)))
    {
      hide Kept, Ring, Distinct, Alone, Without, Placed, Past, Members, Gone, Armed, Sound;
      if item.idleNext != null {
        Unenroll(item);
      } else if item in items {
        Linked(item);
      } else {
        Admit(item);
      }
      Retime(item, msecs, true);
    }

    // A timer of its own with nothing in its list
    method StartTimer(msecs: int, now: int) returns (list: Item)
      ensures fresh(list) && Kept(msecs, list, [list]) && list.due == now + msecs
    {
      list := new Item(false);
      list.due, list.idleTimeout := now + msecs, msecs;
      Init(list);
    }

    // A list for a timeout that has none
    method NewList(msecs: int, now: int) returns (list: Item)
      requires Sound() && msecs >= 0 && msecs !in lists
      modifies this`lists, this`rings
      ensures Sound() && fresh(list) && list.due == now + msecs
      ensures lists == old(lists)[msecs := list] && rings == old(rings)[msecs := [list]]
    {
      hide Distinct, Kept, Ring;
      list := StartTimer(msecs, now);
      lists := lists[msecs := list];
      rings := rings[msecs := [list]];
    }

    // No timer is due after any item of its list, or after a time to come and the timeout.
    lemma DueBefore(m: int, now: int)
      requires Valid() && m in rings && clock <= now
      ensures forall x <- rings[m][1..] :: lists[m].due <= x.idleStart + m
      ensures lists[m].due <= now + m
    {
      var r := rings[m];
      assert Kept(m, lists[m], r) && Armed(m, lists[m], r);
      assert r[1] in items && Listed(r[1]);
    }

    // Starts an item in a list whose timer is not due after what it waits for.
    method Start(list: Item, item: Item, now: int)
      requires Sound() && item in items && clock <= now
      requires item.idleTimeout in lists && list == lists[item.idleTimeout]
      requires forall m <- rings | m != item.idleTimeout :: m in lists && Armed(m, lists[m], rings[m])
      requires list.due <= now + item.idleTimeout
      requires forall x <- Waiting(item.idleTimeout) :: list.due <= x.idleStart + item.idleTimeout
      modifies this`rings, this`clock, item`idleStart
      modifies items`idleNext, items`idlePrev, lists.Values`idleNext, lists.Values`idlePrev
      ensures Valid() && item.idleStart == now == clock
      ensures Waiting(item.idleTimeout) == Gone(old(Waiting(item.idleTimeout)), item) + [item]
      ensures forall m | m != item.idleTimeout :: Waiting(m) == old(Waiting(m))
    {
      hide Kept, Ring, Distinct, Loose, Alone, Without, Placed, Past, Members, Gone;
      ghost var t, k, before := item.idleTimeout, Position(item), Waiting(item.idleTimeout);
      Leaves(item, k);
      Apart();
      MoveLast(list, item, now, k);
      assert Armed(t, list, rings[t]) by {
        var first := rings[t][1];
        assert first == item || first in before;
        assert first != item ==> first.idleStart == old(first.idleStart);
      }
      Apart();
      assert forall m <- rings | m != t :: m in lists && Armed(m, lists[m], rings[m]);
    }

    // Starts an item, making the list for its timeout where there is none.
    method Insert(item: Item, msecs: int, now: int)
      requires Valid() && item in items && clock <= now && item.idleTimeout == msecs >= 0
      modifies this`lists, this`rings, this`clock, item`idleStart
      modifies items`idleNext, items`idlePrev, lists.Values`idleNext, lists.Values`idlePrev
      ensures Valid() && item.idleStart == now == clock
      ensures Waiting(msecs) == Gone(old(Waiting(msecs)), item) + [item]
      ensures forall m | m != msecs :: Waiting(m) == old(Waiting(m))
      ensures if msecs in old(lists) then lists == old(lists) else
        msecs in lists && fresh(lists[msecs]) && lists[msecs].due == now + msecs &&
          lists == old(lists)[msecs := lists[msecs]]
    {
      hide Kept, Ring, Distinct, Loose, Alone, Without, Placed, Past, Members, Gone, Armed;
      var list;
      if msecs in lists {
        DueBefore(msecs, now);
        list := lists[msecs];
      } else {
        list := NewList(msecs, now);
      }
      Start(list, item, now);
    }

    // Restarts the idle time of an item.
    method Active(item: Item, now: int)
      requires Valid() && item in items && clock <= now
      modifies this`lists, this`rings, this`clock, item`idleStart
      modifies items`idleNext, items`idlePrev, lists.Values`idleNext, lists.Values`idlePrev
      ensures Valid()
      ensures var t := item.idleTimeout;
        && (t < 0 ==> lists == old(lists) && rings == old(rings) && item.idleStart == old(item.idleStart))
        && (t >= 0 ==> item.idleStart == now == clock && Waiting(t) == Gone(old(Waiting(t)), item) + [item])
        && (forall m | m != t :: Waiting(m) == old(Waiting(m)))
        && (if t < 0 || t in old(lists) then lists == old(lists) else
          t in lists && fresh(lists[t]) && lists[t].due == now + t && lists == old(lists)[t := lists[t]])
    {
      hide Kept, Ring, Distinct, Loose, Alone, Without, Placed, Past, Members, Gone;
      var msecs := item.idleTimeout;
      if msecs >= 0 {
        var empty := msecs !in lists;
        if !empty {
          empty := IsEmptyList(msecs);
        }
        if empty {
          Insert(item, msecs, now);
        } else {
          DueBefore(msecs, now);
          Start(lists[msecs], item, now);
        }
      }
    }

    // The most idle item of a list
    method PeekList(m: int) returns (first: Item?)
      requires Sound() && m in lists
      ensures first == if Waiting(m) == [] then null else Waiting(m)[0]
      ensures first != null ==> first in items && first.idleTimeout == m && Listed(first) && rings[m][1] == first
    {
      Ordered(m);
      first := Peek(lists[m], rings[m]);
    }

    ghost predicate OthersArmed(m: int)
      reads this`lists, this`rings, lists.Values`due, set k, i | k in rings && 0 <= i < |rings[k]| :: rings[k][i]
    {
      forall k <- rings | k != m :: k in lists && Armed(k, lists[k], rings[k])
    }

    // Only the ring for one timeout has changed.
    ghost predicate OnlyChanged(m: int, was: map<int, seq<Item>>)
      reads this`rings
    {
      rings.Keys == was.Keys && forall k <- rings | k != m :: rings[k] == was[k]
    }

    lemma OnlyChangedWaiting(m: int, was: map<int, seq<Item>>)
      requires OnlyChanged(m, was)
      ensures forall k | k != m :: Waiting(k) == Behind(was, k)
    {
    }

    lemma AllArmed(m: int)
      requires Valid()
      ensures Sound() && OthersArmed(m) && OnlyChanged(m, rings)
    {
    }

    // One item that is late leaves the front of its list.
    method Expire(m: int, first: Item, ghost was: map<int, seq<Item>>)
      requires Sound() && m in lists && Waiting(m) != [] && first == Waiting(m)[0]
      requires OthersArmed(m) && OnlyChanged(m, was)
      modifies this`rings, items`idleNext, items`idlePrev, lists.Values`idleNext, lists.Values`idlePrev
      ensures Sound() && Loose(first) && OthersArmed(m) && OnlyChanged(m, was)
      ensures Waiting(m) == old(Waiting(m))[1..]
    {
      hide Kept, Ring, Distinct, Loose, Alone, Placed, Past, Armed;
      Ordered(m);
      assert Listed(first) && rings[m][1] == first && first.idleTimeout == m by {
        Apart();
      }
      TakeOut(first, 1);
    }

    // Sets the timer of a list for its most idle item.
    method Rearm(m: int, list: Item, due: int)
      requires Sound() && m in lists && list == lists[m] && Waiting(m) != [] && due == Waiting(m)[0].idleStart + m
      requires OthersArmed(m)
      modifies list`due
      ensures Valid() && list.due == due
    {
      hide Kept, Ring, Distinct, Loose, Alone, Placed, Past, Members;
      Apart();
      assert |rings[m]| > 1;
      assert list in rings[m] && list.idleTimeout == m;
      forall k <- rings | k != m ensures k in lists && Armed(k, lists[k], rings[k]) {
        assert lists[k] in rings[k];
      }
      list.due := due;
      forall k <- rings | k != m ensures k in lists && Armed(k, lists[k], rings[k]) {
        assert lists[k] in rings[k];
      }
      assert Armed(m, list, rings[m]);
    }

    // Gives up a list that has run empty.
    method Finish(m: int, list: Item, ghost was: map<int, seq<Item>>)
      requires Sound() && m in lists && list == lists[m] && Waiting(m) == [] && OthersArmed(m) && OnlyChanged(m, was)
      modifies this`lists, this`rings, list`closed
      ensures Valid() && lists == old(lists) - {m} && list.closed
      ensures Waiting(m) == [] && forall k | k != m :: Waiting(k) == Behind(was, k)
    {
      hide Kept, Ring, Distinct, Loose, Alone, Placed, Past, Members, Armed;
      OnlyChangedWaiting(m, was);
      DropIfEmpty(m, list);
    }

    ghost method Tick(now: int)
      requires Valid() && clock <= now
      modifies this`clock
      ensures Valid() && clock == now
    {
      hide Kept, Ring, Distinct, Loose, Alone, Armed;
      clock := now;
    }

    lemma WaitingInOrder(m: int)
      requires Sound()
      ensures forall x <- Waiting(m) :: x in items
      ensures forall i, j :: 0 <= i < j < |Waiting(m)| ==> Waiting(m)[i].idleStart <= Waiting(m)[j].idleStart
    {
      if m in rings {
        Ordered(m);
      }
    }

    // The late items at the front of a list leave it; first is the one that stops them, if any does.
    method ExpireLate(m: int, now: int, ghost w: seq<Item>, ghost was: map<int, seq<Item>>)
      returns (first: Item?, fired: seq<Item>, ghost n: nat)
      requires Sound() && m in lists && Waiting(m) == w && OthersArmed(m) && OnlyChanged(m, was)
      modifies this`rings, items`idleNext, items`idlePrev, lists.Values`idleNext, lists.Values`idlePrev
      ensures Sound() && OthersArmed(m) && OnlyChanged(m, was)
      ensures AllLate(w, n, m, now) && fired == Firing(w, n) && Waiting(m) == w[n..]
      ensures first == if n == |w| then null else w[n]
      ensures first != null ==> now - first.idleStart + 1 < m
    {
      hide Sound, OthersArmed, OnlyChanged, Loose, AllLate, Firing, Behind;
      Front(w, m, now);
      fired, n := [], 0;
      while true
        invariant Sound() && OthersArmed(m) && OnlyChanged(m, was)
        invariant n <= |w| && Waiting(m) == w[n..] && AllLate(w, n, m, now) && fired == Firing(w, n)
        decreases |w| - n
      {
        first := PeekList(m);
        if first == null {
          return;
        }
        assert first == w[n];
        FrontOn(w, n, m, now);
        var diff := now - first.idleStart;
        if diff + 1 < m {
          return;
        }
        Expire(m, first, was);
        n := n + 1;
        if first.hasCallback {
          fired := fired + [first];
        }
      }
    }

    // What the timer of a list does when it goes off: the late items at the front of the list leave
    // it, and those that have a callback fire. Either an item stays and the timer is set for it, or
    // the list goes.
    method OnTimeout(m: int, now: int) returns (fired: seq<Item>, ghost n: nat)
      requires Valid() && m in lists && clock <= now
      modifies this`lists, this`rings, this`clock
      modifies items`idleNext, items`idlePrev
      modifies lists.Values`idleNext, lists.Values`idlePrev, lists.Values`due, lists.Values`closed
      ensures Valid() && clock == now
      ensures var w := old(Waiting(m));
        && old(LateFront(Waiting(m), n, m, now)) && fired == old(Firing(Waiting(m), n)) && Waiting(m) == w[n..]
        && (forall k | k != m :: Waiting(k) == old(Waiting(k)))
        && (if n == |w| then lists == old(lists) - {m} && old(lists)[m].closed else
          lists == old(lists) && lists[m].due == w[n].idleStart + m)
    {
      hide Sound, OthersArmed, OnlyChanged, Loose, AllLate, LateFront, Firing, Late, Behind;
      ghost var w, was := Waiting(m), rings;
      Tick(now);
      AllArmed(m);
      WaitingInOrder(m);
      var list, first := lists[m], null;
      first, fired, n := ExpireLate(m, now, w, was);
      assert forall x <- w :: x.idleStart == old(x.idleStart) && x.hasCallback == old(x.hasCallback);
      FrontEnds(w, n, m, now);
      assert old(LateFront(w, n, m, now)) && fired == old(Firing(w, n));
      if first == null {
        Finish(m, list, was);
      } else {
        OnlyChangedWaiting(m, was);
        assert Waiting(m)[0] == first;
        var diff := now - first.idleStart;
        var due := now + (m - diff);
        assert due == first.idleStart + m;
        Rearm(m, list, due);
      }
    }
  }

  // The first n items of a queue are late.
  ghost predicate AllLate(w: seq<Item>, n: nat, m: int, now: int)
    reads w`idleStart
  {
    n <= |w| && forall i :: 0 <= i < n ==> Late(w[i], m, now)
  }

  // They are late, and no others are.
  ghost predicate LateFront(w: seq<Item>, n: nat, m: int, now: int)
    reads w`idleStart
  {
    n <= |w| && forall i :: 0 <= i < |w| ==> (Late(w[i], m, now) <==> i < n)
  }

  // Those of them that fire
  ghost function Firing(w: seq<Item>, n: nat): (fired: seq<Item>)
    reads w`hasCallback
  {
    if n <= |w| then WithCallback(w[..n]) else []
  }

  // An item is late one millisecond before its time is up.
  lemma LateIs(item: Item, msecs: int, now: int)
    ensures Late(item, msecs, now) <==> item.idleStart + msecs <= now + 1
  {
  }

  // Of any items in a row those fire, in order, that have a callback.
  lemma {:induction false} WithCallbackApart(s: seq<Item>, t: seq<Item>)
    ensures WithCallback(s + t) == WithCallback(s) + WithCallback(t)
  {
    if t == [] {
      assert s + t == s && WithCallback(s) + [] == WithCallback(s);
    } else {
      var n := |t| - 1;
      WithCallbackApart(s, t[..n]);
      var u := s + t;
      assert u[..|s| + n] == s + t[..n] && u[|s| + n] == t[n] && |u| == |s| + n + 1;
      var last := if t[n].hasCallback then [t[n]] else [];
      assert WithCallback(s) + (WithCallback(t[..n]) + last) == WithCallback(s) + WithCallback(t[..n]) + last;
    }
  }

  lemma WithCallbackOfOne(item: Item)
    ensures WithCallback([item]) == if item.hasCallback then [item] else []
  {
    assert [item][..0] == [];
  }

  lemma Front(w: seq<Item>, m: int, now: int)
    ensures AllLate(w, 0, m, now) && Firing(w, 0) == []
  {
  }

  lemma FrontOn(w: seq<Item>, n: nat, m: int, now: int)
    requires AllLate(w, n, m, now) && n < |w|
    ensures now - w[n].idleStart + 1 >= m ==> AllLate(w, n + 1, m, now)
    ensures Firing(w, n + 1) == Firing(w, n) + if w[n].hasCallback then [w[n]] else []
  {
    assert w[..n + 1][..n] == w[..n];
  }

  lemma FrontEnds(w: seq<Item>, n: nat, m: int, now: int)
    requires AllLate(w, n, m, now)
    requires n < |w| ==> now - w[n].idleStart + 1 < m
    requires forall i, j :: 0 <= i < j < |w| ==> w[i].idleStart <= w[j].idleStart
    ensures LateFront(w, n, m, now)
  {
  }
}
