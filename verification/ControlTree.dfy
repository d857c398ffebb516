/** The walk over the control tree of the device in mpxg2-dev/lexicon.js: an odometer of levels and
    a stack of limits, against recursive preorder.

    Requests and their answers become reads of the device's tree. */
module ControlTree {

  type Address = seq<nat>

  // An object of the device: a parameter, or a control level with its children 0 to max
  datatype Tree = Parameter(objectType: nat) | Level(objectType: nat, children: seq<Tree>)

  predicate Wellformed(t: Tree) {
    t.Level? ==> t.children != [] && forall child <- t.children :: Wellformed(child)
  }

  // The control levels on the way to an object
  function Height(t: Tree): (h: nat)
    ensures t.Level? ==> forall i :: 0 <= i < |t.children| ==> Height(t.children[i]) < h
  {
    if t.Parameter? then 0 else 1 + Highest(t.children)
  }

  function Highest(ts: seq<Tree>): (h: nat)
    ensures forall i :: 0 <= i < |ts| ==> Height(ts[i]) <= h
  {
    if ts == [] then 0
    else
      var a, b := Height(ts[0]), Highest(ts[1..]);
      if a > b then a else b
  }

  predicate Exists(t: Tree, a: Address) {
    a == [] || (t.Level? && a[0] < |t.children| && Exists(t.children[a[0]], a[1..]))
  }

  function At(t: Tree, a: Address): (s: Tree)
    requires Exists(t, a)
  {
    if a == [] then t else At(t.children[a[0]], a[1..])
  }

  // ---------------------------------------------------------------------------------------------
  // Preorder

  function Preorder(t: Tree, base: Address): (r: seq<Address>)
    decreases t, if t.Level? then |t.children| + 2 else 0
  {
    [base] + if t.Parameter? then [] else Siblings(t, 0, base)
  }

  // The children from one on, with what is below them
  function Siblings(t: Tree, from: nat, base: Address): (r: seq<Address>)
    requires t.Level? && from <= |t.children|
    decreases t, |t.children| - from + 1
  {
    if from == |t.children| then [] else Preorder(t.children[from], base + [from]) + Siblings(t, from + 1, base)
  }

  // What comes after an object and what is below it
  function After(t: Tree, a: Address, base: Address): (r: seq<Address>)
    requires Exists(t, a)
  {
    if a == [] then [] else After(t.children[a[0]], a[1..], base + [a[0]]) + Siblings(t, a[0] + 1, base)
  }

  // What comes from an object on
  function From(t: Tree, a: Address, base: Address): (r: seq<Address>)
    requires Exists(t, a)
  {
    if a == [] then Preorder(t, base)
    else From(t.children[a[0]], a[1..], base + [a[0]]) + Siblings(t, a[0] + 1, base)
  }

  // Of a parameter, what comes after it follows it; of a level, its first child does.
  lemma {:induction false} FromHere(t: Tree, a: Address, base: Address)
    requires Exists(t, a) && Wellformed(t)
    ensures Wellformed(At(t, a))
    ensures At(t, a).Parameter? ==> From(t, a, base) == [base + a] + After(t, a, base)
    ensures At(t, a).Level? ==>
      && At(t, a).children != [] && Exists(t, a + [0])
      && From(t, a, base) == [base + a] + From(t, a + [0], base)
  {
    if a == [] {
      assert base + a == base;
      if t.Level? {
        var first: Address := a + [0];
        assert first[0] == 0 && first[1..] == [];
        assert From(t, first, base) == Siblings(t, 0, base);
      }
    } else {
      var child := t.children[a[0]];
      FromHere(child, a[1..], base + [a[0]]);
      assert base + [a[0]] + a[1..] == base + a;
      if At(t, a).Level? {
        assert (a + [0])[1..] == a[1..] + [0];
      }
    }
  }

  // After an object comes its next sibling, or what comes after its parent.
  lemma {:induction false} AfterHere(t: Tree, a: Address, base: Address)
    requires Exists(t, a) && a != []
    ensures var n := |a| - 1;
      && Exists(t, a[..n]) && At(t, a[..n]).Level? && a[n] < |At(t, a[..n]).children|
      && if a[n] + 1 < |At(t, a[..n]).children|
         then Exists(t, a[..n] + [a[n] + 1]) && After(t, a, base) == From(t, a[..n] + [a[n] + 1], base)
         else After(t, a, base) == After(t, a[..n], base)
  {
    var n := |a| - 1;
    if n == 0 {
      assert a[1..] == [] && a[..0] == [];
      var next := [a[0] + 1];
      assert a[..0] + next == next && next[1..] == [];
    } else {
      AfterHere(t.children[a[0]], a[1..], base + [a[0]]);
      assert a[1..][..n - 1] == a[..n][1..];
      var next := a[..n] + [a[n] + 1];
      assert next[1..] == a[1..][..n - 1] + [a[n] + 1];
    }
  }

  // How often an address occurs below an object, or below its children from one on
  function Under(t: Tree, base: Address, a: Address): (n: nat) {
    if |base| <= |a| && a[..|base|] == base && Exists(t, a[|base|..]) then 1 else 0
  }

  lemma UnderChild(t: Tree, k: nat, base: Address, a: Address)
    requires t.Level? && k < |t.children|
    ensures Under(t.children[k], base + [k], a) == if |base| < |a| && a[|base|] == k then Under(t, base, a) else 0
  {
    var n := |base|;
    if n < |a| {
      assert a[..n + 1] == a[..n] + [a[n]];
      assert a[n..][1..] == a[n + 1..];
      assert a[..n + 1] == base + [k] <==> a[..n] == base && a[n] == k by {
        assert (base + [k])[..n] == base && (base + [k])[n] == k;
      }
    }
  }

  function Count(r: seq<Address>, a: Address): (n: nat) {
    multiset(r)[a]
  }

  // Preorder visits every address of the tree, and nothing else, exactly once.
  lemma {:induction false} ExactlyOnce(t: Tree, base: Address, a: Address)
    ensures Count(Preorder(t, base), a) == Under(t, base, a)
    decreases t, if t.Level? then |t.children| + 2 else 0
  {
    var rest := if t.Parameter? then [] else Siblings(t, 0, base);
    assert Count([base] + rest, a) == Count([base], a) + Count(rest, a);
    if t.Level? {
      ExactlyOnceSiblings(t, 0, base, a);
    }
    if a == base {
      assert a[..|base|] == base && a[|base|..] == [];
    } else if |base| <= |a| && a[..|base|] == base {
      assert a == base + a[|base|..];
    }
  }

  lemma {:induction false} ExactlyOnceSiblings(t: Tree, from: nat, base: Address, a: Address)
    requires t.Level? && from <= |t.children|
    ensures Count(Siblings(t, from, base), a) == if |base| < |a| && from <= a[|base|] then Under(t, base, a) else 0
    decreases t, |t.children| - from + 1
  {
    if from < |t.children| {
      var first, rest := Preorder(t.children[from], base + [from]), Siblings(t, from + 1, base);
      assert Count(first + rest, a) == Count(first, a) + Count(rest, a);
      ExactlyOnce(t.children[from], base + [from], a);
      ExactlyOnceSiblings(t, from + 1, base, a);
      UnderChild(t, from, base, a);
    } else if |base| < |a| && from <= a[|base|] {
      assert a[|base|..][0] == a[|base|];
    }
  }

  // ---------------------------------------------------------------------------------------------
  // The walk

  class Walk {
    const root: Tree
    // The address of the current object, padded with zeros
    const levels: array<nat>
    var numLevels: nat
    // The limits of the levels on the way
    var stack: seq<nat>
    // The object types found
    var controlTree: map<Address, nat>
    ghost var visited: seq<Address>

    constructor (root: Tree, numberOfControlLevels: nat)
      requires Wellformed(root)
      ensures fresh(levels) && Valid() && Pending() == Preorder(root, []) && visited == [] && controlTree == map[]
      ensures this.root == root && levels.Length == numberOfControlLevels
    {
      this.root := root;
      levels := new nat[numberOfControlLevels](_ => 0);
      numLevels, stack, controlTree, visited := 0, [], map[], [];
    }

    ghost function Current(): (a: Address)
      requires numLevels <= levels.Length
      reads this, levels
    {
      levels[..numLevels]
    }

    // The address is one of the tree, with zeros beyond it, and the stack holds the limits on the
    // way to it.
    ghost predicate Valid()
      reads this, levels
    {
      && Wellformed(root)
      && numLevels <= levels.Length && Exists(root, Current())
      && (forall k :: numLevels <= k < levels.Length ==> levels[k] == 0)
      && |stack| == numLevels && Limits(root, Current(), stack)
    }

    // What is still to be visited
    ghost function Pending(): (r: seq<Address>)
      requires Valid()
      reads this, levels
    {
      From(root, Current(), [])
    }

    // Every address visited is stored with its type.
    ghost predicate Stored()
      reads this
    {
      && (forall a <- visited :: a in controlTree)
      && (forall a <- controlTree :: Exists(root, a) && controlTree[a] == At(root, a).objectType)
    }

    // Asks for the type of the current object and stores it.
    method Add() returns (od: Tree)
      requires Valid() && Stored()
      modifies this`controlTree, this`visited
      ensures od == At(root, Current()) && visited == old(visited) + [Current()] && Stored()
    {
      var address := levels[..numLevels];
      od := At(root, address);
      if address !in controlTree || controlTree[address] == 0 {
        controlTree := controlTree[address := od.objectType];
      }
      visited := visited + [address];
    }

    // Goes from a parameter to what comes after it.
    method Advance() returns (done: bool)
      requires Valid()
      modifies this`numLevels, this`stack, levels
      ensures if done
        then After(root, old(Current()), []) == [] && forall k :: 0 <= k < levels.Length ==> levels[k] == 0
        else Valid() && Pending() == After(root, old(Current()), [])
    {
      hide Exists, At, From, After, Limits, Height, Wellformed, Preorder;
      done := false;
      ghost var here := Current();
      AfterRoot(root);
      if |stack| == 0 {
        return true;
      }
      while true
        invariant Valid() && |stack| > 0 && After(root, Current(), []) == After(root, here, [])
        decreases |stack|
      {
        var n := numLevels - 1;
        ghost var a := Current();
        AfterHere(root, a, []);
        LimitsHere(root, a, stack);
        if levels[n] < stack[n] {
          levels[n] := levels[n] + 1;
          assert Current() == a[..n] + [a[n] + 1];
          break;
        }
        levels[n] := 0;
        stack := stack[..n];
        if |stack| == 0 {
          return true;
        }
        numLevels := n;
        assert Current() == a[..n];
      }
    }

    // Visits the current object and goes on to the next one. The odometer may lack a level for the
    // next one: the original would then count a level more in its request than it sends.
    method Step() returns (done: bool, lacking: bool)
      requires Valid() && Stored()
      modifies this`controlTree, this`visited, this`numLevels, this`stack, levels
      ensures Stored() && visited == old(visited) + [old(Current())]
      ensures lacking <==> old(numLevels) == levels.Length && At(root, old(Current())).Level?
      ensures old(Pending()) != [] && old(Pending())[0] == old(Current()) && !(done && lacking)
      ensures !lacking ==>
        if done then old(Pending()) == [old(Current())] && forall k :: 0 <= k < levels.Length ==> levels[k] == 0
        else Valid() && old(Pending()) == [old(Current())] + Pending()
    {
      hide Exists, At, From, After, Limits, Height, Wellformed, Preorder;
      ghost var a := Current();
      FromHere(root, a, []);
      assert [] + a == a;
      var od := Add();
      done, lacking := false, od.Level? && numLevels == levels.Length;
      if lacking {
        return;
      }
      if od.Level? {
        LimitsDown(root, a, stack);
        stack := stack + [|od.children| - 1];
        numLevels := numLevels + 1;
        assert Current() == a + [0];
      } else {
        done := Advance();
      }
    }

    // Walks over the whole tree, if and only if the odometer has room for its depth; otherwise over
    // the first part of it.
    method Build() returns (complete: bool)
      requires Valid() && Stored() && visited == [] && Pending() == Preorder(root, [])
      modifies this`controlTree, this`visited, this`numLevels, this`stack, levels
      ensures complete <==> Height(root) <= levels.Length
      ensures Stored() && visited <= Preorder(root, [])
      ensures complete ==> visited == Preorder(root, [])
      ensures complete ==> forall a :: Exists(root, a) ==> a in controlTree && controlTree[a] == At(root, a).objectType
    {
      hide Exists, At, From, After, Limits, Height, Wellformed, Preorder, NotDeeper, Stored;
      var done, lacking := false, false;
      ghost var left := Pending();
      NotDeeperNone(levels.Length);
      while !done && !lacking
        invariant Stored() && visited + left == Preorder(root, [])
        invariant done ==> left == []
        invariant !done && !lacking ==> Valid() && Pending() == left
        invariant lacking ==> Height(root) > levels.Length && !done
        invariant NotDeeper(visited, levels.Length)
        decreases |left|, !done, !lacking
      {
        ghost var a := Current();
        if At(root, a).Level? {
          DeeperThan(root, a);
        }
        NotDeeperSnoc(visited, a, levels.Length);
        ghost var before := visited;
        done, lacking := Step();
        Moved(before, left);
        left := left[1..];
      }
      complete := done;
      if complete {
        StoredAll();
        AsHighAsVisited(root, visited, levels.Length);
      }
    }

    lemma StoredAll()
      requires Stored() && visited == Preorder(root, [])
      ensures forall a :: Exists(root, a) ==> a in visited
      ensures forall a :: Exists(root, a) ==> a in controlTree && controlTree[a] == At(root, a).objectType
    {
      hide Exists, At, Preorder;
      Everything(root, visited);
    }
  }

  // A tree of one level, for a device that reports none
  method TooDeep() returns (walk: Walk, complete: bool)
    ensures !complete && Height(walk.root) == 1 && walk.levels.Length == 0
  {
    var root := Level(1, [Parameter(2)]);
    assert root.children[1..] == [] && Highest([]) == 0;
    walk := new Walk(root, 0);
    complete := walk.Build();
  }

  lemma Moved(visited: seq<Address>, left: seq<Address>)
    requires left != []
    ensures visited + [left[0]] + left[1..] == visited + left
  {
  }

  lemma Everything(t: Tree, visited: seq<Address>)
    requires visited == Preorder(t, [])
    ensures forall a :: Exists(t, a) ==> a in visited
  {
    hide Exists, Preorder;
    forall a | Exists(t, a) ensures a in visited {
      ExactlyOnce(t, [], a);
      assert a[0..] == a && a[..0] == [];
    }
  }

  predicate NotDeeper(visited: seq<Address>, n: nat) {
    forall a <- visited :: |a| <= n
  }

  lemma NotDeeperNone(n: nat)
    ensures NotDeeper([], n)
  {
  }

  lemma NotDeeperSnoc(visited: seq<Address>, a: Address, n: nat)
    requires NotDeeper(visited, n) && |a| <= n
    ensures NotDeeper(visited + [a], n)
  {
  }

  // A control level makes the tree higher than it is deep.
  lemma DeeperThan(t: Tree, a: Address)
    requires Exists(t, a) && At(t, a).Level?
    ensures Height(t) > |a|
  {
    Room(t, a);
    LevelHeight(At(t, a));
  }

  lemma AsHighAsVisited(t: Tree, visited: seq<Address>, n: nat)
    requires Wellformed(t) && NotDeeper(visited, n) && forall a :: Exists(t, a) ==> a in visited
    ensures Height(t) <= n
  {
    hide Exists;
    var a := Deepest(t);
  }

  // Some object is as deep as the tree is high.
  lemma {:induction false} Deepest(t: Tree) returns (a: Address)
    requires Wellformed(t)
    ensures Exists(t, a) && |a| == Height(t)
  {
    if t.Parameter? {
      return [];
    }
    var i := HighestAt(t.children);
    assert t.children[i] in t.children;
    var rest := Deepest(t.children[i]);
    a := [i] + rest;
    assert a[1..] == rest;
  }

  lemma {:induction false} HighestAt(ts: seq<Tree>) returns (i: nat)
    requires ts != []
    ensures i < |ts| && Height(ts[i]) == Highest(ts)
  {
    if |ts| == 1 || Height(ts[0]) > Highest(ts[1..]) {
      return 0;
    }
    i := HighestAt(ts[1..]);
    i := i + 1;
  }

  // The largest child index of every level on the way to an object
  ghost predicate Limits(t: Tree, a: Address, limits: seq<nat>)
    requires Exists(t, a)
  {
    |limits| == |a| && (a != [] ==> limits[0] == |t.children| - 1 && Limits(t.children[a[0]], a[1..], limits[1..]))
  }

  lemma {:induction false} LimitsDown(t: Tree, a: Address, limits: seq<nat>)
    requires Exists(t, a) && Limits(t, a, limits) && Wellformed(t) && At(t, a).Level? && At(t, a).children != []
    ensures Exists(t, a + [0]) && Limits(t, a + [0], limits + [|At(t, a).children| - 1])
  {
    if a == [] {
      var first: Address := a + [0];
      assert first[1..] == [] && first[0] == 0;
      assert (limits + [|t.children| - 1])[1..] == [];
    } else {
      LimitsDown(t.children[a[0]], a[1..], limits[1..]);
      assert (a + [0])[1..] == a[1..] + [0];
      assert (limits + [|At(t, a).children| - 1])[1..] == limits[1..] + [|At(t, a).children| - 1];
    }
  }

  lemma {:induction false} LimitsHere(t: Tree, a: Address, limits: seq<nat>)
    requires Exists(t, a) && Limits(t, a, limits) && a != []
    ensures var n := |a| - 1;
      && Exists(t, a[..n]) && At(t, a[..n]).Level? && Limits(t, a[..n], limits[..n])
      && limits[n] == |At(t, a[..n]).children| - 1
      && forall k: nat :: k <= limits[n] ==> Exists(t, a[..n] + [k]) && Limits(t, a[..n] + [k], limits)
  {
    var n := |a| - 1;
    if n == 0 {
      assert a[..0] == [] && limits[..0] == [] && limits[1..] == [];
      forall k: nat | k <= limits[n] ensures Exists(t, a[..n] + [k]) && Limits(t, a[..n] + [k], limits) {
        assert (a[..n] + [k])[1..] == [];
      }
    } else {
      LimitsHere(t.children[a[0]], a[1..], limits[1..]);
      assert a[1..][..n - 1] == a[..n][1..] && limits[1..][..n - 1] == limits[..n][1..];
      forall k: nat | k <= limits[n] ensures Exists(t, a[..n] + [k]) && Limits(t, a[..n] + [k], limits) {
        assert (a[..n] + [k])[1..] == a[1..][..n - 1] + [k];
      }
    }
  }

  lemma LevelHeight(t: Tree)
    requires t.Level?
    ensures Height(t) > 0
  {
  }

  lemma AfterRoot(t: Tree)
    ensures Exists(t, []) && After(t, [], []) == []
  {
  }

  // There is a level left below every control level.
  lemma {:induction false} Room(t: Tree, a: Address)
    requires Exists(t, a)
    ensures |a| + Height(At(t, a)) <= Height(t)
  {
    if a != [] {
      Room(t.children[a[0]], a[1..]);
    }
  }
}
