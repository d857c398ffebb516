/** Tags in a text and the merging of an element's own tags with highlighting tags:
    sh_mergeTags of doc/sh_main.js.

    Highlighting nodes are spans; the nodes of the element itself are opaque. */
module MergeTags {

  datatype Node = Element(id: int) | Span(style: string)

  // A start tag opens its node just before a position in the text; an end tag closes the last one.
  datatype Tag = Start(node: Node, pos: int) | End(pos: int)

  datatype Nesting = Unbalanced | Open(nodes: seq<Node>)

  // The nodes open at a character once the tags up to it have been inserted, the outermost first
  function Nest(tags: seq<Tag>, at: int, nodes: seq<Node>): (r: Nesting) {
    if tags == [] || tags[0].pos > at then Open(nodes)
    else match tags[0]
      case Start(node, _) => Nest(tags[1..], at, nodes + [node])
      case End(_) => if nodes == [] then Unbalanced else Nest(tags[1..], at, nodes[..|nodes| - 1])
  }

  predicate Sorted(tags: seq<Tag>) {
    forall i :: 0 < i < |tags| ==> tags[i - 1].pos <= tags[i].pos
  }

  predicate UpTo(tags: seq<Tag>, at: int) {
    tags == [] || (tags[0].pos <= at && UpTo(tags[1..], at))
  }

  // Tags that follow one another in a text and leave nothing open at its end
  ghost predicate WellNested(tags: seq<Tag>) {
    Sorted(tags) && forall at :: UpTo(tags, at) ==> Nest(tags, at, []) == Open([])
  }

  // Highlighting tags: pairs around pieces of text, none of them empty, that do not overlap
  predicate Pieces(h: seq<Tag>) {
    |h| >= 2 ==>
      && h[0].Start? && h[0].node.Span? && h[1].End? && h[0].pos < h[1].pos
      && (|h| > 2 ==> h[1].pos <= h[2].pos) && Pieces(h[2..])
  }

  predicate Highlighting(h: seq<Tag>) {
    |h| % 2 == 0 && Pieces(h)
  }

  predicate OfElements(o: seq<Tag>) {
    forall tag <- o :: tag.Start? ==> tag.node.Element?
  }

  // The highlighting of a character
  function Cover(h: seq<Tag>, at: int): (nodes: seq<Node>)
    requires Highlighting(h)
  {
    if h == [] || h[0].pos > at then []
    else if at < h[1].pos then [h[0].node]
    else Cover(h[2..], at)
  }

  function Merged(o: seq<Tag>, h: seq<Tag>): (r: seq<Tag>)
    requires Highlighting(h)
    decreases |o| + |h|, if o != [] && h != [] && h[0].pos < o[0].pos then 1 else 0
  {
    if o == [] then h
    else if h == [] then o
    else if o[0].pos <= h[0].pos then [o[0]] + Merged(o[1..], h)
    else if h[1].pos <= o[0].pos then [h[0], h[1]] + Merged(o, h[2..])
    else [h[0], End(o[0].pos)] + Merged(o, Cut(h, o[0].pos))
  }

  // Highlighting whose first piece starts later
  function Cut(h: seq<Tag>, at: int): (r: seq<Tag>)
    requires Highlighting(h) && h != [] && h[0].pos < at < h[1].pos
    ensures Highlighting(r) && |r| == |h| && r[0] == Start(h[0].node, at) && r[1..] == h[1..]
  {
    assert h[2..] == ([Start(h[0].node, at)] + h[1..])[2..];
    [Start(h[0].node, at)] + h[1..]
  }

  // At every character the merged tags leave open what the element's own tags leave open, and in
  // it what the highlighting has there.
  lemma {:induction false} MergedNest(o: seq<Tag>, h: seq<Tag>, at: int, nodes: seq<Node>)
    requires Sorted(o) && Highlighting(h)
    ensures Nest(Merged(o, h), at, nodes) ==
      match Nest(o, at, nodes) case Unbalanced => Unbalanced case Open(s) => Open(s + Cover(h, at))
    decreases |o| + |h|, if o != [] && h != [] && h[0].pos < o[0].pos then 1 else 0
  {
    var r := Merged(o, h);
    if o == [] {
      NestPieces(h, at, nodes);
    } else if h == [] {
      match Nest(o, at, nodes)
      case Unbalanced =>
      case Open(s) => assert s + [] == s;
    } else if o[0].pos <= h[0].pos {
      assert r[1..] == Merged(o[1..], h);
      if o[0].pos <= at {
        match o[0]
        case Start(node, _) => MergedNest(o[1..], h, at, nodes + [node]);
        case End(_) =>
          if nodes != [] {
            MergedNest(o[1..], h, at, nodes[..|nodes| - 1]);
          }
      }
    } else {
      var end := if h[1].pos <= o[0].pos then h[1].pos else o[0].pos;
      var rest := if h[1].pos <= o[0].pos then h[2..] else Cut(h, o[0].pos);
      NestPair(h[0], end, Merged(o, rest), at, nodes);
      MergedNest(o, rest, at, nodes);
      CoverHead(h, end, rest, at);
    }
  }

  lemma NestPair(start: Tag, end: int, rest: seq<Tag>, at: int, nodes: seq<Node>)
    requires start.Start? && start.pos < end
    ensures Nest([start, End(end)] + rest, at, nodes) ==
      if at < start.pos then Open(nodes) else if at < end then Open(nodes + [start.node]) else Nest(rest, at, nodes)
  {
    var tags := [start, End(end)] + rest;
    assert tags[1..][1..] == rest;
    assert (nodes + [start.node])[..|nodes|] == nodes;
  }

  // The first piece, or as much of it as lies before a cut, and the others
  lemma CoverHead(h: seq<Tag>, end: int, rest: seq<Tag>, at: int)
    requires Highlighting(h) && h != [] && h[0].pos < end
    requires if h[1].pos <= end then end == h[1].pos && rest == h[2..] else rest == Cut(h, end)
    ensures Cover(h, at) == if at < h[0].pos then [] else if at < end then [h[0].node] else Cover(rest, at)
  {
    assert rest != h[2..] ==> rest[2..] == rest[1..][1..] == h[2..];
  }

  lemma {:induction false} NestPieces(h: seq<Tag>, at: int, nodes: seq<Node>)
    requires Highlighting(h)
    ensures Nest(h, at, nodes) == Open(nodes + Cover(h, at))
  {
    if h != [] {
      assert h[1..][1..] == h[2..];
      assert (nodes + [h[0].node])[..|nodes|] == nodes;
      NestPieces(h[2..], at, nodes);
    }
  }

  // The tags of the element itself in a merged list: all but the spans and the tags after them
  function Own(tags: seq<Tag>): (r: seq<Tag>) {
    if tags == [] then []
    else if tags[0].Start? && tags[0].node.Span? then (if |tags| == 1 then [] else Own(tags[2..]))
    else [tags[0]] + Own(tags[1..])
  }

  lemma {:induction false} MergedOwn(o: seq<Tag>, h: seq<Tag>)
    requires OfElements(o) && Highlighting(h)
    ensures Own(Merged(o, h)) == o
    decreases |o| + |h|, if o != [] && h != [] && h[0].pos < o[0].pos then 1 else 0
  {
    var r := Merged(o, h);
    if o == [] {
      OwnOfPieces(h);
    } else if h == [] {
      OwnOfElements(o);
    } else if o[0].pos <= h[0].pos {
      assert r[1..] == Merged(o[1..], h);
      assert o[0] in o;
      MergedOwn(o[1..], h);
    } else {
      var rest := if h[1].pos <= o[0].pos then h[2..] else Cut(h, o[0].pos);
      assert r[2..] == Merged(o, rest);
      MergedOwn(o, rest);
    }
  }

  lemma {:induction false} OwnOfPieces(h: seq<Tag>)
    requires Highlighting(h)
    ensures Own(h) == []
  {
    if h != [] {
      OwnOfPieces(h[2..]);
    }
  }

  lemma {:induction false} OwnOfElements(o: seq<Tag>)
    requires OfElements(o)
    ensures Own(o) == o
  {
    if o != [] {
      assert o[0] in o;
      OwnOfElements(o[1..]);
    }
  }

  // Every span of a merged list is closed by the next tag, at a later position.
  predicate Tight(tags: seq<Tag>) {
    forall i :: 0 <= i < |tags| && tags[i].Start? && tags[i].node.Span? ==>
      i + 1 < |tags| && tags[i + 1].End? && tags[i].pos < tags[i + 1].pos
  }

  lemma {:induction false} PiecesInOrder(h: seq<Tag>)
    requires Highlighting(h)
    ensures Sorted(h) && Tight(h)
  {
    if h != [] {
      PiecesInOrder(h[2..]);
      assert h == h[..2] + h[2..];
    }
  }

  lemma SortedCons(tag: Tag, tags: seq<Tag>)
    requires Sorted(tags) && (tags != [] ==> tag.pos <= tags[0].pos)
    ensures Sorted([tag] + tags)
  {
  }

  lemma SortedPair(start: Tag, end: int, rest: seq<Tag>)
    requires start.pos <= end && Sorted(rest) && (rest != [] ==> end <= rest[0].pos)
    ensures Sorted([start, End(end)] + rest)
  {
    SortedCons(End(end), rest);
    SortedCons(start, [End(end)] + rest);
    assert [start, End(end)] + rest == [start] + ([End(end)] + rest);
  }

  lemma {:induction false} MergedSorted(o: seq<Tag>, h: seq<Tag>)
    requires Sorted(o) && Highlighting(h)
    ensures var r := Merged(o, h);
      Sorted(r) && (r != [] ==> (o != [] && r[0] == o[0]) || (h != [] && r[0] == h[0]))
    decreases |o| + |h|, if o != [] && h != [] && h[0].pos < o[0].pos then 1 else 0
  {
    hide Sorted;
    if o == [] {
      PiecesInOrder(h);
    } else if h != [] {
      if o[0].pos <= h[0].pos {
        SortedRest(o);
        MergedSorted(o[1..], h);
        SortedCons(o[0], Merged(o[1..], h));
      } else {
        var end := if h[1].pos <= o[0].pos then h[1].pos else o[0].pos;
        var rest := if h[1].pos <= o[0].pos then h[2..] else Cut(h, o[0].pos);
        MergedSorted(o, rest);
        SortedPair(h[0], end, Merged(o, rest));
      }
    }
  }

  lemma SortedRest(tags: seq<Tag>)
    requires Sorted(tags) && tags != []
    ensures Sorted(tags[1..]) && (|tags| > 1 ==> tags[0].pos <= tags[1].pos)
  {
  }

  lemma TightPair(start: Tag, end: int, rest: seq<Tag>)
    requires start.Start? && start.pos < end && Tight(rest)
    ensures Tight([start, End(end)] + rest)
  {
    var tags := [start, End(end)] + rest;
    assert forall i :: 2 <= i < |tags| ==> tags[i] == rest[i - 2];
  }

  lemma {:induction false} MergedTight(o: seq<Tag>, h: seq<Tag>)
    requires OfElements(o) && Highlighting(h)
    ensures Tight(Merged(o, h))
    decreases |o| + |h|, if o != [] && h != [] && h[0].pos < o[0].pos then 1 else 0
  {
    if o == [] {
      PiecesInOrder(h);
    } else if h != [] {
      if o[0].pos <= h[0].pos {
        MergedTight(o[1..], h);
        assert o[0] in o;
        assert forall i :: 1 <= i < |Merged(o, h)| ==> Merged(o, h)[i] == Merged(o[1..], h)[i - 1];
      } else {
        var end := if h[1].pos <= o[0].pos then h[1].pos else o[0].pos;
        var rest := if h[1].pos <= o[0].pos then h[2..] else Cut(h, o[0].pos);
        MergedTight(o, rest);
        TightPair(h[0], end, Merged(o, rest));
      }
    }
  }

  lemma {:induction false} CoverAfter(h: seq<Tag>, at: int)
    requires Highlighting(h) && UpTo(h, at)
    ensures Cover(h, at) == []
  {
    if h != [] {
      assert h[1..][0] == h[1] && h[1..][1..] == h[2..];
      CoverAfter(h[2..], at);
    }
  }

  // Nothing ends after a merged list.
  lemma {:induction false} MergedUpTo(o: seq<Tag>, h: seq<Tag>, at: int)
    requires Highlighting(h) && UpTo(Merged(o, h), at)
    ensures UpTo(o, at) && UpTo(h, at)
    decreases |o| + |h|, if o != [] && h != [] && h[0].pos < o[0].pos then 1 else 0
  {
    if o != [] && h != [] {
      var r := Merged(o, h);
      if o[0].pos <= h[0].pos {
        assert r[1..] == Merged(o[1..], h);
        MergedUpTo(o[1..], h, at);
      } else {
        var rest := if h[1].pos <= o[0].pos then h[2..] else Cut(h, o[0].pos);
        assert r[1..][0] == r[1] && r[1..][1..] == Merged(o, rest);
        MergedUpTo(o, rest, at);
        assert h[1..][1..] == h[2..];
      }
    }
  }

  // Merging keeps tags well nested.
  lemma MergedWellNested(o: seq<Tag>, h: seq<Tag>)
    requires WellNested(o) && Highlighting(h)
    ensures WellNested(Merged(o, h))
  {
    var r := Merged(o, h);
    MergedSorted(o, h);
    forall at | UpTo(r, at) ensures Nest(r, at, []) == Open([]) {
      MergedUpTo(o, h, at);
      MergedNest(o, h, at, []);
      CoverAfter(h, at);
    }
  }

  // A tag that ends nothing is never made good by later ones.
  lemma {:induction false} UnbalancedLater(tags: seq<Tag>, at: int, later: int, nodes: seq<Node>)
    requires at <= later && Nest(tags, at, nodes).Unbalanced?
    ensures Nest(tags, later, nodes).Unbalanced?
  {
    match tags[0]
    case Start(node, _) => UnbalancedLater(tags[1..], at, later, nodes + [node]);
    case End(_) =>
      if nodes != [] {
        UnbalancedLater(tags[1..], at, later, nodes[..|nodes| - 1]);
      }
  }

  lemma {:induction false} UpToLater(tags: seq<Tag>, at: int, later: int)
    requires UpTo(tags, at) && at <= later
    ensures UpTo(tags, later)
  {
    if tags != [] {
      UpToLater(tags[1..], at, later);
    }
  }

  // Tags end somewhere, after any given position.
  lemma {:induction false} EndsSomewhere(tags: seq<Tag>, at: int) returns (end: int)
    ensures at <= end && UpTo(tags, end)
  {
    if tags == [] {
      return at;
    }
    end := EndsSomewhere(tags[1..], at);
    if end < tags[0].pos {
      UpToLater(tags[1..], end, tags[0].pos);
      end := tags[0].pos;
    }
  }

  // Well nested tags are balanced at every character.
  lemma AlwaysOpen(tags: seq<Tag>, at: int)
    requires WellNested(tags)
    ensures Nest(tags, at, []).Open?
  {
    if Nest(tags, at, []).Unbalanced? {
      var end := EndsSomewhere(tags, at);
      UnbalancedLater(tags, at, end, []);
    }
  }

  // One step of the merging: `out` comes out, and o1 and h1 remain.
  ghost predicate Step(o: seq<Tag>, h: seq<Tag>, out: seq<Tag>, o1: seq<Tag>, h1: seq<Tag>)
    requires Highlighting(h)
  {
    Highlighting(h1) && Merged(o, h) == out + Merged(o1, h1)
  }

  lemma Steps(o: seq<Tag>, h: seq<Tag>)
    requires Highlighting(h) && o != [] && h != []
    ensures |h| >= 2 && h[0].Start? && h[0].node.Span?
    ensures o[0].pos <= h[0].pos ==> Step(o, h, [o[0]], o[1..], h)
    ensures h[0].pos < o[0].pos && h[1].pos <= o[0].pos ==> Step(o, h, [h[0], h[1]], o, h[2..])
    ensures h[0].pos < o[0].pos < h[1].pos ==> Step(o, h, [h[0], End(o[0].pos)], o, Cut(h, o[0].pos))
  {
  }

  // Merges until the tags of one kind are used up.
  method Interleave(originalTags: seq<Tag>, highlightTags: array<Tag>)
    returns (result: seq<Tag>, originalIndex: nat, highlightIndex: nat)
    requires Highlighting(highlightTags[..])
    modifies highlightTags
    ensures originalIndex <= |originalTags| && highlightIndex <= highlightTags.Length
    ensures var o, h := originalTags[originalIndex..], highlightTags[highlightIndex..];
      (o == [] || h == []) && result + (o + h) == Merged(originalTags, old(highlightTags[..]))
  {
    hide Merged, Highlighting, Pieces;
    ghost var all := Merged(originalTags, highlightTags[..]);
    result, originalIndex, highlightIndex := [], 0, 0;
    ghost var o, h := originalTags, highlightTags[..];
    while originalIndex < |originalTags| && highlightIndex < highlightTags.Length
      invariant 0 <= originalIndex <= |originalTags| && 0 <= highlightIndex <= highlightTags.Length
      invariant o == originalTags[originalIndex..] && h == highlightTags[highlightIndex..]
      invariant Highlighting(h) && result + Merged(o, h) == all
      decreases |o| + |h|, if o != [] && h != [] && h[0].pos < o[0].pos then 1 else 0
    {
      var originalTag, highlightTag := originalTags[originalIndex], highlightTags[highlightIndex];
      Steps(o, h);
      ghost var before, out, o1, h1 := result, [o[0]], o, h;
      if originalTag.pos <= highlightTag.pos {
        result := result + [originalTag];
        originalIndex := originalIndex + 1;
        o1 := o[1..];
      } else {
        result := result + [highlightTag];
        assert h[1] == highlightTags[highlightIndex + 1];
        if highlightTags[highlightIndex + 1].pos <= originalTag.pos {
          highlightIndex := highlightIndex + 1;
          result := result + [highlightTags[highlightIndex]];
          highlightIndex := highlightIndex + 1;
          out, h1 := [h[0], h[1]], h[2..];
        } else {
          // new end tag
          result := result + [End(originalTag.pos)];
          // new start tag
          highlightTags[highlightIndex] := Start(highlightTag.node, originalTag.pos);
          out, h1 := [h[0], End(originalTag.pos)], Cut(h, originalTag.pos);
          assert highlightTags[highlightIndex..] == h1;
        }
      }
      assert result == before + out;
      assert Step(o, h, out, o1, h1);
      o, h := o1, h1;
      Moved(before, out, Merged(o, h));
    }
    Ends(o, h);
  }

  method Merge(originalTags: seq<Tag>, highlightTags: array<Tag>) returns (result: seq<Tag>)
    requires Highlighting(highlightTags[..])
    modifies highlightTags
    ensures result == Merged(originalTags, old(highlightTags[..]))
  {
    hide Merged, Highlighting, Pieces;
    Ends(originalTags, highlightTags[..]);
    if |originalTags| == 0 {
      return highlightTags[..];
    }
    if highlightTags.Length == 0 {
      return originalTags;
    }
    var originalIndex, highlightIndex;
    result, originalIndex, highlightIndex := Interleave(originalTags, highlightTags);
    ghost var o, h, done := originalTags[originalIndex..], highlightTags[highlightIndex..], result;
    while originalIndex < |originalTags|
      invariant 0 <= originalIndex <= |originalTags|
      invariant result + originalTags[originalIndex..] == done + o
    {
      result := result + [originalTags[originalIndex]];
      originalIndex := originalIndex + 1;
    }
    assert originalTags[originalIndex..] == [] && result == done + o;
    done := result;
    while highlightIndex < highlightTags.Length
      invariant 0 <= highlightIndex <= highlightTags.Length
      invariant result + highlightTags[highlightIndex..] == done + h
    {
      result := result + [highlightTags[highlightIndex]];
      highlightIndex := highlightIndex + 1;
    }
    assert highlightTags[highlightIndex..] == [] && result == done + h;
  }

  lemma Ends(o: seq<Tag>, h: seq<Tag>)
    requires Highlighting(h)
    ensures o == [] ==> Merged(o, h) == h == o + h
    ensures h == [] ==> Merged(o, h) == o == o + h
  {
  }

  lemma Moved(a: seq<Tag>, b: seq<Tag>, c: seq<Tag>)
    ensures a + b + c == a + (b + c)
  {
  }
}
