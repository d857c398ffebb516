/** The highlighting of a text: sh_highlightString of doc/sh_main.js.

    A regular expression is what it matches at each index of a line. */
module Highlighter {
  import opened Wrappers
  import opened MergeTags

  type Style = Option<string>
  type Regex = (string, nat) -> Option<seq<string>>

  // The groups of a match, the whole match being the first
  datatype Match = Match(index: nat, groups: seq<string>)

  datatype Styling = Whole(style: Style) | Parts(styles: seq<Style>)

  // What follows a match: nothing (-1), the end of a state (-2) or of all states (-3), or a state
  datatype Pattern = Pattern(regex: Regex, styling: Styling, next: int, isState: bool)

  type Language = seq<seq<Pattern>>

  // ---------------------------------------------------------------------------------------------
  // Searching

  // The leftmost match of a regular expression from an index on
  function Exec(regex: Regex, line: string, from: nat): (r: Option<Match>)
    requires from <= |line|
    ensures r.None? ==> forall k: nat :: from <= k <= |line| ==> regex(line, k).None?
    ensures r.Some? ==> from <= r.value.index <= |line| && regex(line, r.value.index) == Some(r.value.groups)
    ensures r.Some? ==> forall k: nat :: from <= k < r.value.index ==> regex(line, k).None?
    decreases |line| - from
  {
    match regex(line, from)
    case Some(groups) => Some(Match(from, groups))
    case None => if from == |line| then None else Exec(regex, line, from + 1)
  }

  // The earliest match of the first n patterns of a state, of the first pattern that has one there
  function Leftmost(state: seq<Pattern>, line: string, from: nat, n: nat): (r: Option<(nat, Match)>)
    requires from <= |line| && n <= |state|
    ensures r.None? ==> forall j :: 0 <= j < n ==> Exec(state[j].regex, line, from).None?
    ensures r.Some? ==>
      && r.value.0 < n && Exec(state[r.value.0].regex, line, from) == Some(r.value.1)
      && forall j :: 0 <= j < n && Exec(state[j].regex, line, from).Some? ==>
        var index := Exec(state[j].regex, line, from).value.index;
        r.value.1.index < index || (r.value.1.index == index && r.value.0 <= j)
  {
    if n == 0 then None
    else
      var best, last := Leftmost(state, line, from, n - 1), Exec(state[n - 1].regex, line, from);
      if last.Some? && (best.None? || last.value.index < best.value.1.index) then Some((n - 1, last.value)) else best
  }

  lemma LeftmostNext(state: seq<Pattern>, line: string, from: nat, i: nat)
    requires from <= |line| && i < |state|
    ensures var best, found := Leftmost(state, line, from, i), Exec(state[i].regex, line, from);
      Leftmost(state, line, from, i + 1) ==
      if found.Some? && (best.None? || found.value.index < best.value.1.index) then Some((i, found.value)) else best
  {
  }

  lemma Leftmost0(state: seq<Pattern>, line: string, from: nat)
    requires from <= |line|
    ensures Leftmost(state, line, from, 0) == None
  {
  }

  lemma LeftmostMatches(state: seq<Pattern>, line: string, from: nat)
    requires from <= |line| && Leftmost(state, line, from, |state|).Some?
    ensures var (i, m) := Leftmost(state, line, from, |state|).value;
      i < |state| && from <= m.index <= |line| && state[i].regex(line, m.index) == Some(m.groups)
  {
  }

  // No pattern beats a match where the search starts.
  lemma {:induction false} LeftmostSettled(state: seq<Pattern>, line: string, from: nat, i: nat, n: nat)
    requires from <= |line| && i <= n <= |state|
    requires Leftmost(state, line, from, i).Some? && Leftmost(state, line, from, i).value.1.index == from
    ensures Leftmost(state, line, from, n) == Leftmost(state, line, from, i)
  {
    if i < n {
      LeftmostSettled(state, line, from, i, n - 1);
    }
  }

  // A search remembered from earlier in the line is right, or lies before the position.
  predicate Fresh(cached: Option<Match>, regex: Regex, line: string, at: nat)
    requires at <= |line|
  {
    match cached
    case None => Exec(regex, line, at).None?
    case Some(m) => at <= m.index ==> Exec(regex, line, at) == cached
  }

  lemma FreshLater(cached: Option<Match>, regex: Regex, line: string, at: nat, later: nat)
    requires at <= later <= |line| && Fresh(cached, regex, line, at)
    ensures Fresh(cached, regex, line, later)
  {
    if cached.Some? && later <= cached.value.index {
      var r := Exec(regex, line, later);
      assert regex(line, cached.value.index).Some?;
      assert r.Some? ==> regex(line, r.value.index).Some?;
    }
  }

  // ---------------------------------------------------------------------------------------------
  // Painting

  // The highlighting tags so far give every character before a position the style it was painted
  // in, the tag for the current style being open.
  ghost predicate Paints(tags: seq<Tag>, current: Style, pos: nat, painted: seq<Style>) {
    && |painted| == pos
    && if current.None? then Painted(tags, pos, painted) else
      && tags != [] && tags[|tags| - 1].Start? && tags[|tags| - 1].node == Span(current.value)
      && var from := tags[|tags| - 1].pos;
      && 0 <= from < pos && Painted(tags[..|tags| - 1], from, painted[..from])
      && forall q :: from <= q < pos ==> painted[q] == current
  }

  // The same with nothing open
  ghost predicate Painted(tags: seq<Tag>, end: int, painted: seq<Style>) {
    && Highlighting(tags) && UpTo(tags, end) && |painted| == end
    && forall q :: 0 <= q < end ==> Cover(tags, q) == Nodes(painted[q])
  }

  function Nodes(style: Style): (nodes: seq<Node>) {
    match style case None => [] case Some(s) => [Span(s)]
  }

  lemma {:induction false} HighlightingSnoc(h: seq<Tag>, s: string, from: int, end: int)
    requires Highlighting(h) && UpTo(h, from) && from < end
    ensures var r := h + [Start(Span(s), from), End(end)];
      && Highlighting(r) && UpTo(r, end)
      && forall q :: Cover(r, q) == if q < from then Cover(h, q) else if q < end then [Span(s)] else []
  {
    var r := h + [Start(Span(s), from), End(end)];
    if h != [] {
      assert h[1..][0] == h[1] && h[1..][1..] == h[2..];
      HighlightingSnoc(h[2..], s, from, end);
      assert r[2..] == h[2..] + [Start(Span(s), from), End(end)];
      assert r[1..][0] == r[1] && r[1..][1..] == r[2..];
    } else {
      assert r[1..][0] == r[1] && r[1..][1..] == [];
    }
  }

  function Fill(style: Style, n: nat): (r: seq<Style>)
    ensures |r| == n && forall i :: 0 <= i < n ==> r[i] == style
  {
    seq(n, _ => style)
  }

  lemma PaintsLength(tags: seq<Tag>, current: Style, pos: nat, painted: seq<Style>)
    requires Paints(tags, current, pos, painted)
    ensures |painted| == pos
  {
  }

  // More in the current style
  lemma PaintsOn(tags: seq<Tag>, current: Style, pos: nat, painted: seq<Style>, n: nat)
    requires Paints(tags, current, pos, painted)
    ensures Paints(tags, current, pos + n, painted + Fill(current, n))
  {
    var after := painted + Fill(current, n);
    if current.None? {
      UpToLater(tags, pos, pos + n);
      forall q | 0 <= q < pos + n ensures Cover(tags, q) == Nodes(after[q]) {
        if q < pos {
          assert after[q] == painted[q];
        } else {
          UpToLater(tags, pos, q);
          CoverAfter(tags, q);
        }
      }
    } else {
      var from := tags[|tags| - 1].pos;
      assert after[..from] == painted[..from];
      forall q | from <= q < pos + n ensures after[q] == current {
        assert q < pos ==> after[q] == painted[q];
      }
    }
  }

  // The end of the current style
  lemma PaintsEnd(tags: seq<Tag>, current: Style, pos: nat, painted: seq<Style>)
    requires Paints(tags, current, pos, painted)
    ensures Paints(if current.Some? then tags + [End(pos)] else tags, None, pos, painted)
  {
    if current.Some? {
      var from := tags[|tags| - 1].pos;
      HighlightingSnoc(tags[..|tags| - 1], current.value, from, pos);
      assert tags + [End(pos)] == tags[..|tags| - 1] + [Start(Span(current.value), from), End(pos)];
    }
  }

  // The start of another style
  lemma PaintsStart(tags: seq<Tag>, style: Style, pos: nat, painted: seq<Style>, n: nat)
    requires Paints(tags, None, pos, painted) && n > 0
    ensures Paints(if style.Some? then tags + [Start(Span(style.value), pos)] else tags, style, pos + n,
      painted + Fill(style, n))
  {
    if style.Some? {
      var t := tags + [Start(Span(style.value), pos)];
      assert t[..|t| - 1] == tags && (painted + Fill(style, n))[..pos] == painted;
    } else {
      PaintsOn(tags, style, pos, painted, n);
    }
  }

  // The tags where one style changes to another
  function Change(from: Style, to: Style, pos: nat): (r: seq<Tag>) {
    if from == to then []
    else (if from.Some? then [End(pos)] else []) + if to.Some? then [Start(Span(to.value), pos)] else []
  }

  lemma PaintsChange(tags: seq<Tag>, current: Style, pos: nat, painted: seq<Style>, style: Style, n: nat)
    requires Paints(tags, current, pos, painted) && n > 0
    ensures Paints(tags + Change(current, style, pos), style, pos + n, painted + Fill(style, n))
  {
    hide Paints;
    if current == style {
      assert tags + [] == tags;
      PaintsOn(tags, current, pos, painted, n);
    } else {
      var t := if current.Some? then tags + [End(pos)] else tags;
      PaintsEnd(tags, current, pos, painted);
      PaintsStart(t, style, pos, painted, n);
      assert tags + Change(current, style, pos) == if style.Some? then t + [Start(Span(style.value), pos)] else t;
    }
  }

  lemma FillNone(painted: seq<Style>, style: Style)
    ensures painted + Fill(style, 0) == painted
  {
  }

  // ---------------------------------------------------------------------------------------------
  // The highlighter

  // The style of a piece of text: its own, or that of the environment it is in
  function Styled(style: Style, stack: seq<Pattern>): (r: Style) {
    if style.Some? || |stack| == 0 then style
    else
      var pattern := stack[|stack| - 1];
      if !pattern.isState && pattern.styling.Whole? then pattern.styling.style else style
  }

  function Total(groups: seq<string>): (n: nat) {
    if groups == [] then 0 else Total(groups[..|groups| - 1]) + |groups[|groups| - 1]|
  }

  // The paint of the parts of a match, one after the other
  function Coloured(groups: seq<string>, styles: seq<Style>, stack: seq<Pattern>): (r: seq<Style>)
    requires |styles| == |groups|
    ensures |r| == Total(groups)
  {
    if groups == [] then []
    else
      var n := |groups| - 1;
      Coloured(groups[..n], styles[..n], stack) + Fill(Styled(styles[n], stack), |groups[n]|)
  }

  // The pieces of a match that are put out, and their styles
  function Pieced(pattern: Pattern, groups: seq<string>): (r: (seq<string>, seq<Style>))
    requires HasGroups(pattern, groups)
    ensures |r.0| == |r.1|
  {
    match pattern.styling
    case Whole(style) => (groups[..1], [style])
    case Parts(styles) => (groups[1..|styles| + 1], styles)
  }

  lemma PiecedIs(pattern: Pattern, groups: seq<string>)
    requires HasGroups(pattern, groups)
    ensures var (pieces, styles) := Pieced(pattern, groups);
      && |pieces| == |styles|
      && match pattern.styling
         case Whole(style) => pieces == [groups[0]] && styles == [style]
         case Parts(all) => styles == all && forall i :: 0 <= i < |all| ==> pieces[i] == groups[i + 1]
  {
  }

  function NextStack(pattern: Pattern, stack: seq<Pattern>): (r: seq<Pattern>) {
    if pattern.next == -1 || (pattern.next == -2 && |stack| == 0) then stack
    else if pattern.next == -2 then stack[..|stack| - 1]
    else if pattern.next == -3 then []
    else stack + [pattern]
  }

  predicate HasGroups(pattern: Pattern, groups: seq<string>) {
    |groups| > 0 && (pattern.styling.Parts? ==> |pattern.styling.styles| < |groups|)
  }

  // A pattern has a group for each of its styles, and together they are no longer than the match.
  ghost predicate Fits(pattern: Pattern, line: string) {
    forall k: nat | k <= |line| && pattern.regex(line, k).Some? ::
      var groups := pattern.regex(line, k).value;
      HasGroups(pattern, groups) && Total(Pieced(pattern, groups).0) <= |groups[0]| <= |line| - k
  }

  // Patterns name states, and an environment has one style.
  ghost predicate Wellformed(language: Language) {
    && |language| > 0
    && forall s, i :: 0 <= s < |language| && 0 <= i < |language[s]| ==> WellformedPattern(language, language[s][i])
  }

  predicate WellformedPattern(language: Language, pattern: Pattern) {
    -3 <= pattern.next < |language| && (pattern.next >= 0 && !pattern.isState ==> pattern.styling.Whole?)
  }

  // The stack holds patterns that start something.
  ghost predicate Stacked(language: Language, stack: seq<Pattern>) {
    forall i :: 0 <= i < |stack| ==> WellformedPattern(language, stack[i]) && stack[i].next >= 0
  }

  // The state to match in
  function StateIndex(language: Language, stack: seq<Pattern>): (s: nat)
    requires Wellformed(language) && Stacked(language, stack)
    ensures s < |language|
  {
    if |stack| == 0 then 0 else stack[|stack| - 1].next
  }

  // What a match paints between an index in the line and its end
  function Matched(pattern: Pattern, m: Match, at: nat, stack: seq<Pattern>): (r: seq<Style>)
    requires at <= m.index && HasGroups(pattern, m.groups)
    ensures |r| == m.index - at + Total(Pieced(pattern, m.groups).0)
  {
    var (groups, styles) := Pieced(pattern, m.groups);
    Fill(Styled(None, stack), m.index - at) + Coloured(groups, styles, stack)
  }

  // Every pattern fits the line.
  ghost predicate FitsLine(language: Language, line: string) {
    forall s, i :: 0 <= s < |language| && 0 <= i < |language[s]| ==> Fits(language[s][i], line)
  }

  // The match found in a line is one of a pattern of the state, and lies in the line.
  lemma Found(language: Language, stack: seq<Pattern>, line: string, at: nat)
    requires Wellformed(language) && Stacked(language, stack) && at <= |line| && FitsLine(language, line)
    ensures var s := StateIndex(language, stack);
      var r := Leftmost(language[s], line, at, |language[s]|);
      r.Some? ==>
        var (i, m) := r.value;
        && i < |language[s]| && WellformedPattern(language, language[s][i])
        && at <= m.index && HasGroups(language[s][i], m.groups)
        && m.index + Total(Pieced(language[s][i], m.groups).0) <= |line|
        && Stacked(language, NextStack(language[s][i], stack))
  {
    var s := StateIndex(language, stack);
    var r := Leftmost(language[s], line, at, |language[s]|);
    if r.Some? {
      LeftmostMatches(language[s], line, at);
      assert Fits(language[s][r.value.0], line);
    }
  }

  // ---------------------------------------------------------------------------------------------
  // Highlighting without a memory

  // The paint of a line from an index on, and the states after it; none where more matches than
  // the fuel would be needed
  function PlainLine(language: Language, line: string, at: nat, stack: seq<Pattern>, fuel: nat)
    : (r: Option<(seq<Style>, seq<Pattern>)>)
    requires Wellformed(language) && Stacked(language, stack) && at <= |line| && FitsLine(language, line)
    ensures r.Some? ==> |r.value.0| == |line| - at && Stacked(language, r.value.1)
    decreases fuel
  {
    var s := StateIndex(language, stack);
    match Leftmost(language[s], line, at, |language[s]|)
    case None => Some((Fill(Styled(None, stack), |line| - at), stack))
    case Some((i, m)) =>
      if fuel == 0 then None
      else
        Found(language, stack, line, at);
        var paint := Matched(language[s][i], m, at, stack);
        After(paint, PlainLine(language, line, at + |paint|, NextStack(language[s][i], stack), fuel - 1))
  }

  function After(paint: seq<Style>, rest: Option<(seq<Style>, seq<Pattern>)>): (r: Option<(seq<Style>, seq<Pattern>)>) {
    match rest case None => None case Some((more, stack)) => Some((paint + more, stack))
  }

  lemma AfterNone(paint: seq<Style>)
    ensures After(paint, None).None?
  {
  }

  lemma AfterSome(paint: seq<Style>, rest: Option<(seq<Style>, seq<Pattern>)>)
    ensures rest.Some? ==> After(paint, rest) == Some((paint + rest.value.0, rest.value.1))
  {
  }

  lemma AfterNothing(rest: Option<(seq<Style>, seq<Pattern>)>)
    ensures After([], rest) == rest
  {
    match rest case None => case Some((more, stack)) => assert [] + more == more;
  }

  lemma AfterAfter(paint: seq<Style>, more: seq<Style>, rest: Option<(seq<Style>, seq<Pattern>)>)
    ensures After(paint, After(more, rest)) == After(paint + more, rest)
    ensures After(paint + more, rest).None? == rest.None?
    ensures rest.Some? ==> After(paint + more, rest) == Some((paint + more + rest.value.0, rest.value.1))
  {
    if rest.Some? {
      assert paint + (more + rest.value.0) == paint + more + rest.value.0;
    }
  }

  lemma OntoNothing(rest: Option<seq<Style>>)
    ensures Onto([], rest) == rest
  {
    match rest case None => case Some(styles) => assert [] + styles == styles;
  }

  // One match of a line
  lemma PlainLineStep(language: Language, line: string, at: nat, stack: seq<Pattern>, fuel: nat)
    requires Wellformed(language) && Stacked(language, stack) && at <= |line| && FitsLine(language, line)
    ensures var s := StateIndex(language, stack);
      match Leftmost(language[s], line, at, |language[s]|)
      case None => PlainLine(language, line, at, stack, fuel) == Some((Fill(Styled(None, stack), |line| - at), stack))
      case Some((i, m)) =>
        && s < |language| && i < |language[s]| && at <= m.index && HasGroups(language[s][i], m.groups)
        && var paint, next := Matched(language[s][i], m, at, stack), NextStack(language[s][i], stack);
        && at + |paint| <= |line| && Stacked(language, next)
        && PlainLine(language, line, at, stack, fuel) ==
           if fuel == 0 then None else After(paint, PlainLine(language, line, at + |paint|, next, fuel - 1))
  {
    hide Leftmost, Exec, FitsLine, Wellformed, Stacked, HasGroups, Pieced, Styled, NextStack, Coloured;
    Found(language, stack, line, at);
  }

  predicate Breaks(c: char) {
    c == '\r' || c == '\n'
  }

  // Where the line that starts at an index ends, and where the next one starts
  function LineEnd(text: string, from: nat): (r: (nat, nat))
    requires from <= |text|
    ensures from <= r.0 <= r.1 <= |text| && (r.0 < r.1 <==> r.0 < |text|) && (from < |text| ==> from < r.1)
    ensures forall k :: from <= k < r.0 ==> !Breaks(text[k])
    ensures r.0 < |text| ==>
      Breaks(text[r.0]) && r.1 == r.0 + if r.0 + 1 < |text| && text[r.0..r.0 + 2] == "\r\n" then 2 else 1
    decreases |text| - from
  {
    if from == |text| then (from, from)
    else if !Breaks(text[from]) then LineEnd(text, from + 1)
    else (from, from + if from + 1 < |text| && text[from..from + 2] == "\r\n" then 2 else 1)
  }

  ghost predicate FitsText(language: Language, text: string) {
    forall from, end :: 0 <= from <= end <= |text| ==> FitsLine(language, text[from..end])
  }

  function Onto(before: seq<Style>, rest: Option<seq<Style>>): (r: Option<seq<Style>>) {
    match rest case None => None case Some(styles) => Some(before + styles)
  }

  // The paint of a text from the start of a line on: line ends are left unpainted, and the states
  // go on from line to line.
  function PlainText(language: Language, text: string, from: nat, stack: seq<Pattern>, fuel: nat)
    : (r: Option<seq<Style>>)
    requires Wellformed(language) && Stacked(language, stack) && from <= |text| && FitsText(language, text)
    ensures r.Some? ==> |r.value| == |text| - from
    decreases |text| - from
  {
    if from == |text| then Some([])
    else
      var (end, next) := LineEnd(text, from);
      match PlainLine(language, text[from..end], 0, stack, fuel)
      case None => None
      case Some((paint, after)) =>
        Onto(paint + Fill(None, next - end), PlainText(language, text, next, after, fuel))
  }

  // One line of a text
  lemma PlainTextStep(language: Language, text: string, from: nat, stack: seq<Pattern>, fuel: nat, before: seq<Style>)
    requires Wellformed(language) && Stacked(language, stack) && from < |text| && FitsText(language, text)
    ensures var (end, next) := LineEnd(text, from);
      && FitsLine(language, text[from..end])
      && var all := Onto(before, PlainText(language, text, from, stack, fuel));
      var line := PlainLine(language, text[from..end], 0, stack, fuel);
      && (line.None? ==> all.None?)
      && (line.Some? ==>
        all == Onto(before + line.value.0 + Fill(None, next - end),
          PlainText(language, text, next, line.value.1, fuel)))
  {
    hide PlainLine, FitsLine;
    var (end, next) := LineEnd(text, from);
    var line := PlainLine(language, text[from..end], 0, stack, fuel);
    if line.Some? {
      var rest := PlainText(language, text, next, line.value.1, fuel);
      OntoOnto(before, line.value.0, Fill(None, next - end), rest);
    }
  }

  lemma OntoOnto(before: seq<Style>, paint: seq<Style>, gap: seq<Style>, rest: Option<seq<Style>>)
    ensures Onto(before, Onto(paint + gap, rest)) == Onto(before + paint + gap, rest)
  {
    if rest.Some? {
      assert before + (paint + gap + rest.value) == before + paint + gap + rest.value;
    }
  }

  lemma PlainTextEnd(language: Language, text: string, stack: seq<Pattern>, fuel: nat, before: seq<Style>)
    requires Wellformed(language) && Stacked(language, stack) && FitsText(language, text)
    ensures Onto(before, PlainText(language, text, |text|, stack, fuel)) == Some(before)
  {
    assert before + [] == before;
  }

  // With more fuel a text that was painted is painted the same.
  lemma {:induction false} MoreFuelLine(language: Language, line: string, at: nat, stack: seq<Pattern>, fuel: nat,
    more: nat)
    requires Wellformed(language) && Stacked(language, stack) && at <= |line| && FitsLine(language, line)
    requires fuel <= more && PlainLine(language, line, at, stack, fuel).Some?
    ensures PlainLine(language, line, at, stack, more) == PlainLine(language, line, at, stack, fuel)
    decreases fuel
  {
    hide *;
    PlainLineStep(language, line, at, stack, fuel);
    PlainLineStep(language, line, at, stack, more);
    var s := StateIndex(language, stack);
    match Leftmost(language[s], line, at, |language[s]|)
    case None =>
    case Some((i, m)) =>
      var paint := Matched(language[s][i], m, at, stack);
      AfterNone(paint);
      MoreFuelLine(language, line, at + |paint|, NextStack(language[s][i], stack), fuel - 1, more - 1);
  }

  lemma {:induction false} MoreFuel(language: Language, text: string, from: nat, stack: seq<Pattern>, fuel: nat,
    more: nat)
    requires Wellformed(language) && Stacked(language, stack) && from <= |text| && FitsText(language, text)
    requires fuel <= more && PlainText(language, text, from, stack, fuel).Some?
    ensures PlainText(language, text, from, stack, more) == PlainText(language, text, from, stack, fuel)
    decreases |text| - from
  {
    if from < |text| {
      var (end, next) := LineEnd(text, from);
      MoreFuelLine(language, text[from..end], 0, stack, fuel, more);
      MoreFuel(language, text, next, PlainLine(language, text[from..end], 0, stack, fuel).value.1, fuel, more);
    }
  }

  // ---------------------------------------------------------------------------------------------
  // What that means, in the words of the language definition

  // The pieces of a match one behind the other: each has its own style, or else that of the
  // environment around the match.
  lemma {:induction false} PieceStyle(groups: seq<string>, styles: seq<Style>, stack: seq<Pattern>, j: nat, x: nat)
    requires |styles| == |groups| && j < |groups| && x < |groups[j]|
    ensures Total(groups[..j]) + x < Total(groups)
    ensures var style := Coloured(groups, styles, stack)[Total(groups[..j]) + x];
      if styles[j].Some? then style == styles[j]
      else if stack == [] || stack[|stack| - 1].isState || !stack[|stack| - 1].styling.Whole? then style == None
      else style == stack[|stack| - 1].styling.style
  {
    var n := |groups| - 1;
    if j < n {
      PieceStyle(groups[..n], styles[..n], stack, j, x);
      assert groups[..n][..j] == groups[..j];
    }
  }

  // A line can be painted from an index on.
  ghost predicate Ready(language: Language, line: string, at: nat, stack: seq<Pattern>) {
    Wellformed(language) && Stacked(language, stack) && at <= |line| && FitsLine(language, line)
  }

  // The match that is taken there, if there is one: the leftmost of the state that is named by the
  // innermost pattern, or of the first state
  function FirstMatch(language: Language, line: string, at: nat, stack: seq<Pattern>): (r: Option<(Pattern, Match)>)
    requires Ready(language, line, at, stack)
  {
    var state := language[if stack == [] then 0 else stack[|stack| - 1].next];
    match Leftmost(state, line, at, |state|) case None => None case Some((i, m)) => Some((state[i], m))
  }

  lemma FirstMatchIs(language: Language, line: string, at: nat, stack: seq<Pattern>)
    requires Ready(language, line, at, stack)
    ensures var s := StateIndex(language, stack);
      var r := Leftmost(language[s], line, at, |language[s]|);
      && (r.None? <==> FirstMatch(language, line, at, stack).None?)
      && (r.Some? ==> r.value.0 < |language[s]|
                      && FirstMatch(language, line, at, stack) == Some((language[s][r.value.0], r.value.1)))
  {
    hide Leftmost, FitsLine;
  }

  // The style of text that has none of its own: that of the innermost environment; in a state, or
  // outside of all patterns, it has none.
  predicate IsAround(style: Style, stack: seq<Pattern>) {
    style == if stack == [] || stack[|stack| - 1].isState || !stack[|stack| - 1].styling.Whole? then None
             else stack[|stack| - 1].styling.style
  }

  // Up to the first match, or to the end of the line if there is none, text has no style of its own.
  lemma GapStyle(language: Language, line: string, at: nat, stack: seq<Pattern>, fuel: nat, paint: seq<Style>,
    end: seq<Pattern>, k: nat)
    requires Ready(language, line, at, stack) && PlainLine(language, line, at, stack, fuel) == Some((paint, end))
    requires var r := FirstMatch(language, line, at, stack);
      k < if r.None? then |line| - at else r.value.1.index - at
    ensures k < |paint| && IsAround(paint[k], stack)
    ensures FirstMatch(language, line, at, stack).None? ==> end == stack
  {
    hide PlainLine, Leftmost, FitsLine, Wellformed, Stacked, FirstMatch, NextStack, Coloured, Total, HasGroups;
    FirstMatchIs(language, line, at, stack);
    PlainLineStep(language, line, at, stack, fuel);
  }

  // What taking a match comes to
  lemma Taken(language: Language, line: string, at: nat, stack: seq<Pattern>, fuel: nat, paint: seq<Style>,
    end: seq<Pattern>)
    requires Ready(language, line, at, stack) && PlainLine(language, line, at, stack, fuel) == Some((paint, end))
    requires FirstMatch(language, line, at, stack).Some?
    ensures var (p, m) := FirstMatch(language, line, at, stack).value;
      && at <= m.index && HasGroups(p, m.groups) && fuel > 0
      && var first, next := Matched(p, m, at, stack), NextStack(p, stack);
      && at + |first| <= |line| && Stacked(language, next) && first <= paint
      && PlainLine(language, line, at + |first|, next, fuel - 1) == Some((paint[|first|..], end))
  {
    hide PlainLine, Leftmost, Matched, NextStack, FitsLine, Wellformed, Stacked, FirstMatch, HasGroups;
    FirstMatchIs(language, line, at, stack);
    PlainLineStep(language, line, at, stack, fuel);
    var (p, m) := FirstMatch(language, line, at, stack).value;
    var first := Matched(p, m, at, stack);
    var rest := PlainLine(language, line, at + |first|, NextStack(p, stack), fuel - 1);
    assert (first + rest.value.0)[|first|..] == rest.value.0;
  }

  // Each piece of a match that is taken has the style it is given, if any.
  lemma MatchStyle(language: Language, line: string, at: nat, stack: seq<Pattern>, fuel: nat, paint: seq<Style>,
    end: seq<Pattern>, p: Pattern, m: Match, j: nat, x: nat)
    requires Ready(language, line, at, stack) && PlainLine(language, line, at, stack, fuel) == Some((paint, end))
    requires FirstMatch(language, line, at, stack) == Some((p, m))
    requires if p.styling.Whole? then j == 0 && m.groups != [] && x < |m.groups[0]|
      else j < |p.styling.styles| < |m.groups| && x < |m.groups[j + 1]|
    ensures var own := if p.styling.Whole? then p.styling.style else p.styling.styles[j];
      var k := m.index - at + (if p.styling.Whole? then 0 else Total(m.groups[1..j + 1])) + x;
      0 <= k < |paint| && if own.Some? then paint[k] == own else IsAround(paint[k], stack)
  {
    hide PlainLine, Ready, FirstMatch, Stacked, NextStack, Coloured, Total, Styled;
    Taken(language, line, at, stack, fuel, paint, end);
    var (pieces, styles) := Pieced(p, m.groups);
    PiecedIs(p, m.groups);
    PieceStyle(pieces, styles, stack, j, x);
    if p.styling.Whole? {
      assert pieces[..0] == [];
      TotalOfNone();
    } else {
      assert pieces[..j] == m.groups[1..j + 1];
    }
  }

  lemma TotalOfNone()
    ensures Total([]) == 0
  {
  }

  // Behind a match that is taken the line goes on in the state that its pattern names: the same one,
  // the one around it, the first one, or a new one inside.
  lemma MatchState(language: Language, line: string, at: nat, stack: seq<Pattern>, fuel: nat, paint: seq<Style>,
    end: seq<Pattern>, p: Pattern, m: Match)
    requires Ready(language, line, at, stack) && PlainLine(language, line, at, stack, fuel) == Some((paint, end))
    requires FirstMatch(language, line, at, stack) == Some((p, m))
    ensures m.groups != [] && (p.styling.Parts? ==> |p.styling.styles| < |m.groups|) && fuel > 0
    ensures var after :=
        if p.next == -1 then stack
        else if p.next == -2 then (if stack == [] then [] else stack[..|stack| - 1])
        else if p.next == -3 then []
        else stack + [p];
      var n := m.index + if p.styling.Whole? then |m.groups[0]| else Total(m.groups[1..|p.styling.styles| + 1]);
      && at <= n <= |line| && n - at <= |paint| && Stacked(language, after)
      && PlainLine(language, line, n, after, fuel - 1) == Some((paint[n - at..], end))
  {
    hide PlainLine, Ready, FirstMatch, Stacked, Coloured, Total, Styled, Pieced, NextStack, Matched;
    Taken(language, line, at, stack, fuel, paint, end);
    TotalOfPieces(p, m.groups);
    NextStackIs(p, stack);
  }

  lemma NextStackIs(p: Pattern, stack: seq<Pattern>)
    ensures NextStack(p, stack) ==
        if p.next == -1 then stack
        else if p.next == -2 then (if stack == [] then [] else stack[..|stack| - 1])
        else if p.next == -3 then []
        else stack + [p]
  {
  }

  lemma TotalOfPieces(p: Pattern, groups: seq<string>)
    requires HasGroups(p, groups)
    ensures Total(Pieced(p, groups).0) ==
      if p.styling.Whole? then |groups[0]| else Total(groups[1..|p.styling.styles| + 1])
  {
    if p.styling.Whole? {
      assert groups[..1][..0] == [];
    }
  }

  // A match of a pattern in a line paints something, or it ends a state other than the first.
  ghost predicate AdvancesBy(s: nat, pattern: Pattern, line: string) {
    forall k: nat | k <= |line| && pattern.regex(line, k).Some? ::
      var groups := pattern.regex(line, k).value;
      HasGroups(pattern, groups) && (Total(Pieced(pattern, groups).0) > 0 || (s > 0 && pattern.next <= -2))
  }

  ghost predicate AdvancesLine(language: Language, line: string) {
    forall s, i :: 0 <= s < |language| && 0 <= i < |language[s]| ==> AdvancesBy(s, language[s][i], line)
  }

  ghost predicate Advances(language: Language, text: string) {
    forall from, end :: 0 <= from <= end <= |text| ==> AdvancesLine(language, text[from..end])
  }

  // A match paints something or leaves a state.
  lemma MatchAdvances(language: Language, line: string, at: nat, stack: seq<Pattern>)
    requires Wellformed(language) && Stacked(language, stack) && at <= |line| && FitsLine(language, line)
    requires AdvancesLine(language, line)
    ensures var s := StateIndex(language, stack);
      var r := Leftmost(language[s], line, at, |language[s]|);
      r.Some? ==>
        var (i, m) := r.value;
        && i < |language[s]| && HasGroups(language[s][i], m.groups) && at <= m.index
        && var paint, next := Matched(language[s][i], m, at, stack), NextStack(language[s][i], stack);
        |next| <= |stack| + |paint| && (paint == [] ==> |next| < |stack|)
  {
    Found(language, stack, line, at);
    var s := StateIndex(language, stack);
    var r := Leftmost(language[s], line, at, |language[s]|);
    if r.Some? {
      LeftmostMatches(language[s], line, at);
      assert AdvancesBy(s, language[s][r.value.0], line);
      hide Leftmost, Fits, Exec;
    }
  }

  // Where every match advances, a line needs no more matches than twice its length and as many as
  // there are states to leave.
  lemma {:induction false} EnoughForLine(language: Language, line: string, at: nat, stack: seq<Pattern>, fuel: nat)
    requires Wellformed(language) && Stacked(language, stack) && at <= |line| && FitsLine(language, line)
    requires AdvancesLine(language, line) && fuel >= 2 * (|line| - at) + |stack|
    ensures var r := PlainLine(language, line, at, stack, fuel); r.Some? && |r.value.1| <= |stack| + |line| - at
    decreases fuel
  {
    hide *;
    PlainLineStep(language, line, at, stack, fuel);
    MatchAdvances(language, line, at, stack);
    var s := StateIndex(language, stack);
    match Leftmost(language[s], line, at, |language[s]|)
    case None =>
    case Some((i, m)) =>
      var paint := Matched(language[s][i], m, at, stack);
      EnoughForLine(language, line, at + |paint|, NextStack(language[s][i], stack), fuel - 1);
      AfterSome(paint, PlainLine(language, line, at + |paint|, NextStack(language[s][i], stack), fuel - 1));
  }

  // Theorem: where every match advances, a text is painted to its end.
  lemma {:induction false} EnoughFuel(language: Language, text: string, from: nat, stack: seq<Pattern>, fuel: nat)
    requires Wellformed(language) && Stacked(language, stack) && from <= |text| && FitsText(language, text)
    requires Advances(language, text) && |stack| <= from && fuel >= 2 * |text|
    ensures PlainText(language, text, from, stack, fuel).Some?
    decreases |text| - from
  {
    hide PlainLine, FitsLine, AdvancesLine, Wellformed, Stacked;
    if from < |text| {
      var (end, next) := LineEnd(text, from);
      EnoughForLine(language, text[from..end], 0, stack, fuel);
      EnoughFuel(language, text, next, PlainLine(language, text[from..end], 0, stack, fuel).value.1, fuel);
    }
  }

  // ---------------------------------------------------------------------------------------------
  // With a memory

  class Highlighter {
    const language: Language
    var tags: seq<Tag>
    var patternStack: seq<Pattern>
    var pos: nat
    var currentStyle: Style
    // The line being read, and the searches made in it, state by state
    var start: nat
    var line: string
    var matchCache: map<nat, seq<Option<Match>>>
    // The style of every character so far
    ghost var painted: seq<Style>

    constructor (language: Language)
      requires Wellformed(language)
      ensures Valid() && tags == [] && pos == 0 && painted == [] && this.language == language
      ensures start == 0 && line == [] && patternStack == [] && currentStyle == None
    {
      this.language := language;
      tags, patternStack, pos, currentStyle := [], [], 0, None;
      start, line, matchCache := 0, [], map[];
      painted := [];
    }

    ghost predicate Valid()
      reads this
    {
      && Wellformed(language) && Stacked(language, patternStack) && start <= pos <= start + |line|
      && Paints(tags, currentStyle, pos, painted) && Cached(pos - start)
    }

    // What is remembered of this line is still true.
    ghost predicate Cached(at: nat)
      reads this`matchCache, this`line
    {
      at <= |line| && forall s <- matchCache ::
        && s < |language| && |matchCache[s]| <= |language[s]|
        && forall i :: 0 <= i < |matchCache[s]| ==> Fresh(matchCache[s][i], language[s][i].regex, line, at)
    }

    lemma CachedLater(at: nat, later: nat)
      requires Cached(at) && at <= later <= |line|
      ensures Cached(later)
    {
      forall s <- matchCache, i | 0 <= i < |matchCache[s]|
        ensures Fresh(matchCache[s][i], language[s][i].regex, line, later)
      {
        FreshLater(matchCache[s][i], language[s][i].regex, line, at, later);
      }
    }

    // Tags come out only where the style changes, and never around nothing.
    method Output(length: nat, style: Style)
      requires Paints(tags, currentStyle, pos, painted)
      modifies this`tags, this`pos, this`currentStyle, this`painted
      ensures tags == old(tags) + if length == 0 then []
        else Change(old(currentStyle), Styled(style, patternStack), old(pos))
      ensures Paints(tags, currentStyle, pos, painted)
      ensures pos == old(pos) + length && painted == old(painted) + Fill(Styled(style, patternStack), length)
    {
      hide Paints, Styled, Fill;
      if length == 0 {
        FillNone(painted, Styled(style, patternStack));
        return;
      }
      var own := Styled(style, patternStack);
      PaintsChange(tags, currentStyle, pos, painted, own, length);
      if currentStyle != own {
        if currentStyle.Some? {
          tags := tags + [End(pos)];
        }
        if own.Some? {
          tags := tags + [Start(Span(own.value), pos)];
        }
      }
      assert tags == old(tags) + Change(currentStyle, own, pos);
      pos := pos + length;
      currentStyle := own;
      painted := painted + Fill(own, length);
    }

    // Searches for one pattern, unless what an earlier search found is still ahead.
    method Search(s: nat, i: nat, at: nat) returns (found: Option<Match>)
      requires Cached(at) && s < |language| && i < |language[s]| && s in matchCache && i <= |matchCache[s]|
      modifies this`matchCache
      ensures Cached(at) && s in matchCache && i < |matchCache[s]|
      ensures found == Exec(language[s][i].regex, line, at)
    {
      var mc := matchCache[s];
      if i < |mc| && (mc[i].None? || at <= mc[i].value.index) {
        found := mc[i];
      } else {
        found := Exec(language[s][i].regex, line, at);
        matchCache := matchCache[s := if i < |mc| then mc[i := found] else mc + [found]];
      }
    }

    method Enter(s: nat, at: nat)
      requires Cached(at) && s < |language|
      modifies this`matchCache
      ensures Cached(at) && s in matchCache
    {
      if s !in matchCache {
        matchCache := matchCache[s := []];
      }
    }

    // Finds the match that an uncached search would find.
    method Choose(s: nat, at: nat) returns (bestMatch: Option<Match>, bestPatternIndex: nat)
      requires Cached(at) && s < |language|
      modifies this`matchCache
      ensures Cached(at)
      ensures var r := Leftmost(language[s], line, at, |language[s]|);
        if bestMatch.None? then r.None? else r == Some((bestPatternIndex, bestMatch.value))
    {
      hide Cached, Exec, Leftmost;
      var state := language[s];
      Enter(s, at);
      Leftmost0(state, line, at);
      bestMatch, bestPatternIndex := None, 0;
      var i := 0;
      while i < |state|
        invariant i <= |state| && Cached(at) && s in matchCache && i <= |matchCache[s]|
        invariant var r := Leftmost(state, line, at, i);
          if bestMatch.None? then r.None? else r == Some((bestPatternIndex, bestMatch.value))
      {
        var found := Search(s, i, at);
        LeftmostNext(state, line, at, i);
        if found.Some? && (bestMatch.None? || found.value.index < bestMatch.value.index) {
          bestMatch, bestPatternIndex := found, i;
          if found.value.index == at {
            LeftmostSettled(state, line, at, i + 1, |state|);
            break;
          }
        }
        i := i + 1;
      }
    }

    method OutputMatch(pattern: Pattern, groups: seq<string>)
      requires Paints(tags, currentStyle, pos, painted) && HasGroups(pattern, groups)
      modifies this`tags, this`pos, this`currentStyle, this`painted
      ensures Paints(tags, currentStyle, pos, painted)
      ensures var (pieces, styles) := Pieced(pattern, groups);
        pos == old(pos) + Total(pieces) && painted == old(painted) + Coloured(pieces, styles, patternStack)
    {
      hide Paints, Change, Pieced, Styled;
      PiecedIs(pattern, groups);
      ghost var (pieces, styles) := Pieced(pattern, groups);
      match pattern.styling
      case Parts(newStyle) =>
        var subexpression := 0;
        while subexpression < |newStyle|
          invariant subexpression <= |newStyle| && Paints(tags, currentStyle, pos, painted)
          invariant pos == old(pos) + Total(pieces[..subexpression])
          invariant painted == old(painted) + Coloured(pieces[..subexpression], styles[..subexpression], patternStack)
        {
          Output(|groups[subexpression + 1]|, newStyle[subexpression]);
          ghost var p, q := pieces[..subexpression + 1], styles[..subexpression + 1];
          assert p[..subexpression] == pieces[..subexpression] && q[..subexpression] == styles[..subexpression];
          subexpression := subexpression + 1;
        }
        assert pieces[..subexpression] == pieces && styles[..subexpression] == styles;
      case Whole(newStyle) =>
        Output(|groups[0]|, newStyle);
    }

    // Paints up to a match and the match, and enters or leaves states.
    method Take(pattern: Pattern, m: Match)
      requires Valid() && WellformedPattern(language, pattern) && HasGroups(pattern, m.groups)
      requires pos - start <= m.index && m.index + Total(Pieced(pattern, m.groups).0) <= |line|
      modifies this`tags, this`pos, this`currentStyle, this`painted, this`patternStack
      ensures Valid()
      ensures patternStack == NextStack(pattern, old(patternStack))
      ensures painted == old(painted) + Matched(pattern, m, old(pos) - start, old(patternStack))
    {
      hide Paints, Cached, Wellformed, Pieced, Coloured, Styled, Change;
      ghost var at := pos - start;
      if m.index > pos - start {
        Output(m.index - (pos - start), None);
      }
      OutputMatch(pattern, m.groups);
      patternStack := NextStack(pattern, patternStack);
      CachedLater(at, pos - start);
    }

    // One match in the line, or the rest of the line where there is none: what a search without a
    // memory would have led to.
    method Step() returns (done: bool)
      requires Valid() && FitsLine(language, line)
      modifies this`tags, this`pos, this`currentStyle, this`painted, this`patternStack, this`matchCache
      ensures Valid()
      ensures var s, at := StateIndex(language, old(patternStack)), old(pos) - start;
        match Leftmost(language[s], line, at, |language[s]|)
        case None =>
          && done && patternStack == old(patternStack)
          && painted == old(painted) + Fill(Styled(None, patternStack), |line| - at)
        case Some((i, m)) =>
          && !done && HasGroups(language[s][i], m.groups)
          && patternStack == NextStack(language[s][i], old(patternStack))
          && painted == old(painted) + Matched(language[s][i], m, at, old(patternStack))
    {
      hide Wellformed, Stacked, FitsLine, Paints, Cached, Leftmost, Pieced, Matched, Styled, Change, NextStack;
      var s, at := StateIndex(language, patternStack), pos - start;
      Found(language, patternStack, line, at);
      assert s < |language| && Cached(at);
      var bestMatch, bestPatternIndex := Choose(s, at);
      done := bestMatch.None?;
      if done {
        Output(|line| - at, None);
        CachedLater(at, |line|);
      } else {
        Take(language[s][bestPatternIndex], bestMatch.value);
      }
    }

    // One match, and what is left to do for the rest of the line
    method Match(ghost left: nat)
      returns (done: bool, ghost more: seq<Style>, ghost rest: Option<(seq<Style>, seq<Pattern>)>)
      requires Valid() && FitsLine(language, line)
      modifies this`tags, this`pos, this`currentStyle, this`painted, this`patternStack, this`matchCache
      ensures Valid() && start <= pos <= start + |line| && painted == old(painted) + more
      ensures PlainLine(language, line, old(pos) - start, old(patternStack), left) == After(more, rest)
      ensures done ==> pos == start + |line| && rest == Some(([], patternStack))
      ensures !done ==> rest == if left == 0 then None
        else PlainLine(language, line, pos - start, patternStack, left - 1)
    {
      hide Wellformed, Stacked, FitsLine, Paints, Cached, PlainLine, Leftmost, Matched, Styled, HasGroups, NextStack;
      PlainLineStep(language, line, pos - start, patternStack, left);
      PaintsLength(tags, currentStyle, pos, painted);
      done := Step();
      PaintsLength(tags, currentStyle, pos, painted);
      more := painted[|old(painted)|..];
      assert more + [] == more;
      rest := if done then Some(([], patternStack))
              else if left == 0 then None
              else PlainLine(language, line, pos - start, patternStack, left - 1);
    }

    // Goes through the line, match by match; gives up where more matches than the fuel are needed.
    method Line(fuel: nat) returns (done: bool)
      requires Valid() && FitsLine(language, line)
      modifies this`tags, this`pos, this`currentStyle, this`painted, this`patternStack, this`matchCache
      ensures Valid()
      ensures var r := PlainLine(language, line, old(pos) - start, old(patternStack), fuel);
        && (done <==> r.Some?)
        && (done ==> pos == start + |line| && painted == old(painted) + r.value.0 && patternStack == r.value.1)
    {
      hide Wellformed, Stacked, FitsLine, Paints, Cached, PlainLine, After;
      ghost var all := PlainLine(language, line, pos - start, patternStack, fuel);
      ghost var paint: seq<Style> := [];
      var left := fuel;
      AfterNothing(all);
      while true
        invariant Valid() && start <= pos <= start + |line| && painted == old(painted) + paint
        invariant all == After(paint, PlainLine(language, line, pos - start, patternStack, left))
        decreases left
      {
        ghost var more, rest;
        done, more, rest := Match(left);
        AfterAfter(paint, more, rest);
        paint := paint + more;
        assert paint + [] == paint;
        if done || left == 0 {
          return;
        }
        left := left - 1;
      }
    }

    // Starts a line where the last one has ended.
    method BeginLine(line: string)
      requires Valid() && pos == start && this.line == [] && currentStyle == None
      modifies this`line, this`matchCache
      ensures Valid() && this.line == line
    {
      this.line, matchCache := line, map[];
    }

    // Closes what is open at the end of a line and goes on to the next one.
    method NextLine(startOfNextLine: nat)
      requires Valid() && pos == start + |line| <= startOfNextLine
      modifies this
      ensures Valid() && pos == start == startOfNextLine && line == [] && currentStyle == None
      ensures patternStack == old(patternStack) && painted == old(painted) + Fill(None, startOfNextLine - old(pos))
    {
      hide Paints;
      PaintsEnd(tags, currentStyle, pos, painted);
      if currentStyle.Some? {
        tags := tags + [End(pos)];
        currentStyle := None;
      }
      PaintsOn(tags, None, pos, painted, startOfNextLine - pos);
      painted := painted + Fill(None, startOfNextLine - pos);
      pos, start, line, matchCache := startOfNextLine, startOfNextLine, [], map[];
    }

    // Between two lines
    ghost predicate Between()
      reads this
    {
      pos == start && line == [] && currentStyle == None
    }

    // Highlights the next line of a text.
    method LineOf(text: string, fuel: nat) returns (done: bool)
      requires Valid() && Between() && pos < |text| && FitsText(language, text)
      modifies this
      ensures Valid() && (done ==> Between() && old(pos) < pos <= |text|)
      ensures Onto(old(painted), PlainText(language, text, old(pos), old(patternStack), fuel)) ==
        if done then Onto(painted, PlainText(language, text, pos, patternStack, fuel)) else None
    {
      hide Wellformed, Stacked, FitsLine, FitsText, Paints, Cached, PlainLine, PlainText, Onto;
      var (end, startOfNextLine) := LineEnd(text, pos);
      PlainTextStep(language, text, pos, patternStack, fuel, painted);
      BeginLine(text[pos..end]);
      done := Line(fuel);
      if done {
        NextLine(startOfNextLine);
      }
    }
  }

  // The tags of a text: they give every character the style that highlighting without a memory
  // would have painted it in.
  method HighlightString(inputString: string, language: Language, fuel: nat) returns (tags: seq<Tag>, done: bool)
    requires Wellformed(language) && FitsText(language, inputString)
    ensures var r := PlainText(language, inputString, 0, [], fuel);
      && (done <==> r.Some?)
      && (done ==> Paints(tags, None, |inputString|, r.value))
    ensures Advances(language, inputString) && fuel >= 2 * |inputString| ==> done
  {
    hide Wellformed, Stacked, FitsLine, FitsText, Paints, PlainLine, PlainText, Onto, LineEnd, Advances;
    if Advances(language, inputString) && fuel >= 2 * |inputString| {
      NothingStacked(language);
      EnoughFuel(language, inputString, 0, [], fuel);
    }
    var h := new Highlighter(language);
    ghost var all := PlainText(language, inputString, 0, [], fuel);
    OntoNothing(all);
    while h.pos < |inputString|
      invariant h.Valid() && h.Between() && h.language == language && h.pos <= |inputString|
      invariant all == Onto(h.painted, PlainText(language, inputString, h.pos, h.patternStack, fuel))
      decreases |inputString| - h.pos
    {
      done := h.LineOf(inputString, fuel);
      if !done {
        return [], false;
      }
    }
    PlainTextEnd(language, inputString, h.patternStack, fuel, h.painted);
    tags, done := h.tags, true;
  }

  // The tags of a finished text, merged with an element's own tags: every character is in what
  // the element has there, and in that in the style it was painted in.
  lemma HighlightedElement(o: seq<Tag>, tags: seq<Tag>, painted: seq<Style>, at: nat)
    requires WellNested(o) && OfElements(o) && Paints(tags, None, |painted|, painted) && at < |painted|
    ensures Highlighting(tags) && WellNested(Merged(o, tags)) && Own(Merged(o, tags)) == o
    ensures Nest(o, at, []).Open? && Nest(Merged(o, tags), at, []) == Open(Nest(o, at, []).nodes + Nodes(painted[at]))
  {
    AlwaysOpen(o, at);
    MergedWellNested(o, tags);
    MergedOwn(o, tags);
    MergedNest(o, tags, at, []);
  }

  // Highlights an element's text and merges the tags with its own.
  method HighlightElement(originalTags: seq<Tag>, inputString: string, language: Language, fuel: nat)
    returns (tags: seq<Tag>, done: bool)
    requires WellNested(originalTags) && OfElements(originalTags)
    requires Wellformed(language) && FitsText(language, inputString)
    ensures var r := PlainText(language, inputString, 0, [], fuel);
      && (done <==> r.Some?)
      && (done ==> WellNested(tags) && Own(tags) == originalTags)
      && (done ==> forall at :: 0 <= at < |inputString| ==>
        var own := Nest(originalTags, at, []);
        own.Open? && Nest(tags, at, []) == Open(own.nodes + Nodes(r.value[at])))
    ensures Advances(language, inputString) && fuel >= 2 * |inputString| ==> done
  {
    hide WellNested, Paints, PlainText, FitsText, Advances, Nest, Merged, Own, Highlighting, Pieces;
    tags, done := HighlightString(inputString, language, fuel);
    if done {
      ghost var h, painted := tags, PlainText(language, inputString, 0, [], fuel).value;
      PaintsPieces(h, |painted|, painted);
      var highlightTags := new Tag[|tags|](i requires 0 <= i < |tags| => tags[i]);
      assert highlightTags[..] == h;
      tags := Merge(originalTags, highlightTags);
      MergedWellNested(originalTags, h);
      MergedOwn(originalTags, h);
      forall at | 0 <= at < |inputString|
        ensures Nest(originalTags, at, []).Open?
        ensures Nest(tags, at, []) == Open(Nest(originalTags, at, []).nodes + Nodes(painted[at]))
      {
        HighlightedElement(originalTags, h, painted, at);
      }
    }
  }

  lemma PaintsPieces(tags: seq<Tag>, pos: nat, painted: seq<Style>)
    requires Paints(tags, None, pos, painted)
    ensures Highlighting(tags)
  {
  }

  lemma NothingStacked(language: Language)
    ensures Stacked(language, [])
  {
  }
}
