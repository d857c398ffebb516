/** A known text under a small language, for the highlighter of doc/sh_main.js. */
module HighlighterKnown {
  import opened Wrappers
  import opened MergeTags
  import opened Highlighter

  // A regular expression for one character
  function Char(c: char): (r: Regex) {
    (line: string, k: nat) => if k < |line| && line[k] == c then Some([[c]]) else None
  }

  // The same for the end of a line
  function EndOfLine(): (r: Regex) {
    (line: string, k: nat) => if k == |line| then Some([""]) else None
  }

  function Str(): (p: Pattern) { Pattern(Char('"'), Whole(Some("string")), 1, false) }
  function Comment(): (p: Pattern) { Pattern(Char('#'), Whole(Some("comment")), 2, false) }
  function Brace(): (p: Pattern) { Pattern(Char('{'), Whole(Some("symbol")), 3, true) }
  function Word(): (p: Pattern) { Pattern(Char('v'), Whole(Some("word")), -1, false) }

  // Strings and comments are environments, braces enclose a state, and v is a word. The closing brace
  // leaves all states.
  function Small(): (language: Language)
    ensures |language| == 4 && |language[0]| == 4 && |language[1]| == |language[2]| == |language[3]| == 1
  {
    [[Str(), Comment(), Brace(), Word()],
     [Pattern(Char('"'), Whole(Some("string")), -2, false)],
     [Pattern(EndOfLine(), Whole(None), -2, false)],
     [Pattern(Char('}'), Whole(Some("symbol")), -3, false)]]
  }

  lemma SmallIsFine(line: string)
    ensures Wellformed(Small()) && FitsLine(Small(), line)
  {
    var language := Small();
    forall s, i | 0 <= s < |language| && 0 <= i < |language[s]| ensures Fits(language[s][i], line) {
      var p := language[s][i];
      forall k: nat | k <= |line| && p.regex(line, k).Some?
        ensures var groups := p.regex(line, k).value;
          HasGroups(p, groups) && Total(Pieced(p, groups).0) <= |groups[0]| <= |line| - k
      {
        var groups := p.regex(line, k).value;
        assert |groups| == 1 && groups[..1] == groups;
        TotalOfPieces(p, groups);
      }
    }
  }

  // A pattern matches at an index, and no pattern does before; there, none before it does.
  ghost predicate Finds(state: seq<Pattern>, line: string, from: nat, i: nat, k: nat, groups: seq<string>) {
    && i < |state| && from <= k <= |line| && state[i].regex(line, k) == Some(groups)
    && (forall j, q: nat :: 0 <= j < |state| && from <= q < k ==> state[j].regex(line, q).None?)
    && (forall j :: 0 <= j < i ==> state[j].regex(line, k).None?)
  }

  lemma FindsIt(state: seq<Pattern>, line: string, from: nat, i: nat, k: nat, groups: seq<string>)
    requires Finds(state, line, from, i, k, groups)
    ensures Leftmost(state, line, from, |state|) == Some((i, Match(k, groups)))
  {
    forall j | 0 <= j < |state|
      ensures var r := Exec(state[j].regex, line, from);
        r.Some? ==> k <= r.value.index && (r.value.index == k ==> j >= i)
    {
      var r := Exec(state[j].regex, line, from);
      assert r.Some? ==> state[j].regex(line, r.value.index).Some?;
    }
    assert Exec(state[i].regex, line, from) == Some(Match(k, groups));
  }

  lemma Go(language: Language, line: string, at: nat, stack: seq<Pattern>, fuel: nat, i: nat, k: nat,
    groups: seq<string>, rest: seq<Style>, end: seq<Pattern>)
    requires Ready(language, line, at, stack) && fuel > 0
    requires var s := StateIndex(language, stack);
      && Finds(language[s], line, at, i, k, groups) && language[s][i].styling.Whole? && groups != []
      && var after := NextStack(language[s][i], stack);
      && Ready(language, line, k + |groups[0]|, after)
      && PlainLine(language, line, k + |groups[0]|, after, fuel - 1) == Some((rest, end))
    ensures var p := language[StateIndex(language, stack)][i];
      PlainLine(language, line, at, stack, fuel) ==
        Some((Fill(Styled(None, stack), k - at) + Fill(Styled(p.styling.style, stack), |groups[0]|) + rest, end))
  {
    hide PlainLine, Leftmost, FitsLine, Wellformed, Stacked, NextStack, Styled, Coloured;
    var s := StateIndex(language, stack);
    var p := language[s][i];
    FindsIt(language[s], line, at, i, k, groups);
    PlainLineStep(language, line, at, stack, fuel);
    ColouredOne(p, Match(k, groups), at, stack);
  }

  lemma ColouredOne(p: Pattern, m: Match, at: nat, stack: seq<Pattern>)
    requires p.styling.Whole? && m.groups != [] && at <= m.index
    ensures Matched(p, m, at, stack) ==
      Fill(Styled(None, stack), m.index - at) + Fill(Styled(p.styling.style, stack), |m.groups[0]|)
  {
    hide Styled;
    var groups, styles := m.groups[..1], [p.styling.style];
    assert groups[..0] == [] && styles[..0] == [];
    var own := Fill(Styled(p.styling.style, stack), |m.groups[0]|);
    assert Coloured(groups, styles, stack) == [] + own == own;
  }

  // The rest of a line in which nothing matches
  lemma Stop(language: Language, line: string, at: nat, stack: seq<Pattern>, fuel: nat)
    requires Ready(language, line, at, stack)
    requires var state := language[StateIndex(language, stack)];
      forall j, q: nat :: 0 <= j < |state| && at <= q <= |line| ==> state[j].regex(line, q).None?
    ensures PlainLine(language, line, at, stack, fuel) == Some((Fill(Styled(None, stack), |line| - at), stack))
  {
    var state := language[StateIndex(language, stack)];
    var r := Leftmost(state, line, at, |state|);
    if r.Some? {
      LeftmostMatches(state, line, at);
    }
    hide Leftmost, FitsLine, Wellformed, Stacked;
    PlainLineStep(language, line, at, stack, fuel);
  }

  lemma SmallReady(line: string, at: nat)
    requires at <= |line|
    ensures Ready(Small(), line, at, []) && Ready(Small(), line, at, [Str()])
    ensures Ready(Small(), line, at, [Comment()]) && Ready(Small(), line, at, [Brace()])
  {
    SmallIsFine(line);
    hide FitsLine, Wellformed;
  }

  lemma FindsOutside(line: string, at: nat, i: nat, k: nat)
    requires i < 4 && at <= k < |line| && line[k] == ['"', '#', '{', 'v'][i]
    requires forall q :: at <= q < k ==> line[q] !in ['"', '#', '{', 'v']
    ensures Finds(Small()[0], line, at, i, k, [[line[k]]])
  {
    hide PlainLine, Leftmost, FitsLine, Wellformed;
    var state := Small()[0];
    forall j, q: nat | 0 <= j < 4 && at <= q < k ensures state[j].regex(line, q).None? {
      assert state[j].regex == Char(['"', '#', '{', 'v'][j]);
      assert line[q] !in ['"', '#', '{', 'v'] && ['"', '#', '{', 'v'][j] in ['"', '#', '{', 'v'];
    }
  }

  lemma FindsChar(state: seq<Pattern>, c: char, line: string, at: nat, k: nat)
    requires |state| == 1 && state[0].regex == Char(c)
    requires at <= k < |line| && line[k] == c && c !in line[at..k]
    ensures Finds(state, line, at, 0, k, [[c]])
  {
    assert forall q :: at <= q < k ==> line[q] == line[at..k][q - at];
  }

  // Outside, up to the next character that means something
  lemma GoOutside(line: string, at: nat, fuel: nat, i: nat, k: nat, rest: seq<Style>, end: seq<Pattern>)
    requires i < 4 && at <= k < |line| && line[k] == ['"', '#', '{', 'v'][i] && fuel > 0
    requires forall q :: at <= q < k ==> line[q] !in ['"', '#', '{', 'v']
    requires Ready(Small(), line, at, []) && Ready(Small(), line, k + 1, if i == 3 then [] else [Small()[0][i]])
    requires PlainLine(Small(), line, k + 1, if i == 3 then [] else [Small()[0][i]], fuel - 1) == Some((rest, end))
    ensures PlainLine(Small(), line, at, [], fuel) ==
      Some((Fill(None, k - at) + [[Some("string"), Some("comment"), Some("symbol"), Some("word")][i]] + rest, end))
  {
    hide PlainLine, Leftmost, FitsLine, Wellformed, Finds, Char;
    FindsOutside(line, at, i, k);
    assert i == 0 || i == 1 || i == 2 || i == 3;
    var p := Small()[0][i];
    assert [] + [p] == [p];
    assert Fill(p.styling.style, 1) == [p.styling.style];
    Go(Small(), line, at, [], fuel, i, k, [[line[k]]], rest, end);
  }

  lemma GoString(line: string, at: nat, fuel: nat, k: nat, rest: seq<Style>, end: seq<Pattern>)
    requires at <= k < |line| && line[k] == '"' && '"' !in line[at..k] && fuel > 0
    requires Ready(Small(), line, at, [Str()]) && Ready(Small(), line, k + 1, [])
    requires PlainLine(Small(), line, k + 1, [], fuel - 1) == Some((rest, end))
    ensures PlainLine(Small(), line, at, [Str()], fuel) == Some((Fill(Some("string"), k + 1 - at) + rest, end))
  {
    hide PlainLine, Leftmost, FitsLine, Wellformed, Finds, Char;
    FindsChar(Small()[1], '"', line, at, k);
    Go(Small(), line, at, [Str()], fuel, 0, k, ["\""], rest, end);
    assert Fill(Some("string"), k - at) + Fill(Some("string"), 1) == Fill(Some("string"), k + 1 - at);
  }

  lemma GoComment(line: string, at: nat, fuel: nat, rest: seq<Style>, end: seq<Pattern>)
    requires Ready(Small(), line, at, [Comment()]) && Ready(Small(), line, |line|, []) && fuel > 0
    requires PlainLine(Small(), line, |line|, [], fuel - 1) == Some((rest, end))
    ensures PlainLine(Small(), line, at, [Comment()], fuel) == Some((Fill(Some("comment"), |line| - at) + rest, end))
  {
    assert Finds(Small()[2], line, at, 0, |line|, [""]);
    hide PlainLine, Leftmost, FitsLine, Wellformed, Stacked, Finds;
    Go(Small(), line, at, [Comment()], fuel, 0, |line|, [""], rest, end);
    assert Fill(Some("comment"), |line| - at) + Fill(Some("comment"), 0) == Fill(Some("comment"), |line| - at);
  }

  lemma GoBrace(line: string, at: nat, fuel: nat, k: nat, rest: seq<Style>, end: seq<Pattern>)
    requires at <= k < |line| && line[k] == '}' && '}' !in line[at..k] && fuel > 0
    requires Ready(Small(), line, at, [Brace()]) && Ready(Small(), line, k + 1, [])
    requires PlainLine(Small(), line, k + 1, [], fuel - 1) == Some((rest, end))
    ensures PlainLine(Small(), line, at, [Brace()], fuel) == Some((Fill(None, k - at) + [Some("symbol")] + rest, end))
  {
    hide PlainLine, Leftmost, FitsLine, Wellformed, Finds, Char;
    FindsChar(Small()[3], '}', line, at, k);
    Go(Small(), line, at, [Brace()], fuel, 0, k, ["}"], rest, end);
    assert Fill(Some("symbol"), 1) == [Some("symbol")];
  }

  lemma GoToEnd(line: string, fuel: nat)
    requires Ready(Small(), line, |line|, [])
    ensures PlainLine(Small(), line, |line|, [], fuel) == Some(([], []))
  {
    Stop(Small(), line, |line|, [], fuel);
  }

  // The style of every character of a line: a word, a string, a state, and a comment
  lemma KnownLine(line: string)
    requires line == "v \"hi\"{z}#x"
    ensures Ready(Small(), line, 0, [])
    ensures PlainLine(Small(), line, 0, [], 9) ==
      Some(([Some("word"), None, Some("string"), Some("string"), Some("string"), Some("string"),
             Some("symbol"), None, Some("symbol"), Some("comment"), Some("comment")], []))
  {
    hide PlainLine, Ready, Small, Str, Comment, Brace, Word;
    LineReady(line);
    GoToEnd(line, 2);
    GoComment(line, 10, 3, [], []);
    var x := Fill(Some("comment"), 1) + [];
    GoOutside(line, 9, 4, 1, 9, x, []);
    var comment := Fill(None, 0) + [Some("comment")] + x;
    GoBrace(line, 7, 5, 8, comment, []);
    var z := Fill(None, 1) + [Some("symbol")] + comment;
    GoOutside(line, 6, 6, 2, 6, z, []);
    var brace := Fill(None, 0) + [Some("symbol")] + z;
    GoString(line, 3, 7, 5, brace, []);
    var hi := Fill(Some("string"), 3) + brace;
    GoOutside(line, 1, 8, 0, 2, hi, []);
    var str := Fill(None, 1) + [Some("string")] + hi;
    GoOutside(line, 0, 9, 3, 0, str, []);
    assert Fill(None, 0) + [Some("word")] + str ==
      [Some("word"), None, Some("string"), Some("string"), Some("string"), Some("string"),
       Some("symbol"), None, Some("symbol"), Some("comment"), Some("comment")];
  }

  lemma LineReady(line: string)
    ensures forall at :: 0 <= at <= |line| ==>
      && Ready(Small(), line, at, []) && Ready(Small(), line, at, [Small()[0][0]])
      && Ready(Small(), line, at, [Small()[0][1]]) && Ready(Small(), line, at, [Small()[0][2]])
    ensures Small()[0][0] == Str() && Small()[0][1] == Comment() && Small()[0][2] == Brace()
  {
    hide Ready;
    forall at | 0 <= at <= |line|
      ensures Ready(Small(), line, at, []) && Ready(Small(), line, at, [Small()[0][0]])
        && Ready(Small(), line, at, [Small()[0][1]]) && Ready(Small(), line, at, [Small()[0][2]])
    {
      SmallReady(line, at);
    }
  }

  lemma KnownWord(line: string)
    requires line == "v"
    ensures Ready(Small(), line, 0, []) && PlainLine(Small(), line, 0, [], 9) == Some(([Some("word")], []))
  {
    hide PlainLine, Ready, Small;
    LineReady(line);
    GoToEnd(line, 8);
    GoOutside(line, 0, 9, 3, 0, [], []);
    assert Fill(None, 0) + [Some("word")] + [] == [Some("word")];
  }

  // Two lines: the comment ends with its line, and the line end has no style.
  lemma KnownText()
    ensures var text := "v \"hi\"{z}#x\r\nv";
      && Wellformed(Small()) && FitsText(Small(), text)
      && PlainText(Small(), text, 0, [], 9) ==
         Some([Some("word"), None, Some("string"), Some("string"), Some("string"), Some("string"),
               Some("symbol"), None, Some("symbol"), Some("comment"), Some("comment"), None, None, Some("word")])
  {
    hide PlainLine, Ready, Small, FitsLine, Wellformed, LineEnd, PlainText;
    var text := "v \"hi\"{z}#x\r\nv";
    assert |text| == 14;
    SmallIsFine("");
    forall from, end | 0 <= from <= end <= |text| ensures FitsLine(Small(), text[from..end]) {
      SmallIsFine(text[from..end]);
    }
    KnownEnds(text);
    KnownLine(text[0..11]);
    KnownWord(text[13..14]);
    NothingStacked(Small());
    PlainTextEnd(Small(), text, [], 9, []);
    PlainTextStep(Small(), text, 13, [], 9, []);
    PlainTextStep(Small(), text, 0, [], 9, []);
    OntoNothing(PlainText(Small(), text, 0, [], 9));
    OntoNothing(PlainText(Small(), text, 13, [], 9));
    OntoNothing(PlainText(Small(), text, 14, [], 9));
    var word: seq<Style> := [Some("word")];
    assert PlainText(Small(), text, 13, [], 9) == Some(word) by {
      assert [] + word + Fill(None, 0) + [] == word;
    }
    var line := PlainLine(Small(), text[0..11], 0, [], 9).value.0;
    assert PlainText(Small(), text, 0, [], 9) == Some([] + line + Fill(None, 2) + word);
    assert [] + line + Fill(None, 2) + word ==
      [Some("word"), None, Some("string"), Some("string"), Some("string"), Some("string"),
       Some("symbol"), None, Some("symbol"), Some("comment"), Some("comment"), None, None, Some("word")];
  }

  lemma KnownEnds(text: string)
    requires text == "v \"hi\"{z}#x\r\nv"
    ensures LineEnd(text, 0) == (11, 13) && LineEnd(text, 13) == (14, 14)
    ensures text[0..11] == "v \"hi\"{z}#x" && text[13..14] == "v"
    ensures LineEnd("a\nb", 0) == LineEnd("a\rb", 0) == (1, 2) && LineEnd("a\n\rb", 0) == (1, 2)
  {
    hide LineEnd;
    assert forall k :: 0 <= k < 11 ==> !Breaks(text[k]);
    assert Breaks(text[11]) && text[11..13] == "\r\n" && !Breaks(text[13]);
    assert text[0..11] == "v \"hi\"{z}#x";
    assert !Breaks("a\nb"[0]) && Breaks("a\nb"[1]) && "a\nb"[1..3] == "\nb";
    assert !Breaks("a\rb"[0]) && Breaks("a\rb"[1]) && "a\rb"[1..3] == "\rb";
    assert !Breaks("a\n\rb"[0]) && Breaks("a\n\rb"[1]) && "a\n\rb"[1..3] == "\n\r";
  }
}
