/** The path algebra of lib/path.js for POSIX paths. */
module Path {

  // ---------------------------------------------------------------------------------------------
  // Splitting and joining

  function Split(s: string): (parts: seq<string>)
    ensures |parts| > 0
  {
    if s == "" then [""]
    else
      var rest := Split(s[1..]);
      if s[0] == '/' then [""] + rest else [[s[0]] + rest[0]] + rest[1..]
  }

  function Join(parts: seq<string>): (s: string) {
    if parts == [] then "" else if |parts| == 1 then parts[0] else parts[0] + "/" + Join(parts[1..])
  }

  // The parts that are not empty
  function Filled(parts: seq<string>): (r: seq<string>)
    ensures forall p <- r :: p in parts && p != ""
  {
    if parts == [] then [] else (if parts[0] == "" then [] else [parts[0]]) + Filled(parts[1..])
  }

  function Parts(path: string): (parts: seq<string>) {
    Filled(Split(path))
  }

  // No part is empty or holds a slash.
  predicate Plain(parts: seq<string>) {
    forall p <- parts :: p != "" && '/' !in p
  }

  lemma {:induction false} SplitApart(a: string, b: string)
    ensures Split(a + "/" + b) == Split(a) + Split(b)
  {
    if a == "" {
      assert ("" + "/" + b)[1..] == b;
    } else {
      assert (a + "/" + b)[1..] == a[1..] + "/" + b;
      SplitApart(a[1..], b);
    }
  }

  lemma {:induction false} SplitOne(p: string)
    requires '/' !in p
    ensures Split(p) == [p]
  {
    if p != "" {
      SplitOne(p[1..]);
      assert [p[0]] + p[1..] == p;
    }
  }

  lemma {:induction false} SplitJoin(parts: seq<string>)
    requires parts != [] && Plain(parts)
    ensures Split(Join(parts)) == parts
  {
    assert parts[0] in parts && forall p <- parts[1..] :: p in parts;
    SplitOne(parts[0]);
    if |parts| > 1 {
      SplitApart(parts[0], Join(parts[1..]));
      SplitJoin(parts[1..]);
    }
  }

  lemma {:induction false} FilledApart(a: seq<string>, b: seq<string>)
    ensures Filled(a + b) == Filled(a) + Filled(b)
  {
    if a == [] {
      assert a + b == b;
    } else {
      assert (a + b)[1..] == a[1..] + b;
      FilledApart(a[1..], b);
    }
  }

  lemma {:induction false} FilledAll(parts: seq<string>)
    requires Plain(parts)
    ensures Filled(parts) == parts
  {
    if parts != [] {
      assert parts[0] in parts && forall p <- parts[1..] :: p in parts;
      FilledAll(parts[1..]);
    }
  }

  lemma PartsApart(a: string, b: string)
    ensures Parts(a + "/" + b) == Parts(a) + Parts(b)
  {
    SplitApart(a, b);
    FilledApart(Split(a), Split(b));
  }

  lemma PartsOfJoin(parts: seq<string>)
    requires Plain(parts)
    ensures Parts(Join(parts)) == parts
  {
    if parts != [] {
      SplitJoin(parts);
      FilledAll(parts);
    } else {
      assert Split("") == [""];
    }
  }

  lemma {:induction false} SplitPlain(s: string)
    ensures forall p <- Split(s) :: '/' !in p
  {
    if s != "" {
      SplitPlain(s[1..]);
      var rest := Split(s[1..]);
      assert rest[0] in rest;
    }
  }

  lemma PartsPlain(path: string)
    ensures Plain(Parts(path))
  {
    SplitPlain(path);
  }

  // ---------------------------------------------------------------------------------------------
  // Going down and up

  // Where parts lead: so many levels above the start, and down these names from there
  datatype Place = Place(above: nat, names: seq<string>)

  // One part taken from a place, as a stack does it
  function Step(at: Place, part: string): (r: Place) {
    if part == "." then at
    else if part != ".." then Place(at.above, at.names + [part])
    else if at.names == [] then Place(at.above + 1, [])
    else Place(at.above, at.names[..|at.names| - 1])
  }

  function Walk(at: Place, parts: seq<string>): (r: Place) {
    if parts == [] then at else Step(Walk(at, parts[..|parts| - 1]), parts[|parts| - 1])
  }

  // Up some levels
  function Up(at: Place, n: nat): (r: Place) {
    if n <= |at.names| then Place(at.above, at.names[..|at.names| - n])
    else Place(at.above + n - |at.names|, [])
  }

  // The same from right to left, with a count of levels still to go up
  function Sweep(parts: seq<string>, up: nat): (r: Place) {
    if parts == [] then Place(up, [])
    else
      var front, last := parts[..|parts| - 1], parts[|parts| - 1];
      if last == "." then Sweep(front, up)
      else if last == ".." then Sweep(front, up + 1)
      else if up > 0 then Sweep(front, up - 1)
      else var r := Sweep(front, 0); Place(r.above, r.names + [last])
  }

  const HERE := Place(0, [])

  // Sweeping from the right ends where walking from the left does, and then up.
  lemma {:induction false} SweepIsWalk(parts: seq<string>, up: nat)
    ensures Sweep(parts, up) == Up(Walk(HERE, parts), up)
  {
    if parts != [] {
      var front, last := parts[..|parts| - 1], parts[|parts| - 1];
      SweepIsWalk(front, if last == "." then up else if last == ".." then up + 1 else if up > 0 then up - 1 else 0);
    }
  }

  function Ups(n: nat): (r: seq<string>)
    ensures |r| == n && forall i :: 0 <= i < n ==> r[i] == ".."
  {
    seq(n, _ => "..")
  }

  // The parts of a place
  function Route(at: Place, allowAboveRoot: bool): (r: seq<string>) {
    (if allowAboveRoot then Ups(at.above) else []) + at.names
  }

  method NormalizeArray(parts: seq<string>, allowAboveRoot: bool) returns (r: seq<string>)
    ensures r == Route(Walk(HERE, parts), allowAboveRoot)
  {
    hide Walk, Swept, Route;
    r := parts;
    var up := 0;
    var i := |parts| - 1;
    ghost var tail := [];
    SweptAll(parts);
    while i >= 0
      invariant -1 <= i < |parts| && r == parts[..i + 1] + tail && up >= 0
      invariant Swept(parts[..i + 1], up, tail) == Walk(HERE, parts)
    {
      Splice(parts, i, tail);
      SweptStep(parts, i, up, tail);
      var last := r[i];
      if last == "." {
        r := r[..i] + r[i + 1..];
      } else if last == ".." {
        r := r[..i] + r[i + 1..];
        up := up + 1;
      } else if up > 0 {
        r := r[..i] + r[i + 1..];
        up := up - 1;
      } else {
        tail := [last] + tail;
      }
      i := i - 1;
    }
    SweptNone(parts, up, tail, allowAboveRoot);
    if allowAboveRoot {
      r := Unshift(up, r);
    }
  }

  // What sweeping leads to, before parts that have been passed
  function Swept(parts: seq<string>, up: nat, tail: seq<string>): (r: Place) {
    var s := Sweep(parts, up);
    Place(s.above, s.names + tail)
  }

  lemma SweptAll(parts: seq<string>)
    ensures parts[..|parts|] + [] == parts && Swept(parts[..|parts|], 0, []) == Walk(HERE, parts)
  {
    SweepIsWalk(parts, 0);
    hide Walk, Sweep;
    assert parts[..|parts|] == parts;
    var s := Sweep(parts, 0);
    assert s.names + [] == s.names;
    assert s.names[..|s.names| - 0] == s.names;
    var w := Walk(HERE, parts);
    assert w.names[..|w.names| - 0] == w.names;
  }

  // The part at an index, taken out or passed
  lemma Splice(parts: seq<string>, i: nat, tail: seq<string>)
    requires i < |parts|
    ensures var r := parts[..i + 1] + tail;
      r[i] == parts[i] && r[..i] + r[i + 1..] == parts[..i] + tail && r == parts[..i] + ([parts[i]] + tail)
  {
  }

  lemma SweptStep(parts: seq<string>, i: nat, up: nat, tail: seq<string>)
    requires i < |parts|
    ensures var last := parts[i];
      Swept(parts[..i + 1], up, tail) ==
      if last == "." then Swept(parts[..i], up, tail)
      else if last == ".." then Swept(parts[..i], up + 1, tail)
      else if up > 0 then Swept(parts[..i], up - 1, tail)
      else Swept(parts[..i], 0, [last] + tail)
  {
    var whole, last := parts[..i + 1], parts[i];
    assert whole[..i] == parts[..i] && whole[i] == last;
    SweepLast(whole, up);
    hide Sweep;
    var names := Sweep(parts[..i], 0).names;
    assert names + [last] + tail == names + ([last] + tail);
  }

  lemma SweepLast(parts: seq<string>, up: nat)
    requires parts != []
    ensures var front, last := parts[..|parts| - 1], parts[|parts| - 1];
      Sweep(parts, up) ==
      if last == "." then Sweep(front, up)
      else if last == ".." then Sweep(front, up + 1)
      else if up > 0 then Sweep(front, up - 1)
      else Place(Sweep(front, 0).above, Sweep(front, 0).names + [last])
  {
  }

  lemma SweptNone(parts: seq<string>, up: nat, tail: seq<string>, allowAboveRoot: bool)
    ensures parts[..0] + tail == tail
    ensures Route(Swept(parts[..0], up, tail), allowAboveRoot) == (if allowAboveRoot then Ups(up) else []) + tail
    ensures [] + tail == tail
  {
    assert parts[..0] == [] && [] + tail == tail;
  }

  // Restores leading ..s.
  method Unshift(up: nat, parts: seq<string>) returns (r: seq<string>)
    ensures r == Ups(up) + parts
  {
    r := parts;
    var n := up;
    while n > 0
      invariant 0 <= n <= up && r == Ups(up - n) + parts
    {
      r := [".."] + r;
      n := n - 1;
    }
  }

  // ---------------------------------------------------------------------------------------------
  // Resolving

  // The parts that a list of paths leads along, from the last absolute one on
  datatype Trail = Trail(parts: seq<string>, absolute: bool)

  function Gathered(paths: seq<string>): (r: Trail) {
    if paths == [] then Trail([], false)
    else
      var front, last := paths[..|paths| - 1], paths[|paths| - 1];
      if last == "" then Gathered(front)
      else if last[0] == '/' then Trail(Parts(last), true)
      else Trail(Gathered(front).parts + Parts(last), Gathered(front).absolute)
  }

  function Written(t: Trail): (s: string) {
    var s := (if t.absolute then "/" else "") + Join(Route(Walk(HERE, t.parts), !t.absolute));
    if s == "" then "." else s
  }

  function Resolved(cwd: string, paths: seq<string>): (s: string) {
    Written(Gathered([cwd] + paths))
  }

  // Paths to go along, then a text
  function Along(paths: seq<string>, text: string, absolute: bool): (r: Trail) {
    if absolute then Trail(Parts(text), true) else Trail(Gathered(paths).parts + Parts(text), Gathered(paths).absolute)
  }

  lemma AlongStep(paths: seq<string>, n: nat, text: string)
    requires n < |paths|
    ensures var path := paths[n];
      Along(paths[..n + 1], text, false) ==
      if path == "" then Along(paths[..n], text, false) else Along(paths[..n], path + "/" + text, path[0] == '/')
  {
    hide Parts;
    assert paths[..n + 1][..n] == paths[..n];
    PartsApart(paths[n], text);
    var g := Gathered(paths[..n]).parts;
    assert g + Parts(paths[n]) + Parts(text) == g + (Parts(paths[n]) + Parts(text));
  }

  lemma AlongEnds(paths: seq<string>, text: string)
    ensures Along(paths, "", false) == Gathered(paths) && Along([], text, false) == Trail(Parts(text), false)
  {
    assert Split("") == [""] && Parts("") == Filled([]);
  }

  method Resolve(cwd: string, paths: seq<string>) returns (s: string)
    ensures s == Resolved(cwd, paths)
  {
    hide Along, Gathered, Parts;
    var resolvedPath, resolvedAbsolute := "", false;
    var all := [cwd] + paths;
    var i := |paths| - 1;
    assert all[..i + 2] == all;
    AlongEnds(all, "");
    while i >= -1 && !resolvedAbsolute
      invariant -2 <= i < |paths|
      invariant Along(all[..i + 2], resolvedPath, resolvedAbsolute) == Gathered(all)
    {
      AlongStep(all, i + 1, resolvedPath);
      var path := if i >= 0 then paths[i] else cwd;
      if path != "" {
        resolvedPath := path + "/" + resolvedPath;
        resolvedAbsolute := path[0] == '/';
      }
      i := i - 1;
    }
    AlongEnds(all, resolvedPath);
    assert Gathered(all) == Trail(Parts(resolvedPath), resolvedAbsolute) by {
      AlongAbsolute(all[..i + 2], resolvedPath);
      assert all[..0] == [];
    }
    var parts := NormalizeArray(Parts(resolvedPath), !resolvedAbsolute);
    s := (if resolvedAbsolute then "/" else "") + Join(parts);
    if s == "" {
      s := ".";
    }
  }

  lemma AlongAbsolute(paths: seq<string>, text: string)
    ensures Along(paths, text, true) == Trail(Parts(text), true)
  {
  }

  // ---------------------------------------------------------------------------------------------
  // From one path to another

  // Where a list of paths leads, as names from the root
  function Names(cwd: string, paths: seq<string>): (r: seq<string>) {
    Walk(HERE, Gathered([cwd] + paths).parts).names
  }

  // Names are plain, and neither of the two dots.
  predicate Named(parts: seq<string>) {
    Plain(parts) && forall p <- parts :: p != "." && p != ".."
  }

  lemma {:induction false} GatheredPlain(paths: seq<string>)
    ensures Plain(Gathered(paths).parts)
    ensures paths != [] && paths[0] != "" && paths[0][0] == '/' ==> Gathered(paths).absolute
  {
    if paths != [] {
      var front := paths[..|paths| - 1];
      GatheredPlain(front);
      PartsPlain(paths[|paths| - 1]);
      hide Parts;
    }
  }

  lemma {:induction false} WalkNamed(at: Place, parts: seq<string>)
    requires Named(at.names) && Plain(parts)
    ensures Named(Walk(at, parts).names)
  {
    if parts != [] {
      var front := parts[..|parts| - 1];
      assert parts[|parts| - 1] in parts && forall p <- front :: p in parts;
      WalkNamed(at, front);
      StepNamed(Walk(at, front), parts[|parts| - 1]);
    }
  }

  lemma StepNamed(at: Place, part: string)
    requires Named(at.names) && Plain([part])
    ensures Named(Step(at, part).names)
  {
  }

  // A resolved path spells out the names it leads to.
  lemma FromRoot(cwd: string, paths: seq<string>)
    requires cwd != "" && cwd[0] == '/'
    ensures Gathered([cwd] + paths).absolute && Named(Names(cwd, paths))
    ensures Resolved(cwd, paths) == "/" + Join(Names(cwd, paths))
  {
    var t := Gathered([cwd] + paths);
    GatheredPlain([cwd] + paths);
    WalkNamed(HERE, t.parts);
    var names := Walk(HERE, t.parts).names;
    assert [] + names == names;
  }

  function Common(a: seq<string>, b: seq<string>): (n: nat)
    ensures n <= |a| && n <= |b| && forall i :: 0 <= i < n ==> a[i] == b[i]
    ensures n < |a| && n < |b| ==> a[n] != b[n]
  {
    if a == [] || b == [] || a[0] != b[0] then 0 else 1 + Common(a[1..], b[1..])
  }

  function Between(a: seq<string>, b: seq<string>): (r: seq<string>) {
    Ups(|a| - Common(a, b)) + b[Common(a, b)..]
  }

  // An array without the empty parts it starts with
  function DropFront(arr: seq<string>): (r: seq<string>)
    ensures |r| <= |arr| && (forall i :: 0 <= i < |r| ==> r[i] == arr[|arr| - |r| + i]) && (r != [] ==> r[0] != "")
    ensures forall i :: 0 <= i < |arr| - |r| ==> arr[i] == ""
  {
    if arr != [] && arr[0] == "" then
      var rest := arr[1..];
      assert forall i :: 0 <= i < |rest| ==> rest[i] == arr[i + 1];
      assert forall i :: 1 <= i < |arr| ==> arr[i] == rest[i - 1];
      DropFront(rest)
    else arr
  }

  function DropBack(arr: seq<string>): (r: seq<string>)
    ensures |r| <= |arr| && (forall i :: 0 <= i < |r| ==> r[i] == arr[i]) && (r != [] ==> r[|r| - 1] != "")
    ensures forall i :: |r| <= i < |arr| ==> arr[i] == ""
  {
    if arr != [] && arr[|arr| - 1] == "" then DropBack(arr[..|arr| - 1]) else arr
  }

  // The parts between the empty ones at the ends
  function Stripped(arr: seq<string>): (r: seq<string>) {
    DropBack(DropFront(arr))
  }

  // What trimming leaves: the end is reckoned from 0, so that for every empty part at the start a
  // part is lost at the end.
  function Trimmed(arr: seq<string>): (r: seq<string>) {
    var stripped, lost := Stripped(arr), |arr| - |DropFront(arr)|;
    if lost <= |stripped| then stripped[..|stripped| - lost] else []
  }

  predicate NoneBefore(arr: seq<string>) {
    forall i, j :: 0 <= i < j < |arr| && arr[i] == "" ==> arr[j] == ""
  }

  lemma {:induction false} FilledLength(arr: seq<string>)
    ensures |Filled(arr)| <= |arr|
    ensures |Filled(arr)| == |arr| ==> forall i :: 0 <= i < |arr| ==> arr[i] != ""
    ensures (forall i :: 0 <= i < |arr| ==> arr[i] != "") ==> Filled(arr) == arr
    ensures (forall i :: 0 <= i < |arr| ==> arr[i] == "") ==> Filled(arr) == []
  {
    if arr != [] {
      FilledLength(arr[1..]);
      assert forall i :: 1 <= i < |arr| ==> arr[i] == arr[1..][i - 1];
    }
  }

  lemma {:induction false} FilledFront(arr: seq<string>)
    ensures Filled(DropFront(arr)) == Filled(arr)
  {
    if arr != [] && arr[0] == "" {
      FilledFront(arr[1..]);
    }
  }

  lemma {:induction false} FilledBack(arr: seq<string>)
    ensures Filled(DropBack(arr)) == Filled(arr)
  {
    if arr != [] && arr[|arr| - 1] == "" {
      var front := arr[..|arr| - 1];
      FilledBack(front);
      FilledApart(front, [""]);
      assert arr == front + [""];
    }
  }

  // Stripping keeps all that is not empty.
  lemma FilledStripped(arr: seq<string>)
    ensures Filled(Stripped(arr)) == Filled(arr)
  {
    FilledFront(arr);
    FilledBack(DropFront(arr));
  }

  // Where the parts between the empty ones are
  lemma StrippedIs(arr: seq<string>)
    ensures var lost, s := |arr| - |DropFront(arr)|, Stripped(arr);
      && lost + |s| <= |arr| && (forall i :: 0 <= i < |s| ==> s[i] == arr[lost + i])
      && (forall i :: 0 <= i < lost || lost + |s| <= i < |arr| ==> arr[i] == "")
      && if s == [] then lost == |arr| else arr[lost] != "" && arr[lost + |s| - 1] != ""
  {
    hide DropFront, DropBack;
    var front := DropFront(arr);
    var lost := |arr| - |front|;
    assert forall i :: lost <= i < |arr| ==> arr[i] == front[i - lost];
  }

  lemma TrimmedIs(arr: seq<string>)
    ensures var lost, n := |arr| - |DropFront(arr)|, |Stripped(arr)|;
      n <= |arr| && Trimmed(arr) == if lost < n then arr[lost..n] else []
  {
    hide DropFront, Stripped;
    StrippedIs(arr);
  }

  // Trimming leaves all the parts that are not empty, and only those, exactly where no empty part
  // comes before one that is not.
  lemma TrimmedFills(arr: seq<string>)
    ensures Trimmed(arr) == Filled(arr) <==> NoneBefore(arr)
  {
    hide Filled, DropFront, Stripped, NoneBefore;
    var s := Stripped(arr);
    var lost := |arr| - |DropFront(arr)|;
    StrippedIs(arr);
    FilledStripped(arr);
    if s == [] {
      FilledLength(s);
      NoneBeforeIs(arr, 0);
    } else if lost == 0 {
      NoneBeforeIs(arr, |s|);
      FilledLength(s);
      assert Trimmed(arr) == s[..|s|] == s;
      assert forall i :: 0 <= i < |s| ==> s[i] == arr[i];
      assert NoneBefore(arr) <==> forall i :: 0 <= i < |s| ==> s[i] != "";
      assert Filled(s) == s <==> forall i :: 0 <= i < |s| ==> s[i] != "";
    } else {
      assert !NoneBefore(arr) by {
        Before(arr, 0, lost);
      }
      LastIsFilled(s, |Trimmed(arr)|);
    }
  }

  lemma Before(arr: seq<string>, i: nat, j: nat)
    requires i < j < |arr| && arr[i] == "" && arr[j] != ""
    ensures !NoneBefore(arr)
  {
  }

  lemma NoneBeforeIs(arr: seq<string>, n: nat)
    requires n <= |arr| && (n > 0 ==> arr[n - 1] != "") && forall i :: n <= i < |arr| ==> arr[i] == ""
    ensures NoneBefore(arr) <==> forall i :: 0 <= i < n ==> arr[i] != ""
  {
    if NoneBefore(arr) {
      assert forall i :: 0 <= i < n - 1 && arr[i] == "" ==> arr[n - 1] == "";
    }
  }

  // A front of an array that ends in a part is not all there is in it.
  lemma LastIsFilled(s: seq<string>, n: nat)
    requires n < |s| && s[|s| - 1] != ""
    ensures Filled(s) != s[..n]
  {
    hide Filled;
    if Filled(s) == s[..n] {
      assert s == s[..n] + s[n..];
      FilledApart(s[..n], s[n..]);
      assert forall i :: 0 <= i < n ==> s[..n][i] in Filled(s);
      FilledLength(s[..n]);
      FilledHas(s[n..], |s| - 1 - n);
    }
  }

  lemma {:induction false} FilledHas(parts: seq<string>, i: nat)
    requires i < |parts| && parts[i] != ""
    ensures parts[i] in Filled(parts)
  {
    if i > 0 {
      FilledHas(parts[1..], i - 1);
    }
  }

  lemma PlainFills(parts: seq<string>)
    requires Plain(parts) || parts == [""]
    ensures NoneBefore(parts)
  {
    assert forall i :: 0 <= i < |parts| ==> parts[i] in parts;
  }

  method Trim(arr: seq<string>) returns (r: seq<string>)
    ensures r == Trimmed(arr)
    ensures r == Filled(arr) <==> NoneBefore(arr)
  {
    hide Filled, DropFront, Stripped, NoneBefore, Trimmed;
    TrimmedFills(arr);
    TrimmedIs(arr);
    StrippedIs(arr);
    ghost var lost, s := |arr| - |DropFront(arr)|, Stripped(arr);
    var start := 0;
    while start < |arr|
      invariant 0 <= start <= lost
    {
      if arr[start] != "" {
        break;
      }
      start := start + 1;
    }
    var end := |arr| - 1;
    while end >= 0
      invariant (if s == [] then -1 else lost + |s| - 1) <= end < |arr|
    {
      if arr[end] != "" {
        break;
      }
      end := end - 1;
    }
    if start > end {
      return [];
    }
    r := if start < end - start + 1 then arr[start..end - start + 1] else [];
  }

  method SamePartsLength(a: seq<string>, b: seq<string>) returns (samePartsLength: nat)
    ensures samePartsLength == Common(a, b)
  {
    var length := if |a| < |b| then |a| else |b|;
    samePartsLength := length;
    var i := 0;
    while i < length
      invariant 0 <= i <= length && samePartsLength == length && forall k :: 0 <= k < i ==> a[k] == b[k]
    {
      if a[i] != b[i] {
        samePartsLength := i;
        break;
      }
      i := i + 1;
    }
    CommonIs(a, b, samePartsLength);
  }

  method Relative(cwd: string, from: string, to: string) returns (s: string)
    requires cwd != "" && cwd[0] == '/'
    ensures s == Join(Between(Names(cwd, [from]), Names(cwd, [to])))
  {
    hide Names, Join;
    var a := ResolvedParts(cwd, from);
    var b := ResolvedParts(cwd, to);
    var samePartsLength := SamePartsLength(a, b);
    var outputParts := [];
    var i := samePartsLength;
    while i < |a|
      invariant samePartsLength <= i <= |a| && outputParts == Ups(i - samePartsLength)
    {
      outputParts := outputParts + [".."];
      i := i + 1;
    }
    outputParts := outputParts + b[samePartsLength..];
    s := Join(outputParts);
  }

  lemma {:induction false} CommonIs(a: seq<string>, b: seq<string>, n: nat)
    requires n <= |a| && n <= |b| && (forall i :: 0 <= i < n ==> a[i] == b[i]) && (n < |a| && n < |b| ==> a[n] != b[n])
    ensures Common(a, b) == n
  {
    if n > 0 {
      CommonIs(a[1..], b[1..], n - 1);
    }
  }

  // The parts of a resolved path
  method ResolvedParts(cwd: string, path: string) returns (r: seq<string>)
    requires cwd != "" && cwd[0] == '/'
    ensures r == Names(cwd, [path])
  {
    var s := Resolve(cwd, [path]);
    FromRoot(cwd, [path]);
    s := s[1..];
    var names := Names(cwd, [path]);
    if names == [] {
      assert Split(s) == [""];
    } else {
      SplitJoin(names);
    }
    PartsOfJoin(names);
    PlainFills(Split(s));
    r := Trim(Split(s));
  }

  lemma {:induction false} WalkOn(at: Place, a: seq<string>, b: seq<string>)
    ensures Walk(at, a + b) == Walk(Walk(at, a), b)
  {
    if b == [] {
      assert a + b == a;
    } else {
      assert (a + b)[..|a + b| - 1] == a + b[..|b| - 1];
      WalkOn(at, a, b[..|b| - 1]);
    }
  }

  lemma {:induction false} WalkUp(at: Place, n: nat)
    requires n <= |at.names|
    ensures Walk(at, Ups(n)) == Place(at.above, at.names[..|at.names| - n])
  {
    if n > 0 {
      assert Ups(n)[..n - 1] == Ups(n - 1);
      WalkUp(at, n - 1);
    }
  }

  lemma {:induction false} WalkDown(at: Place, names: seq<string>)
    requires Named(names)
    ensures Walk(at, names) == Place(at.above, at.names + names)
  {
    if names != [] {
      var front := names[..|names| - 1];
      assert names[|names| - 1] in names && forall p <- front :: p in names;
      WalkDown(at, front);
    }
  }

  lemma NamedRest(names: seq<string>, n: nat)
    requires Named(names) && n <= |names|
    ensures Named(names[n..])
  {
    assert forall p <- names[n..] :: p in names;
  }

  lemma CommonPrefix(a: seq<string>, b: seq<string>)
    ensures var n := Common(a, b); n <= |a| && n <= |b| && a[..n] == b[..n]
  {
  }

  // The way between two places leads from the one to the other.
  lemma WalkBetween(at: Place, names: seq<string>)
    requires Named(names)
    ensures Walk(at, Between(at.names, names)) == Place(at.above, names)
  {
    var n := Common(at.names, names);
    hide Walk, Named, Common;
    CommonPrefix(at.names, names);
    var ups, downs := Ups(|at.names| - n), names[n..];
    WalkOn(at, ups, downs);
    WalkUp(at, |at.names| - n);
    NamedRest(names, n);
    var turn := Place(at.above, at.names[..n]);
    WalkDown(turn, downs);
    assert at.names[..n] == names[..n] && names[..n] + downs == names;
  }

  // Going one step changes what two places have in common by no more than it changes the length.
  lemma {:induction false} CommonMore(a: seq<string>, b: seq<string>, x: string)
    ensures Common(a, b + [x]) >= Common(a, b)
  {
    if a != [] && b != [] && a[0] == b[0] {
      assert (b + [x])[1..] == b[1..] + [x];
      CommonMore(a[1..], b[1..], x);
    }
  }

  lemma {:induction false} CommonFewer(a: seq<string>, b: seq<string>)
    requires b != []
    ensures Common(a, b[..|b| - 1]) >= Common(a, b) - 1
  {
    if a != [] && a[0] == b[0] && |b| > 1 {
      assert b[..|b| - 1][1..] == b[1..][..|b| - 2];
      CommonFewer(a[1..], b[1..]);
    }
  }

  lemma {:induction false} WalkRises(at: Place, parts: seq<string>)
    ensures Walk(at, parts).above >= at.above
  {
    if parts != [] {
      WalkRises(at, parts[..|parts| - 1]);
    }
  }

  // How far a walk leads that does not leave the place above
  lemma {:induction false} WalkReach(at: Place, parts: seq<string>)
    requires Walk(at, parts).above == at.above
    ensures var names := Walk(at, parts).names;
      |at.names| + |names| - 2 * Common(at.names, names) <= |parts|
  {
    if parts == [] {
      CommonSelf(at.names);
    } else {
      var front, last := parts[..|parts| - 1], parts[|parts| - 1];
      WalkRises(at, front);
      var here := Walk(at, front);
      assert Walk(at, parts) == Step(here, last);
      hide Walk;
      WalkReach(at, front);
      if last == ".." {
        CommonFewer(at.names, here.names);
      } else if last != "." {
        CommonMore(at.names, here.names, last);
      }
    }
  }

  lemma {:induction false} CommonSelf(a: seq<string>)
    ensures Common(a, a) == |a|
  {
    if a != [] {
      CommonSelf(a[1..]);
    }
  }

  // Theorem: no parts that lead from one place to another are fewer than the relative ones.
  lemma Shortest(at: Place, names: seq<string>, parts: seq<string>)
    requires Walk(at, parts) == Place(at.above, names)
    ensures |Between(at.names, names)| <= |parts|
  {
    WalkReach(at, parts);
  }

  // Names that two places share at their front make no difference.
  lemma {:induction false} SharedFront(front: seq<string>, a: seq<string>, b: seq<string>)
    ensures Between(front + a, front + b) == Between(a, b)
  {
    if front == [] {
      assert front + a == a && front + b == b;
    } else {
      var rest := front[1..];
      assert (front + a)[1..] == rest + a && (front + b)[1..] == rest + b;
      SharedFront(rest, a, b);
      var n := Common(rest + a, rest + b);
      assert (front + b)[n + 1..] == (rest + b)[n..];
    }
  }

  lemma BetweenPlain(a: seq<string>, b: seq<string>)
    requires Named(b)
    ensures Plain(Between(a, b))
  {
    var n := Common(a, b);
    assert forall p <- b[n..] :: p in b;
  }

  lemma {:induction false} JoinStarts(parts: seq<string>)
    requires Plain(parts) && parts != []
    ensures Join(parts) != "" && Join(parts)[0] != '/'
  {
    assert parts[0] in parts && parts[0][0] in parts[0];
  }

  // Resolving a relative path against where it starts leads where it was made to lead.
  lemma RelativeLeads(cwd: string, from: string, to: string)
    requires cwd != "" && cwd[0] == '/'
    ensures var relative := Join(Between(Names(cwd, [from]), Names(cwd, [to])));
      Resolved(cwd, [from, relative]) == Resolved(cwd, [to])
  {
    var a, b := Names(cwd, [from]), Names(cwd, [to]);
    var parts := Between(a, b);
    var relative := Join(parts);
    FromRoot(cwd, [from]);
    FromRoot(cwd, [to]);
    FromRoot(cwd, [from, relative]);
    BetweenPlain(a, b);
    PartsOfJoin(parts);
    var t := Gathered([cwd] + [from]);
    var all := [cwd] + [from, relative];
    assert all[..2] == [cwd] + [from];
    var here := Walk(HERE, t.parts);
    WalkBetween(here, b);
    if parts == [] {
      assert Gathered(all) == t;
    } else {
      JoinStarts(parts);
      assert Gathered(all).parts == t.parts + parts;
      WalkOn(HERE, t.parts, parts);
    }
  }

  // ---------------------------------------------------------------------------------------------
  // Normalizing

  predicate Starts(path: string) {
    path != "" && path[0] == '/'
  }

  predicate Ends(path: string) {
    path != "" && path[|path| - 1] == '/'
  }

  // What is between the slashes at the ends of a normalized path
  function Core(path: string): (s: string) {
    var s := Inner(path, !Starts(path));
    if s == "" && !Starts(path) then "." else s
  }

  function Normalized(path: string): (s: string) {
    (if Starts(path) then "/" else "") + Core(path) + if Core(path) != "" && Ends(path) then "/" else ""
  }

  method Normalize(path: string) returns (s: string)
    ensures s == Normalized(path)
  {
    hide Starts, Ends, Join, Parts;
    var isAbsolute, trailingSlash := Starts(path), Ends(path);
    var parts := NormalizeArray(Parts(path), !isAbsolute);
    s := Join(parts);
    if s == "" && !isAbsolute {
      s := ".";
    }
    if s != "" && trailingSlash {
      s := s + "/";
    }
    s := (if isAbsolute then "/" else "") + s;
  }

  lemma {:induction false} JoinEnds(parts: seq<string>)
    requires Plain(parts) && parts != []
    ensures Join(parts) != "" && !Ends(Join(parts))
  {
    assert parts[0] in parts && parts[0][|parts[0]| - 1] in parts[0];
    if |parts| > 1 {
      assert forall p <- parts[1..] :: p in parts;
      JoinEnds(parts[1..]);
    }
  }

  lemma PartsTrimmed(s: string)
    ensures Parts("/" + s) == Parts(s) && Parts(s + "/") == Parts(s)
  {
    PartsApart("", s);
    PartsApart(s, "");
    assert "" + "/" + s == "/" + s && s + "/" + "" == s + "/";
    assert Split("") == [""] && Parts("") == [] && Parts(s) + [] == Parts(s) && [] + Parts(s) == Parts(s);
  }

  // A normal form starts with a slash exactly where the path does. It ends with one exactly where the
  // path does, or is the root.
  lemma NormalSlashes(path: string)
    ensures Normalized(path) != "" && (Starts(Normalized(path)) <==> Starts(path))
    ensures Ends(Normalized(path)) <==> Ends(path) || (Starts(path) && Walk(HERE, Parts(path)).names == [])
  {
    var c := Core(path);
    CoreAgain(path);
    PartsPlain(path);
    WalkRoute(Parts(path), !Starts(path));
    var r := Route(Walk(HERE, Parts(path)), !Starts(path));
    if r != [] {
      JoinStarts(r);
    }
    hide Walk, Parts, Join;
    SlashesAround(Starts(path), c, Ends(path));
  }

  lemma SlashesAround(start: bool, c: string, end: bool)
    requires !Starts(c) && !Ends(c)
    ensures var s := (if start then "/" else "") + c + if c != "" && end then "/" else "";
      && (Starts(s) <==> start) && (Ends(s) <==> (c != "" && end) || (c == "" && start))
  {
  }

  // Walking a route again leads to the same place.
  lemma WalkRoute(parts: seq<string>, allowAboveRoot: bool)
    requires Plain(parts)
    ensures var at := Walk(HERE, parts);
      var r := Route(at, allowAboveRoot);
      && Plain(r) && Walk(HERE, r) == Place(if allowAboveRoot then at.above else 0, at.names)
      && Route(Walk(HERE, r), allowAboveRoot) == r && (r != [] ==> r[0] != ".")
  {
    hide Walk;
    assert Named([]);
    WalkNamed(HERE, parts);
    var at := Walk(HERE, parts);
    var ups := if allowAboveRoot then Ups(at.above) else [];
    WalkOn(HERE, ups, at.names);
    WalkAbove(HERE, |ups|);
    assert ups == Ups(|ups|);
    WalkDown(Place(|ups|, []), at.names);
    assert [] + at.names == at.names;
    PlainRoute(ups, at.names);
  }

  lemma PlainRoute(ups: seq<string>, names: seq<string>)
    requires ups == Ups(|ups|) && Named(names)
    ensures Plain(ups + names) && (ups + names != [] ==> (ups + names)[0] != ".")
  {
    assert names != [] ==> names[0] in names;
  }

  lemma {:induction false} WalkAbove(at: Place, n: nat)
    requires at.names == []
    ensures Walk(at, Ups(n)) == Place(at.above + n, []) && (n == 0 ==> Ups(n) == [])
  {
    if n > 0 {
      assert Ups(n)[..n - 1] == Ups(n - 1);
      WalkAbove(at, n - 1);
    }
  }

  lemma Dot()
    ensures Parts(".") == ["."] && Walk(HERE, ["."]) == HERE
  {
    PartsOfJoin(["."]);
    assert ["."][..0] == [];
  }

  lemma NotDot(parts: seq<string>)
    requires Plain(parts) && parts != ["."]
    ensures Join(parts) != "."
  {
    Dot();
    PartsOfJoin(parts);
  }

  // What the parts of a path are written as
  function Inner(path: string, allowAboveRoot: bool): (s: string) {
    Join(Route(Walk(HERE, Parts(path)), allowAboveRoot))
  }

  // The core of a path has no slash at its ends, and is its own core.
  lemma CoreAgain(path: string)
    ensures var c := Core(path);
      && !Starts(c) && !Ends(c) && (c == "" ==> Starts(path)) && (c == "." ==> !Starts(path))
      && Inner(c, !Starts(path)) == if c == "." then "" else c
  {
    hide Walk, Parts, Join;
    PartsPlain(path);
    var r := Route(Walk(HERE, Parts(path)), !Starts(path));
    WalkRoute(Parts(path), !Starts(path));
    PartsOfJoin(r);
    Dot();
    JoinNothing();
    if r != [] {
      JoinStarts(r);
      JoinEnds(r);
      NotDot(r);
    }
  }

  lemma JoinNothing()
    ensures Join([]) == "" && Walk(HERE, []) == HERE && forall b :: Route(HERE, b) == []
  {
  }

  lemma InnerTrimmed(s: string, allowAboveRoot: bool)
    ensures Inner("/" + s, allowAboveRoot) == Inner(s + "/", allowAboveRoot) == Inner(s, allowAboveRoot)
  {
    PartsTrimmed(s);
  }

  // Normalizing twice is normalizing once.
  lemma NormalizedAgain(path: string)
    ensures Normalized(Normalized(path)) == Normalized(path)
  {
    var c, s, up := Core(path), Normalized(path), !Starts(path);
    CoreAgain(path);
    InnerTrimmed(c, up);
    InnerTrimmed(c + "/", up);
    hide Inner;
    var t := if c != "" && Ends(path) then c + "/" else c;
    assert s == if Starts(path) then "/" + t else t;
    assert Starts(s) == Starts(path) && Inner(s, up) == Inner(c, up);
    assert c != "" ==> Ends(s) == Ends(path);
  }
}
