/** Known paths for lib/path.js, most of them from test/simple/test-path.js. */
module PathKnown {
  import opened Path

  lemma Cut(s: string, a: string, b: string, parts: seq<string>)
    requires s == a + "/" + b && parts == Parts(a) + Parts(b)
    ensures Parts(s) == parts
  {
    PartsApart(a, b);
  }

  lemma One(a: string)
    requires '/' !in a
    ensures Parts(a) == if a == "" then [] else [a]
  {
    if a == "" {
      assert Split("") == [""];
    } else {
      PartsOfJoin([a]);
    }
  }

  lemma Two(s: string, a: string, b: string)
    requires s == a + "/" + b && '/' !in a && '/' !in b
    ensures Parts(s) == (if a == "" then [] else [a]) + if b == "" then [] else [b]
  {
    One(a);
    One(b);
    Cut(s, a, b, Parts(a) + Parts(b));
  }

  // The parts of a few paths
  lemma KnownParts()
    ensures Parts("/var/lib") == ["var", "lib"] && Parts("/var/apache") == ["var", "apache"]
    ensures Parts("/bin") == ["bin"] && Parts("/") == [] && Parts("") == [] && Parts("a/..") == ["a", ".."]
  {
    hide Parts;
    One("");
    Two("/", "", "");
    Two("/bin", "", "bin");
    Two("a/..", "a", "..");
    Two("var/lib", "var", "lib");
    Cut("/var/lib", "", "var/lib", ["var", "lib"]);
    Two("var/apache", "var", "apache");
    Cut("/var/apache", "", "var/apache", ["var", "apache"]);
  }

  lemma KnownLongParts()
    ensures Parts("/foo/bar/") == ["foo", "bar"] && Parts("/foo/../../../bar") == ["foo", "..", "..", "..", "bar"]
    ensures Parts("a//b//../b") == ["a", "b", "..", "b"] && Parts("../a/./b/") == ["..", "a", ".", "b"]
  {
    hide Parts;
    Two("/foo", "", "foo");
    Two("bar/", "bar", "");
    Cut("/foo/bar/", "/foo", "bar/", ["foo", "bar"]);
    Two("../..", "..", "..");
    Cut("/foo/../..", "/foo", "../..", ["foo", "..", ".."]);
    Two("../bar", "..", "bar");
    Cut("/foo/../../../bar", "/foo/../..", "../bar", ["foo", "..", "..", "..", "bar"]);
    Two("a/", "a", "");
    Two("b/", "b", "");
    Cut("a//b/", "a/", "b/", ["a", "b"]);
    Two("../b", "..", "b");
    Cut("a//b//../b", "a//b/", "../b", ["a", "b", "..", "b"]);
    Two("../a", "..", "a");
    One(".");
    Cut("../a/.", "../a", ".", ["..", "a", "."]);
    Cut("../a/./b/", "../a/.", "b/", ["..", "a", ".", "b"]);
  }

  // One step of a walk
  lemma Then(parts: seq<string>, whole: seq<string>, there: Place)
    requires whole != [] && parts == whole[..|whole| - 1] && there == Step(Walk(HERE, parts), whole[|whole| - 1])
    ensures Walk(HERE, whole) == there
  {
  }

  lemma KnownWalks()
    ensures Walk(HERE, []) == HERE
    ensures Walk(HERE, ["var", "lib"]) == Place(0, ["var", "lib"])
    ensures Walk(HERE, ["foo", "bar"]) == Place(0, ["foo", "bar"])
    ensures Walk(HERE, ["a", ".."]) == HERE && Walk(HERE, ["a", "b", "..", "b"]) == Place(0, ["a", "b"])
    ensures Walk(HERE, ["foo", "..", "..", "..", "bar"]) == Place(2, ["bar"])
    ensures Walk(HERE, ["..", "a", ".", "b"]) == Place(1, ["a", "b"])
  {
    hide Walk, Step;
    Down([]);
    Down(["var", "lib"]);
    Down(["foo", "bar"]);
    BackAndForth();
    BeyondRoot();
    FromAbove();
  }

  lemma BackAndForth()
    ensures Walk(HERE, ["a", ".."]) == HERE && Walk(HERE, ["a", "b", "..", "b"]) == Place(0, ["a", "b"])
  {
    hide Walk;
    Down(["a", "b"]);
    Down(["a"]);
    Then(["a"], ["a", ".."], HERE);
    Then(["a", "b"], ["a", "b", ".."], Place(0, ["a"]));
    Then(["a", "b", ".."], ["a", "b", "..", "b"], Place(0, ["a", "b"]));
  }

  lemma BeyondRoot()
    ensures Walk(HERE, ["foo", "..", "..", "..", "bar"]) == Place(2, ["bar"])
  {
    hide Walk;
    Down(["foo"]);
    Then(["foo"], ["foo", ".."], HERE);
    Then(["foo", ".."], ["foo", "..", ".."], Place(1, []));
    Then(["foo", "..", ".."], ["foo", "..", "..", ".."], Place(2, []));
    Then(["foo", "..", "..", ".."], ["foo", "..", "..", "..", "bar"], Place(2, ["bar"]));
  }

  lemma FromAbove()
    ensures Walk(HERE, ["..", "a", ".", "b"]) == Place(1, ["a", "b"])
  {
    hide Walk;
    Down([]);
    Then([], [".."], Place(1, []));
    Then([".."], ["..", "a"], Place(1, ["a"]));
    Then(["..", "a"], ["..", "a", "."], Place(1, ["a"]));
    Then(["..", "a", "."], ["..", "a", ".", "b"], Place(1, ["a", "b"]));
  }

  lemma Down(names: seq<string>)
    requires Named(names)
    ensures Walk(HERE, names) == Place(0, names)
  {
    WalkDown(HERE, names);
    assert [] + names == names;
  }

  lemma JoinTwo(a: string, b: string, s: string)
    requires s == a + "/" + b
    ensures Join([a, b]) == s && Join([a]) == a && Join([b]) == b && Join([]) == ""
  {
    assert [a, b][1..] == [b];
  }

  lemma JoinThree(a: string, b: string, c: string, bc: string, s: string)
    requires bc == b + "/" + c && s == a + "/" + bc
    ensures Join([a, b, c]) == s
  {
    JoinTwo(b, c, bc);
    assert [a, b, c][1..] == [b, c];
  }

  // A path whose walk and the writing of its parts are known
  lemma NormalOf(path: string, at: Place, route: seq<string>, s: string)
    requires Walk(HERE, Parts(path)) == at && route == (if Starts(path) then [] else Ups(at.above)) + at.names
    requires s == (if Starts(path) then "/" else "")
      + (if route == [] && !Starts(path) then "." else Join(route))
      + (if Ends(path) && (Join(route) != "" || !Starts(path)) then "/" else "")
    requires route != [] ==> Join(route) != ""
    ensures Normalized(path) == s
  {
    hide Walk, Parts;
    JoinNothing();
    assert [] + at.names == at.names;
  }

  lemma KnownNormals()
    ensures Normalized("/foo/bar/") == "/foo/bar/" && Normalized("/foo/../../../bar") == "/bar"
    ensures Normalized("a//b//../b") == "a/b" && Normalized("../a/./b/") == "../a/b/"
    ensures Normalized("a/..") == "." && Normalized("") == "." && Normalized("/") == "/"
  {
    hide Walk, Parts, Join;
    KnownParts();
    KnownLongParts();
    KnownWalks();
    JoinTwo("foo", "bar", "foo/bar");
    JoinTwo("a", "b", "a/b");
    JoinThree("..", "a", "b", "a/b", "../a/b");
    JoinTwo("", "bar", "/bar");
    NormalOf("/foo/bar/", Place(0, ["foo", "bar"]), ["foo", "bar"], "/foo/bar/");
    NormalOf("/foo/../../../bar", Place(2, ["bar"]), ["bar"], "/bar");
    NormalOf("a//b//../b", Place(0, ["a", "b"]), ["a", "b"], "a/b");
    NormalOf("../a/./b/", Place(1, ["a", "b"]), ["..", "a", "b"], "../a/b/");
    NormalOf("a/..", HERE, [], ".");
    NormalOf("", HERE, [], ".");
    NormalOf("/", HERE, [], "/");
  }

  // Where an absolute path leads, whatever the current directory is
  lemma NamesOf(cwd: string, path: string)
    requires path != "" && path[0] == '/'
    ensures Names(cwd, [path]) == Walk(HERE, Parts(path)).names
  {
    hide Walk, Parts;
  }

  lemma KnownNames(cwd: string)
    ensures Names(cwd, ["/var/lib"]) == ["var", "lib"] && Names(cwd, ["/var/apache"]) == ["var", "apache"]
    ensures Names(cwd, ["/bin"]) == ["bin"] && Names(cwd, ["/"]) == []
  {
    hide Walk, Parts, Names;
    KnownParts();
    KnownWalks();
    Down(["var", "apache"]);
    Down(["bin"]);
    NamesOf(cwd, "/var/lib");
    NamesOf(cwd, "/var/apache");
    NamesOf(cwd, "/bin");
    NamesOf(cwd, "/");
  }

  // What `relative` gives for two absolute paths
  lemma KnownWays(cwd: string)
    ensures Join(Between(Names(cwd, ["/var/lib"]), Names(cwd, ["/var/apache"]))) == "../apache"
    ensures Join(Between(Names(cwd, ["/var/lib"]), Names(cwd, ["/bin"]))) == "../../bin"
    ensures Join(Between(Names(cwd, ["/var/lib"]), Names(cwd, ["/var/lib"]))) == ""
    ensures Join(Between(Names(cwd, ["/"]), Names(cwd, ["/var/lib"]))) == "var/lib"
    ensures Join(Between(Names(cwd, ["/var/lib"]), Names(cwd, ["/"]))) == "../.."
  {
    hide Names, Join;
    KnownNames(cwd);
    JoinTwo("..", "apache", "../apache");
    JoinTwo("..", "..", "../..");
    JoinTwo("var", "lib", "var/lib");
    JoinTwo("..", "bin", "../bin");
    JoinThree("..", "..", "bin", "../bin", "../../bin");
    CommonIs(["var", "lib"], ["var", "apache"], 1);
    CommonIs(["var", "lib"], ["bin"], 0);
    CommonIs(["var", "lib"], ["var", "lib"], 2);
    CommonIs([], ["var", "lib"], 0);
    CommonIs(["var", "lib"], [], 0);
    hide Common;
    assert Between(["var", "lib"], ["var", "apache"]) == ["..", "apache"];
    assert Between(["var", "lib"], ["bin"]) == ["..", "..", "bin"];
    assert Between(["var", "lib"], ["var", "lib"]) == [];
    assert Between([], ["var", "lib"]) == ["var", "lib"];
    assert Between(["var", "lib"], []) == ["..", ".."];
  }

  // The paths are gone along from the last absolute one on.
  lemma Gather(paths: seq<string>, last: string, all: seq<string>, t: Trail)
    requires all == paths + [last]
    requires t ==
      if last == "" then Gathered(paths)
      else if last[0] == '/' then Trail(Parts(last), true)
      else Trail(Gathered(paths).parts + Parts(last), Gathered(paths).absolute)
    ensures Gathered(all) == t
  {
    assert all[..|all| - 1] == paths && all[|all| - 1] == last;
    hide Parts;
  }

  lemma KnownTrails()
    ensures Gathered(["/var/lib", "../", "file/"]) == Trail(["var", "lib", "..", "file"], true)
    ensures Gathered(["/home", "/some/dir", ".", "/absolute/"]) == Trail(["absolute"], true)
    ensures Gathered(["/home", ""]) == Trail(["home"], true) && Gathered([""]) == Trail([], false)
  {
    hide Parts, Gathered;
    KnownParts();
    One("file");
    Two("../", "..", "");
    Two("file/", "file", "");
    Two("/home", "", "home");
    Two("/absolute", "", "absolute");
    Cut("/absolute/", "/absolute", "", ["absolute"]);
    NoTrail();
    Gather([], "/var/lib", ["/var/lib"], Trail(["var", "lib"], true));
    Gather(["/var/lib"], "../", ["/var/lib", "../"], Trail(["var", "lib", ".."], true));
    Gather(["/var/lib", "../"], "file/", ["/var/lib", "../", "file/"], Trail(["var", "lib", "..", "file"], true));
    Gather([], "/home", ["/home"], Trail(["home"], true));
    Gather(["/home"], "", ["/home", ""], Trail(["home"], true));
    Gather(["/home", "/some/dir", "."], "/absolute/", ["/home", "/some/dir", ".", "/absolute/"],
           Trail(["absolute"], true));
    Gather([], "", [""], Trail([], false));
  }

  lemma NoTrail()
    ensures Gathered([]) == Trail([], false)
  {
  }

  lemma ResolvedOf(cwd: string, paths: seq<string>, all: seq<string>, parts: seq<string>, names: seq<string>, s: string)
    requires all == [cwd] + paths && Gathered(all) == Trail(parts, true)
    requires Walk(HERE, parts).names == names && s == "/" + Join(names)
    ensures Resolved(cwd, paths) == s
  {
    hide Walk, Gathered, Join;
    assert [] + names == names;
  }

  // What `resolve` gives
  lemma KnownResolved()
    ensures Resolved("/var/lib", ["../", "file/"]) == "/var/file"
    ensures Resolved("/home", ["/some/dir", ".", "/absolute/"]) == "/absolute"
    ensures Resolved("/home", [""]) == "/home" && Resolved("", []) == "."
  {
    hide Walk, Parts, Join, Gathered, Resolved;
    KnownTrails();
    UpAndDown();
    Down(["absolute"]);
    Down(["home"]);
    JoinTwo("var", "file", "var/file");
    JoinTwo("absolute", "home", "absolute/home");
    ResolvedOf("/var/lib", ["../", "file/"], ["/var/lib", "../", "file/"], ["var", "lib", "..", "file"],
               ["var", "file"], "/var/file");
    ResolvedOf("/home", ["/some/dir", ".", "/absolute/"], ["/home", "/some/dir", ".", "/absolute/"], ["absolute"],
               ["absolute"], "/absolute");
    ResolvedOf("/home", [""], ["/home", ""], ["home"], ["home"], "/home");
    NoneResolved();
  }

  lemma NoneResolved()
    ensures Resolved("", []) == "."
  {
    hide Walk, Parts, Join, Gathered;
    KnownTrails();
    JoinNothing();
    assert [""] + [] == [""] && Ups(0) == [];
  }

  lemma UpAndDown()
    ensures Walk(HERE, ["var", "lib", "..", "file"]) == Place(0, ["var", "file"])
  {
    hide Walk;
    Down(["var", "lib"]);
    Then(["var", "lib"], ["var", "lib", ".."], Place(0, ["var"]));
    Then(["var", "lib", ".."], ["var", "lib", "..", "file"], Place(0, ["var", "file"]));
  }
}
