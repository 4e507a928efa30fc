/** What entry names lead to: which ones leave the tree, when a node's path string is its component
    chain, and when an entry is found again by its own name. */
module EntryNames {
  import opened Bits
  import opened Layers

  // ---- names that leave the tree ----

  /** How far below its start a list of parts ends, counting ".." as one up even from the start. */
  function Net(parts: seq<string>): int {
    if parts == [] then 0
    else
      var part := parts[|parts| - 1];
      Net(parts[..|parts| - 1]) + (if part == "" || part == "." then 0 else if part == ".." then -1 else 1)
  }

  /** How many ".." cleaning leaves at the front of an unrooted path. */
  function Ups(parts: seq<string>): nat {
    if parts == [] then 0
    else
      var rest := parts[..|parts| - 1];
      if parts[|parts| - 1] == ".." && |CleanParts(false, rest)| == Ups(rest) then Ups(rest) + 1 else Ups(rest)
  }

  predicate Plain(part: string) {
    part != "" && part != "." && part != ".."
  }

  /** A cleaned unrooted path is some ".." followed by plain names, and ends as far down as it should. */
  lemma {:induction false} CleanShape(parts: seq<string>)
    ensures var c, d := CleanParts(false, parts), Ups(parts);
            && d <= |c|
            && (forall i :: 0 <= i < d ==> c[i] == "..")
            && (forall i :: d <= i < |c| ==> Plain(c[i]))
            && Net(parts) == |c| - 2 * d
  {
    if parts != [] {
      CleanShape(parts[..|parts| - 1]);
    }
  }

  lemma {:induction false} RootedShape(parts: seq<string>)
    ensures forall i :: 0 <= i < |CleanParts(true, parts)| ==> Plain(CleanParts(true, parts)[i])
  {
    if parts != [] {
      RootedShape(parts[..|parts| - 1]);
    }
  }

  lemma {:induction false} UpsGrow(parts: seq<string>, k: nat)
    requires k <= |parts|
    ensures Ups(parts[..k]) <= Ups(parts)
  {
    if k == |parts| {
      assert parts[..k] == parts;
    } else {
      UpsGrow(parts[..|parts| - 1], k);
      assert parts[..|parts| - 1][..k] == parts[..k];
    }
  }

  lemma {:induction false} ClimbsAbove(parts: seq<string>)
    requires Ups(parts) > 0
    ensures exists k :: 0 <= k <= |parts| && Net(parts[..k]) < 0
  {
    var rest := parts[..|parts| - 1];
    if Ups(rest) > 0 {
      ClimbsAbove(rest);
      var k :| 0 <= k <= |rest| && Net(rest[..k]) < 0;
      assert parts[..k] == rest[..k];
    } else {
      CleanShape(parts);
      assert parts[..|parts|] == parts;
    }
  }

  /** Cleaning an unrooted path leaves a ".." in front exactly when the path at some point leads above
      where it started, even if it comes back. */
  lemma EscapesWhenClimbing(parts: seq<string>)
    ensures (CleanParts(false, parts) != [] && CleanParts(false, parts)[0] == "..")
       <==> exists k :: 0 <= k <= |parts| && Net(parts[..k]) < 0
  {
    CleanShape(parts);
    if Ups(parts) > 0 {
      ClimbsAbove(parts);
    }
    if k :| 0 <= k <= |parts| && Net(parts[..k]) < 0 {
      CleanShape(parts[..k]);
      UpsGrow(parts, k);
    }
  }

  /** An entry name is refused exactly when it is unrooted and climbs above the tree; a name that is taken
      leads through plain names only, except that a rooted one starts with an empty name. */
  lemma NamesLeadInside(name: string)
    ensures var trimmed := TrimPrefix(TrimPrefix(name, "/"), "./");
            var r, rooted := CleanEntryName(name), trimmed != "" && trimmed[0] == '/';
            && (r.None? <==> !rooted && exists k :: 0 <= k <= |Split(trimmed)| && Net(Split(trimmed)[..k]) < 0)
            && (r.Some? && !rooted ==> forall i :: 0 <= i < |r.value| ==> Plain(r.value[i]))
            && (rooted ==> r.Some? && |r.value| >= 2 && r.value[0] == "")
  {
    hide Split, CleanParts;
    var trimmed := TrimPrefix(TrimPrefix(name, "/"), "./");
    var parts := Split(trimmed);
    EscapesWhenClimbing(parts);
    CleanShape(parts);
    RootedShape(parts);
    EmptyNames(trimmed);
  }

  lemma EmptyNames(trimmed: string)
    ensures trimmed == "" || trimmed == "." ==> forall k :: 0 <= k <= |Split(trimmed)| ==> Net(Split(trimmed)[..k]) == 0
  {
    SplitDot();
    if trimmed == "" || trimmed == "." {
      var parts := Split(trimmed);
      assert |parts| == 1;
      forall k | 0 <= k <= |parts|
        ensures Net(parts[..k]) == 0
      {
        if k == 1 {
          assert parts[..1][..0] == [];
          assert Net(parts[..1][..0]) == 0;
        }
      }
    }
  }

  // ---- path strings ----

  /** The components joined with slashes. */
  function Join(comps: seq<string>): string {
    if comps == [] then ""
    else if |comps| == 1 then comps[0]
    else Join(comps[..|comps| - 1]) + "/" + comps[|comps| - 1]
  }

  lemma {:induction false} PathStringJoins(comps: seq<string>)
    requires comps != [] && comps[0] != ""
    ensures PathString(At(comps)) == Join(comps) != ""
  {
    if |comps| == 1 {
      assert At(comps[..0]) == Root;
    } else {
      PathStringJoins(comps[..|comps| - 1]);
    }
  }

  lemma {:induction false} PathStringLength(comps: seq<string>)
    requires |comps| >= 2 && comps[0] == ""
    ensures |PathString(At(comps))| < |Join(comps)|
  {
    var n := |comps| - 1;
    var front := comps[..n];
    if n == 1 {
      assert front[..0] == [] && At(front) == In(Root, "") && PathString(At(front)) == "";
      assert Join(front) == "";
    } else {
      PathStringLength(front);
    }
  }

  /** A node's path string is its components joined with slashes exactly when it has at most one component
      or its first one is not empty, as for every name that is not rooted. */
  lemma PathStringIsChain(comps: seq<string>)
    ensures PathString(At(comps)) == Join(comps) <==> |comps| <= 1 || comps[0] != ""
  {
    if comps == [] {
    } else if comps[0] != "" {
      PathStringJoins(comps);
    } else if |comps| == 1 {
      assert At(comps[..0]) == Root;
    } else {
      PathStringLength(comps);
    }
  }

  // ---- finding entries by name ----

  /** The components a path asked for leads through; blanks around it are taken to be trimmed. */
  function NormalizePath(p: string): Option<seq<string>> {
    var trimmed := TrimPrefix(p, "/");
    var rooted := trimmed != "" && trimmed[0] == '/';
    var parts := CleanParts(rooted, Split(trimmed));
    if !rooted then
      if parts != [] && parts[0] == ".." then None else Some(parts)
    else if |parts| == 0 then Some(["", ""])
    else Some([""] + parts)
  }

  lemma {:induction false} CleanSkipsDot(parts: seq<string>)
    ensures CleanParts(false, ["."] + parts) == CleanParts(false, parts)
  {
    if parts == [] {
      assert ["."] + parts == ["."];
      assert ["."][..0] == [];
    } else {
      var n := |parts| - 1;
      CleanSkipsDot(parts[..n]);
      assert (["."] + parts)[..|["."] + parts| - 1] == ["."] + parts[..n];
    }
  }

  lemma SplitFirst(c: char, s: string)
    requires c != '/'
    ensures Split([c] + s) == [[c] + Split(s)[0]] + Split(s)[1..]
  {
    assert ([c] + s)[1..] == s;
  }

  lemma SplitSlash(s: string)
    ensures Split("/" + s) == [""] + Split(s)
  {
    assert ("/" + s)[1..] == s;
  }

  lemma SplitDotSlash(s: string)
    ensures Split("./" + s) == ["."] + Split(s)
  {
    SplitSlash(s);
    SplitFirst('.', "/" + s);
    assert "./" + s == ['.'] + ("/" + s);
    assert ['.'] + "" == "." && ([""] + Split(s))[1..] == Split(s);
  }

  lemma SplitDot()
    ensures Split("") == [""] && Split(".") == ["."]
  {
    SplitFirst('.', "");
    assert ['.'] + "" == ".";
  }

  lemma CleanNothing()
    ensures CleanParts(false, Split("")) == [] && CleanParts(false, Split(".")) == []
  {
    SplitDot();
    assert [""][..0] == [] && ["."][..0] == [];
    assert CleanParts(false, []) == [];
  }

  /** Asking for an entry by its own name leads to the place it was put, unless the name, with its
      leading slash and "./" trimmed, starts with a slash again; then only if it has at least two plain
      parts and no "./" was trimmed. */
  lemma FoundByOwnName(name: string)
    ensures var once := TrimPrefix(name, "/");
            var trimmed := TrimPrefix(once, "./");
            (NormalizePath(name) == CleanEntryName(name)) <==>
            (!("/" <= trimmed) || ("/" <= once && |CleanParts(true, Split(trimmed))| >= 2))
  {
    hide CleanParts, Split;
    var once := TrimPrefix(name, "/");
    var trimmed := TrimPrefix(once, "./");
    CleanNothing();
    if "./" <= once {
      assert once == "./" + trimmed;
      SplitDotSlash(trimmed);
      CleanSkipsDot(Split(trimmed));
      CleanSkipsEmpty(trimmed);
      CleanShape(Split(once));
    } else {
      assert trimmed == once;
      var parts := CleanParts(true, Split(trimmed));
      assert ["", ""] != ["", "", "/"];
      assert |parts| == 1 ==> [""] + parts != ["", ""] + parts;
    }
  }

  lemma CleanSkipsEmpty(trimmed: string)
    ensures "/" <= trimmed ==> CleanParts(false, Split(trimmed)) == [] || CleanParts(false, Split(trimmed))[0] != ""
  {
    CleanShape(Split(trimmed));
  }
}
