/** What an entry of a layer does, by its name as it is written: which place a whiteout hides, what an opaque marker
    empties, and where any other entry goes. */
module LayerNames {
  import opened Bits
  import opened Layers
  import opened EntryNames

  // ---- names as they are written ----

  /** A name of one component that means itself. */
  predicate Part(s: string) {
    s != "" && s != "." && s != ".." && '/' !in s
  }

  predicate Parts(comps: seq<string>) {
    forall i :: 0 <= i < |comps| ==> Part(comps[i])
  }

  /** The components with slashes between them, and whatever slash or dot may stand before or behind them. */
  predicate Written(name: string, comps: seq<string>, pre: string, post: string) {
    name == pre + Join(comps) + post && pre in ["", "/", "./", "/./"] && post in ["", "/"]
  }

  lemma {:induction false} SplitAtSlash(s: string, t: string)
    ensures Split(s + "/" + t) == Split(s) + Split(t)
  {
    hide Split;
    SplitNothing();
    if s == "" {
      assert "" + "/" + t == "/" + t;
      SplitSlash(t);
    } else {
      var c, r := s[0], s[1..];
      SplitAtSlash(r, t);
      assert s == [c] + r && s + "/" + t == [c] + (r + "/" + t);
      if c == '/' {
        assert [c] == "/";
        SplitSlash(r);
        SplitSlash(r + "/" + t);
      } else {
        SplitFirst(c, r);
        SplitFirst(c, r + "/" + t);
        FirstPartGrown(c, Split(r), Split(t));
      }
    }
  }

  lemma SplitNothing()
    ensures Split("") == [""]
  {}

  lemma FirstPartGrown(c: char, a: seq<string>, b: seq<string>)
    requires a != []
    ensures [[c] + (a + b)[0]] + (a + b)[1..] == ([[c] + a[0]] + a[1..]) + b
  {}

  lemma {:induction false} SplitNone(s: string)
    requires '/' !in s
    ensures Split(s) == [s]
  {
    if s != "" {
      SplitNone(s[1..]);
      assert [s[0]] + s[1..] == s && [s[1..]][1..] == [];
    }
  }

  lemma {:induction false} SplitJoin(comps: seq<string>)
    requires comps != [] && Parts(comps)
    ensures Split(Join(comps)) == comps
  {
    var n := |comps| - 1;
    SplitNone(comps[n]);
    if n == 0 {
      assert comps == [comps[0]];
    } else {
      SplitJoin(comps[..n]);
      SplitAtSlash(Join(comps[..n]), comps[n]);
      assert comps == comps[..n] + [comps[n]];
    }
  }

  lemma {:induction false} CleanOfParts(comps: seq<string>)
    requires Parts(comps)
    ensures CleanParts(false, comps) == comps && CleanParts(false, comps + [""]) == comps
  {
    assert (comps + [""])[..|comps|] == comps;
    if comps != [] {
      CleanOfParts(comps[..|comps| - 1]);
      assert comps == comps[..|comps| - 1] + [comps[|comps| - 1]];
    }
  }

  lemma FirstPart(s: string)
    ensures s == "" ==> Split(s)[0] == ""
    ensures s == "." ==> Split(s)[0] == "."
    ensures s != "" && s[0] == '/' ==> Split(s)[0] == ""
    ensures "./" <= s ==> Split(s)[0] == "."
  {
    SplitDot();
    if s != "" && s[0] == '/' {
      assert s == "/" + s[1..];
      SplitSlash(s[1..]);
    }
    if "./" <= s {
      assert s == "./" + s[2..];
      SplitDotSlash(s[2..]);
    }
  }

  /** A string whose first part means itself has nothing to trim. */
  lemma NothingToTrim(s: string)
    requires Part(Split(s)[0])
    ensures s != "" && s != "." && s[0] != '/' && !("/" <= s) && !("./" <= s)
  {
    FirstPart(s);
    hide Split;
  }

  lemma Trimmed(pre: string, s: string)
    requires pre in ["", "/", "./", "/./"] && !("/" <= s) && !("./" <= s)
    ensures TrimPrefix(TrimPrefix(pre + s, "/"), "./") == s
  {
    assert "" + s == s;
    if pre == "/" {
      assert ("/" + s)[1..] == s;
    } else if pre == "./" {
      assert ("./" + s)[2..] == s && ("./" + s)[0] == '.';
    } else if pre == "/./" {
      assert ("/./" + s)[1..] == "./" + s && ("./" + s)[2..] == s;
    }
  }

  /** Such a name leads through just those components. */
  lemma NameLeads(name: string, comps: seq<string>, pre: string, post: string)
    requires comps != [] && Parts(comps) && Written(name, comps, pre, post)
    ensures CleanEntryName(name) == Some(comps)
  {
    hide Split, CleanParts, Join;
    var s := Join(comps) + post;
    SplitJoin(comps);
    CleanOfParts(comps);
    if post == "/" {
      SplitAtSlash(Join(comps), "");
      SplitNone("");
      assert Join(comps) + "/" + "" == s;
    } else {
      assert s == Join(comps);
    }
    assert Split(s)[0] == comps[0];
    NothingToTrim(s);
    Trimmed(pre, s);
    assert name == pre + s;
  }

  // ---- what a step does to each place ----

  /** On the way from the root to a directory, that one included. */
  predicate OnTheWay(p: Path, dir: Path) {
    p == dir || (dir.In? && OnTheWay(p, dir.dir))
  }

  lemma {:induction false} OnTheWayIs(p: Path, dir: Path)
    ensures OnTheWay(p, dir) <==> Under(dir, p)
  {
    if p != dir && dir.In? {
      OnTheWayIs(p, dir.dir);
    }
  }

  /** At p there is what was there; on the way to the directory it is a directory, one that no entry describes if it was
      none. */
  predicate AsBefore(m: Flat, after: Flat, p: Path, dir: Path, layer: string) {
    Lookup(after, p)
    == if OnTheWay(p, dir) && (p !in m || m[p].kind != Directory) then
         Some(Info("", Directory, Attrs(0, 493, 0, 0, 0, "", ""), "", layer, 0, 0))
       else Lookup(m, p)
  }

  lemma EnsuredIsAsBefore(m: Flat, p: Path, dir: Path, layer: string)
    requires WellFormed(m)
    ensures AsBefore(m, EnsureDir(m, dir, layer), p, dir, layer)
  {
    hide EnsureDir, WellFormed, Under, OnTheWay;
    EnsuredLookup(m, p, dir, layer);
    OnTheWayIs(p, dir);
  }

  /** A name whose last component is ".wh." and another name hides that one in its directory and all below it, and
      changes nothing else but that the directory is there. */
  lemma WhiteoutHides(
    m: Flat, layer: string, h: Header, comps: seq<string>, n: string, pre: string, post: string, p: Path)
    requires WellFormed(m) && Parts(comps) && '/' !in n && n != ".wh..opq"
    requires Written(h.name, comps + [".wh." + n], pre, post)
    ensures Step(m, layer, h).Some?
    ensures var after, gone := Step(m, layer, h).value, In(At(comps), n);
            if Under(p, gone) then p !in after else AsBefore(m, after, p, At(comps), layer)
  {
    var base := ".wh." + n;
    WhiteoutBase(n);
    assert (comps + [base])[..|comps|] == comps && (comps + [base])[|comps|] == base;
    NameLeads(h.name, comps + [base], pre, post);
    hide CleanEntryName, EnsureDir, WellFormed, Under, AsBefore, At, Part, Written, Join;
    assert ChangeOf(h, layer) == Hide(At(comps), n);
    EnsuredIsAsBefore(m, p, At(comps), layer);
    WithoutAt(EnsureDir(m, At(comps), layer), In(At(comps), n), p);
    LookupOnly(m, EnsureDir(m, At(comps), layer), Step(m, layer, h).value, p, At(comps), layer);
  }

  lemma WhiteoutBase(n: string)
    requires '/' !in n && n != ".wh..opq"
    ensures Part(".wh." + n) && WHITEOUT <= ".wh." + n && ".wh." + n != OPAQUE && (".wh." + n)[|WHITEOUT|..] == n
  {
    assert (".wh." + n)[4..] == n && OPAQUE[4..] == ".wh..opq";
  }

  lemma WithoutAt(m: Flat, q: Path, p: Path)
    ensures if Under(p, q) then p !in Without(m, q) else Lookup(Without(m, q), p) == Lookup(m, p)
  {}

  lemma LookupOnly(m: Flat, a: Flat, b: Flat, p: Path, dir: Path, layer: string)
    requires AsBefore(m, a, p, dir, layer)
    ensures Lookup(a, p) == Lookup(b, p) ==> AsBefore(m, b, p, dir, layer)
  {}

  /** The opaque marker empties the directory it is in, which stays, and changes nothing else. */
  lemma OpaqueEmpties(m: Flat, layer: string, h: Header, comps: seq<string>, pre: string, post: string, p: Path)
    requires WellFormed(m) && Parts(comps) && Written(h.name, comps + [".wh..wh..opq"], pre, post)
    ensures Step(m, layer, h).Some?
    ensures var after, dir := Step(m, layer, h).value, At(comps);
            if p != dir && Under(p, dir) then p !in after else AsBefore(m, after, p, dir, layer)
  {
    var base := ".wh..wh..opq";
    assert Part(base) && WHITEOUT <= base && base == OPAQUE;
    assert (comps + [base])[..|comps|] == comps && (comps + [base])[|comps|] == base;
    NameLeads(h.name, comps + [base], pre, post);
    hide CleanEntryName, EnsureDir, WellFormed, Under, AsBefore, At, Part, Written, Join;
    assert ChangeOf(h, layer) == HideAll(At(comps));
    EnsuredIsAsBefore(m, p, At(comps), layer);
    BelowAt(EnsureDir(m, At(comps), layer), At(comps), p);
    LookupOnly(m, EnsureDir(m, At(comps), layer), Step(m, layer, h).value, p, At(comps), layer);
  }

  lemma BelowAt(m: Flat, q: Path, p: Path)
    ensures if p != q && Under(p, q) then p !in Below(m, q) else Lookup(Below(m, q), p) == Lookup(m, p)
  {}

  const TYPES: seq<(char, Kind)> := [
    ('5', Directory), ('0', File), ('\0', File), ('2', Symlink), ('1', Hardlink), ('3', CharDevice),
    ('4', BlockDevice), ('6', Fifo)]

  lemma TypeIs(typeflag: char)
    ensures forall kind :: (typeflag, kind) in TYPES <==> ClassifyType(typeflag) == Some(kind)
  {}

  /** At p there is what an entry puts at q. */
  predicate PutThere(m: Flat, after: Flat, p: Path, q: Path, h: Header, kind: Kind, layer: string) {
    if p == q then
      Lookup(after, p)
      == Some(if q in m && m[q].kind == Directory && kind == Directory then
                Info(h.name, Directory, h.attrs, m[q].linkname, layer, m[q].devmajor, m[q].devminor)
              else Info(h.name, kind, h.attrs, h.linkname, layer, h.devmajor, h.devminor))
    else Lookup(after, p) == if kind == Directory then Lookup(m, p) else None
  }

  /** Any other name is put in its directory: a directory over a directory keeps what is below it, anything else
      takes the place of what was there and below. */
  lemma EntryGoes(
    m: Flat, layer: string, h: Header, comps: seq<string>, base: string, pre: string, post: string, kind: Kind, p: Path)
    requires WellFormed(m) && Parts(comps) && Part(base) && !(".wh." <= base)
    requires Written(h.name, comps + [base], pre, post) && (h.typeflag, kind) in TYPES
    ensures Step(m, layer, h).Some?
    ensures var after, q := Step(m, layer, h).value, In(At(comps), base);
            if Under(p, q) then PutThere(m, after, p, q, h, kind, layer)
            else AsBefore(m, after, p, At(comps), layer)
  {
    hide CleanEntryName, EnsureDir, WellFormed, AsBefore, At, Written, Join, TYPES, ClassifyType, Put, PutThere,
      ChangeOf, Under;
    NameLeads(h.name, comps + [base], pre, post);
    ChangeIs(h, layer, comps, base, kind);
    PutLeaves(m, layer, At(comps), base, h, kind, p);
  }

  lemma ChangeIs(h: Header, layer: string, comps: seq<string>, base: string, kind: Kind)
    requires CleanEntryName(h.name) == Some(comps + [base]) && !(".wh." <= base) && (h.typeflag, kind) in TYPES
    ensures ChangeOf(h, layer) == Set(At(comps), base, InfoOf(h, kind, layer))
  {
    TypeIs(h.typeflag);
    hide CleanEntryName, At, TYPES, ClassifyType;
    assert (comps + [base])[..|comps|] == comps && (comps + [base])[|comps|] == base;
  }

  lemma PutLeaves(m: Flat, layer: string, dir: Path, base: string, h: Header, kind: Kind, p: Path)
    requires WellFormed(m)
    ensures var after, q := Put(EnsureDir(m, dir, layer), In(dir, base), InfoOf(h, kind, layer)), In(dir, base);
            if Under(p, q) then PutThere(m, after, p, q, h, kind, layer) else AsBefore(m, after, p, dir, layer)
  {
    hide EnsureDir, WellFormed, Put, Under, AsBefore, OnTheWay;
    var ensured, q := EnsureDir(m, dir, layer), In(dir, base);
    EnsureDirAt(m, dir, layer);
    PutLookup(ensured, p, q, InfoOf(h, kind, layer));
    UnderItself(q);
    EnsuredIsAsBefore(m, p, dir, layer);
    EnsuredIsAsBefore(m, q, dir, layer);
    if Under(p, q) {
      NotOnTheWay(m, ensured, p, dir, base, layer);
      NotOnTheWay(m, ensured, q, dir, base, layer);
    } else {
      LookupOnly(m, ensured, Put(ensured, q, InfoOf(h, kind, layer)), p, dir, layer);
    }
  }

  lemma UnderItself(q: Path)
    ensures Under(q, q)
  {}

  /** What lies in or below an entry is not on the way to its directory. */
  lemma NotOnTheWay(m: Flat, after: Flat, p: Path, dir: Path, base: string, layer: string)
    requires Under(p, In(dir, base)) && AsBefore(m, after, p, dir, layer)
    ensures Lookup(after, p) == Lookup(m, p)
  {
    OnTheWayIs(p, dir);
    SetElsewhere(p, dir, base);
    hide OnTheWay;
  }

  /** An entry of any other type stops the merge, unless its name is a whiteout. */
  lemma TypeStops(m: Flat, layer: string, h: Header, comps: seq<string>, base: string, pre: string, post: string)
    requires Parts(comps) && Part(base) && !(".wh." <= base) && Written(h.name, comps + [base], pre, post)
    requires forall kind :: (h.typeflag, kind) !in TYPES
    ensures Step(m, layer, h) == None
  {
    assert (comps + [base])[..|comps|] == comps && (comps + [base])[|comps|] == base;
    NameLeads(h.name, comps + [base], pre, post);
    TypeIs(h.typeflag);
    hide CleanEntryName, At, Part, Written, Join, TYPES;
  }

  /** At some part it leads above where it started. */
  predicate Climbs(parts: seq<string>) {
    exists k :: 0 <= k <= |parts| && Net(parts[..k]) < 0
  }

  /** A name that climbs out of the tree stops the merge too, and one for the root changes nothing. */
  lemma OutsideStops(m: Flat, layer: string, h: Header)
    ensures h.name in ["", "/", ".", "./", "/.", "/./"] ==> Step(m, layer, h) == Some(m)
    ensures var trimmed := TrimPrefix(TrimPrefix(h.name, "/"), "./");
            trimmed != "" && trimmed[0] != '/' && Climbs(Split(trimmed)) ==> Step(m, layer, h) == None
  {
    NamesLeadInside(h.name);
    hide Split, CleanParts;
  }
}
