/** What merging image layers means, on a flat map from paths to entries: the whiteout, opaque-directory
    and shadowing rules of the OCI image layer specification, as this program applies them. */
module Layers {
  import opened Bits

  // ---- paths ----

  /** A place in the tree: the root, or a name in another place. */
  datatype Path = Root | In(dir: Path, name: string)

  /** p is q or lies below it. */
  predicate Under(p: Path, q: Path) {
    p == q || (p.In? && Under(p.dir, q))
  }

  function Depth(p: Path): nat {
    if p.Root? then 0 else 1 + Depth(p.dir)
  }

  lemma {:induction false} UnderDepth(p: Path, q: Path)
    requires Under(p, q)
    ensures Depth(q) <= Depth(p) && (Depth(q) == Depth(p) ==> p == q)
  {
    if p != q {
      UnderDepth(p.dir, q);
    }
  }

  /** The place a list of components leads to. */
  function At(comps: seq<string>): Path {
    if comps == [] then Root else In(At(comps[..|comps| - 1]), comps[|comps| - 1])
  }

  /** The path string of a node, as it is put together while the tree is built. */
  function PathString(p: Path): string {
    if p.Root? then "" else JoinRel(PathString(p.dir), p.name)
  }

  function JoinRel(parent: string, name: string): string {
    if parent == "" then name else parent + "/" + name
  }

  // ---- entries ----

  datatype Kind = Directory | File | Symlink | Hardlink | CharDevice | BlockDevice | Fifo

  /** The header fields that a later directory entry refreshes. */
  datatype Attrs = Attrs(size: int, mode: int, modTime: int, uid: int, gid: int, uname: string, gname: string)

  const IMPLICIT_ATTRS := Attrs(0, 493, 0, 0, 0, "", "")

  /** What is known of one place. */
  datatype Info = Info(entryName: string, kind: Kind, attrs: Attrs, linkname: string, layer: string,
                       devmajor: int, devminor: int)

  /** A tar header. */
  datatype Header = Header(name: string, typeflag: char, attrs: Attrs, linkname: string, devmajor: int, devminor: int)

  function ClassifyType(typeflag: char): Option<Kind> {
    if typeflag == '5' then Some(Directory)
    else if typeflag == '0' || typeflag == '\0' then Some(File)
    else if typeflag == '2' then Some(Symlink)
    else if typeflag == '1' then Some(Hardlink)
    else if typeflag == '3' then Some(CharDevice)
    else if typeflag == '4' then Some(BlockDevice)
    else if typeflag == '6' then Some(Fifo)
    else None
  }

  function InfoOf(h: Header, kind: Kind, layer: string): Info {
    Info(h.name, kind, h.attrs, h.linkname, layer, h.devmajor, h.devminor)
  }

  /** A directory no entry describes. */
  function Implicit(layer: string): Info {
    Info("", Directory, IMPLICIT_ATTRS, "", layer, 0, 0)
  }

  /** A directory entry over a directory refreshes what it describes and leaves the rest. */
  function Refreshed(was: Info, now: Info): Info {
    was.(entryName := now.entryName, attrs := now.attrs, layer := now.layer)
  }

  const WHITEOUT := ".wh."
  const OPAQUE := ".wh..wh..opq"

  /** What one entry asks for at a place `dir`. */
  datatype Change =
    | Nothing
    | Invalid
    | HideAll(dir: Path)
    | Hide(dir: Path, name: string)
    | Unsupported(dir: Path)
    | Set(dir: Path, name: string, info: Info)

  function ChangeOf(h: Header, layer: string): Change {
    match CleanEntryName(h.name)
    case None => Invalid
    case Some(comps) =>
      if comps == [] then Nothing
      else
        var dir, base := At(comps[..|comps| - 1]), comps[|comps| - 1];
        if WHITEOUT <= base then
          if base == OPAQUE then HideAll(dir) else Hide(dir, base[|WHITEOUT|..])
        else
          match ClassifyType(h.typeflag)
          case None => Unsupported(dir)
          case Some(kind) => Set(dir, base, InfoOf(h, kind, layer))
  }

  // ---- entry names ----

  function TrimPrefix(s: string, prefix: string): string {
    if prefix <= s then s[|prefix|..] else s
  }

  /** The parts of a string between slashes. */
  function Split(s: string): (parts: seq<string>)
    ensures |parts| >= 1
  {
    if s == "" then [""]
    else
      var rest := Split(s[1..]);
      if s[0] == '/' then [""] + rest else [[s[0]] + rest[0]] + rest[1..]
  }

  /** Lexical cleaning of the parts of a path: drops empty parts and ".", lets ".." take the part before
      it away, keeps ".." that has nothing to take unless the path is rooted. */
  function CleanParts(rooted: bool, parts: seq<string>): seq<string> {
    if parts == [] then []
    else
      var done, part := CleanParts(rooted, parts[..|parts| - 1]), parts[|parts| - 1];
      if part == "" || part == "." then done
      else if part != ".." then done + [part]
      else if done != [] && done[|done| - 1] != ".." then done[..|done| - 1]
      else if rooted then done
      else done + [part]
  }

  /** The components a raw entry name leads through, [] for the root, None when it leads out of the tree.
      A name that still starts with a slash after one was trimmed is not cleaned to a relative path: it
      leads through components with an empty name. */
  function CleanEntryName(name: string): Option<seq<string>> {
    var trimmed := TrimPrefix(TrimPrefix(name, "/"), "./");
    if trimmed == "" || trimmed == "." then Some([])
    else
      var rooted := trimmed[0] == '/';
      var parts := CleanParts(rooted, Split(trimmed));
      if !rooted then
        if parts != [] && parts[0] == ".." then None else Some(parts)
      else if |parts| == 0 then Some(["", "", "/"])
      else if |parts| == 1 then Some(["", ""] + parts)
      else Some([""] + parts)
  }

  // ---- merging, on the flat map ----

  type Flat = map<Path, Info>

  /** Makes every place from the root to p a directory, putting implicit ones where there is none. */
  function EnsureDir(m: Flat, p: Path, layer: string): Flat {
    if p.Root? then m
    else
      var above := EnsureDir(m, p.dir, layer);
      if p in above && above[p].kind == Directory then above else above[p := Implicit(layer)]
  }

  function Without(m: Flat, q: Path): Flat {
    map p | p in m && !Under(p, q) :: m[p]
  }

  function Below(m: Flat, q: Path): Flat {
    map p | p in m && (p == q || !Under(p, q)) :: m[p]
  }

  function Put(m: Flat, q: Path, info: Info): Flat {
    if q in m && m[q].kind == Directory && info.kind == Directory then m[q := Refreshed(m[q], info)]
    else Without(m, q)[q := info]
  }

  /** One entry of a layer; None when it stops the merge. */
  function Step(m: Flat, layer: string, h: Header): Option<Flat> {
    match ChangeOf(h, layer)
    case Nothing => Some(m)
    case Invalid => None
    case Unsupported(_) => None
    case HideAll(dir) => Some(Below(EnsureDir(m, dir, layer), dir))
    case Hide(dir, name) => Some(Without(EnsureDir(m, dir, layer), In(dir, name)))
    case Set(dir, name, info) => Some(Put(EnsureDir(m, dir, layer), In(dir, name), info))
  }

  /** A header with the layer it comes from. */
  datatype Entry = Entry(layer: string, h: Header)

  const EMPTY: Flat := map[Root := Info("", Directory, IMPLICIT_ATTRS, "", "", 0, 0)]

  /** All entries, in order. */
  function Merge(entries: seq<Entry>): Option<Flat> {
    if entries == [] then Some(EMPTY)
    else
      var e := entries[|entries| - 1];
      match Merge(entries[..|entries| - 1])
      case None => None
      case Some(m) => Step(m, e.layer, e.h)
  }

  // ---- well-formedness: everything lies in a directory ----

  ghost predicate WellFormed(m: Flat) {
    && Root in m && m[Root].kind == Directory
    && forall p :: p in m && p.In? ==> p.dir in m && m[p.dir].kind == Directory
  }

  lemma {:induction false} AboveIsDirectory(m: Flat, p: Path, q: Path)
    requires WellFormed(m) && p in m && Under(p, q) && p != q
    ensures q in m && m[q].kind == Directory
  {
    if p.dir != q {
      AboveIsDirectory(m, p.dir, q);
    }
  }

  /** The only thing EnsureDir does: places from the root to p become directories. */
  lemma {:induction false} EnsureDirAt(m: Flat, p: Path, layer: string)
    requires WellFormed(m)
    ensures WellFormed(EnsureDir(m, p, layer))
    ensures p in EnsureDir(m, p, layer) && EnsureDir(m, p, layer)[p].kind == Directory
    ensures forall q :: q in EnsureDir(m, p, layer) <==> q in m || Under(p, q)
    ensures forall q :: q in EnsureDir(m, p, layer) ==>
              EnsureDir(m, p, layer)[q] ==
                if q in m && (m[q].kind == Directory || !Under(p, q)) then m[q] else Implicit(layer)
  {
    if p.In? {
      EnsureDirAt(m, p.dir, layer);
      var above := EnsureDir(m, p.dir, layer);
      if Under(p.dir, p) {
        UnderDepth(p.dir, p);
      }
      forall q | q in above && q.In? && q.dir == p
        ensures above[p].kind == Directory
      {}
    }
  }

  lemma WithoutWellFormed(m: Flat, q: Path)
    requires WellFormed(m) && q.In?
    ensures WellFormed(Without(m, q))
  {}

  lemma BelowWellFormed(m: Flat, q: Path)
    requires WellFormed(m)
    ensures WellFormed(Below(m, q))
  {
    forall p | p in Below(m, q) && p.In?
      ensures p.dir in Below(m, q)
    {
      if p == q && Under(p.dir, q) {
        UnderDepth(p.dir, q);
      }
    }
  }

  lemma PutWellFormed(m: Flat, q: Path, info: Info)
    requires WellFormed(m) && q.In? && q.dir in m && m[q.dir].kind == Directory
    ensures WellFormed(Put(m, q, info))
  {
    if Under(q.dir, q) {
      UnderDepth(q.dir, q);
    }
    forall p | p in Without(m, q) && p.In? && p.dir == q
      ensures false
    {
      assert Under(p, q);
      assert false;
    }
  }

  /** Every step keeps everything inside a directory. */
  lemma StepWellFormed(m: Flat, layer: string, h: Header)
    requires WellFormed(m)
    ensures Step(m, layer, h).Some? ==> WellFormed(Step(m, layer, h).value)
  {
    hide ChangeOf, EnsureDir, WellFormed, Without, Below, Put;
    match ChangeOf(h, layer)
    case HideAll(dir) =>
      EnsureDirAt(m, dir, layer);
      BelowWellFormed(EnsureDir(m, dir, layer), dir);
    case Hide(dir, name) =>
      EnsureDirAt(m, dir, layer);
      WithoutWellFormed(EnsureDir(m, dir, layer), In(dir, name));
    case Set(dir, name, info) =>
      EnsureDirAt(m, dir, layer);
      PutWellFormed(EnsureDir(m, dir, layer), In(dir, name), info);
    case _ =>
  }

  // ---- the same, one place at a time ----

  /** What an entry makes of one place p that holds `was`, without looking at any other place. */
  function StepAt(was: Option<Info>, p: Path, layer: string, h: Header): Option<Info> {
    match ChangeOf(h, layer)
    case Nothing => was
    case Invalid => was
    case Unsupported(_) => was
    case HideAll(dir) => if Under(p, dir) && p != dir then None else EnsuredAt(was, p, dir, layer)
    case Hide(dir, name) => if Under(p, In(dir, name)) then None else EnsuredAt(was, p, dir, layer)
    case Set(dir, name, info) =>
      if p == In(dir, name) then
        Some(if was.Some? && was.value.kind == Directory && info.kind == Directory then Refreshed(was.value, info)
             else info)
      else if Under(p, In(dir, name)) then
        if info.kind == Directory then was else None
      else EnsuredAt(was, p, dir, layer)
  }

  /** A place on the way to the entry becomes a directory. */
  function EnsuredAt(was: Option<Info>, p: Path, dir: Path, layer: string): Option<Info> {
    if Under(dir, p) && !(was.Some? && was.value.kind == Directory) then Some(Implicit(layer)) else was
  }

  function Lookup(m: Flat, p: Path): Option<Info> {
    if p in m then Some(m[p]) else None
  }

  /** What is at p after all entries, by the entries' effects on p alone. */
  function History(entries: seq<Entry>, p: Path): Option<Info> {
    if entries == [] then Lookup(EMPTY, p)
    else
      var e := entries[|entries| - 1];
      StepAt(History(entries[..|entries| - 1], p), p, e.layer, e.h)
  }

  lemma EnsuredLookup(m: Flat, p: Path, dir: Path, layer: string)
    requires WellFormed(m)
    ensures Lookup(EnsureDir(m, dir, layer), p) == EnsuredAt(Lookup(m, p), p, dir, layer)
  {
    hide EnsureDir, Under;
    EnsureDirAt(m, dir, layer);
    assert Under(dir, p) || !Under(dir, p);
  }

  lemma PutLookup(m: Flat, p: Path, q: Path, info: Info)
    requires WellFormed(m) && q.In?
    ensures Lookup(Put(m, q, info), p) ==
              if p == q then
                Some(if q in m && m[q].kind == Directory && info.kind == Directory then Refreshed(m[q], info) else info)
              else if Under(p, q) && info.kind != Directory then None
              else Lookup(m, p)
  {
    if p in m && Under(p, q) && p != q {
      AboveIsDirectory(m, p, q);
    }
  }

  /** A step changes each place by itself. */
  lemma StepLookup(m: Flat, layer: string, h: Header, p: Path)
    requires WellFormed(m) && Step(m, layer, h).Some?
    ensures Lookup(Step(m, layer, h).value, p) == StepAt(Lookup(m, p), p, layer, h)
  {
    hide ChangeOf, EnsureDir, EnsuredAt, WellFormed, Put;
    match ChangeOf(h, layer)
    case HideAll(dir) =>
      EnsuredLookup(m, p, dir, layer);
    case Hide(dir, name) =>
      EnsuredLookup(m, p, dir, layer);
    case Set(dir, name, info) =>
      var q := In(dir, name);
      EnsureDirAt(m, dir, layer);
      EnsuredLookup(m, p, dir, layer);
      EnsuredLookup(m, q, dir, layer);
      PutLookup(EnsureDir(m, dir, layer), p, q, info);
      SetElsewhere(p, dir, name);
      EnsuredBelow(Lookup(m, p), p, dir, layer);
      EnsuredBelow(Lookup(m, q), q, dir, layer);
    case _ =>
  }

  lemma SetElsewhere(p: Path, dir: Path, name: string)
    ensures Under(p, In(dir, name)) ==> !Under(dir, p)
  {
    if Under(p, In(dir, name)) && Under(dir, p) {
      UnderDepth(p, In(dir, name));
      UnderDepth(dir, p);
    }
  }

  lemma EnsuredBelow(was: Option<Info>, p: Path, dir: Path, layer: string)
    ensures !Under(dir, p) ==> EnsuredAt(was, p, dir, layer) == was
  {}

  /** After any sequence of entries, every place holds what the entries' effects on it alone say. */
  lemma {:induction false} MergeIsHistory(entries: seq<Entry>, p: Path)
    requires Merge(entries).Some?
    ensures WellFormed(Merge(entries).value)
    ensures Lookup(Merge(entries).value, p) == History(entries, p)
  {
    hide Step, StepAt;
    if entries != [] {
      var n := |entries| - 1;
      MergeIsHistory(entries[..n], p);
      var m, e := Merge(entries[..n]).value, entries[n];
      StepWellFormed(m, e.layer, e.h);
      StepLookup(m, e.layer, e.h, p);
    }
  }
}
