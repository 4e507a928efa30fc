/** The in-memory tree that layers are merged into, changed in place entry by entry. */
module FsView {
  import opened Bits
  import opened Layers

  class Node {
    const name: string
    const path: string
    var info: Info
    var children: seq<Node>

    constructor (name: string, path: string, info: Info)
      ensures this.name == name && this.path == path && this.info == info && children == []
    {
      this.name, this.path, this.info, children := name, path, info, [];
    }

    /** Where the child with a name is, or the number of children. */
    method IndexOf(name: string) returns (i: nat)
      ensures i <= |children|
      ensures i < |children| ==> children[i].name == name
      ensures forall k :: 0 <= k < i ==> children[k].name != name
    {
      i := 0;
      while i < |children|
        invariant i <= |children|
        invariant forall k :: 0 <= k < i ==> children[k].name != name
      {
        if children[i].name == name {
          return;
        }
        i := i + 1;
      }
    }
  }

  // ---- trees as values ----

  /** A node with the contents of its fields. */
  datatype State = State(node: Node, info: Info, children: seq<Node>)

  type Shape = map<Path, State>

  /** The children of each node are the nodes at the places right below it, by their names. */
  ghost predicate Downward(s: Shape) {
    forall p, i :: p in s && 0 <= i < |s[p].children| ==>
      var c := s[p].children[i];
      In(p, c.name) in s && s[In(p, c.name)].node == c
  }

  /** Every node but the root is a child of the node at the place above it. */
  ghost predicate Upward(s: Shape) {
    && Root in s
    && forall p :: p in s && p.In? ==>
         p.dir in s && s[p].node in s[p.dir].children && s[p].node.name == p.name
  }

  /** No node is at two places, no two siblings share a name. */
  ghost predicate NoSharing(s: Shape) {
    && (forall p, q :: p in s && q in s && s[p].node == s[q].node ==> p == q)
    && (forall p, i, j :: p in s && 0 <= i < j < |s[p].children| ==>
          s[p].children[i].name != s[p].children[j].name)
  }

  /** Only directories have children, the root is one, and each node's path string is that of its place. */
  ghost predicate Labelled(s: Shape) {
    && (Root in s ==> s[Root].info.kind == Directory)
    && (forall p :: p in s && s[p].children != [] ==> s[p].info.kind == Directory)
    && (forall p :: p in s ==> s[p].node.path == PathString(p))
  }

  ghost predicate Tidy(s: Shape) {
    Downward(s) && Upward(s) && NoSharing(s) && Labelled(s)
  }

  /** What a tree says of each place. */
  function Infos(s: Shape): Flat {
    map p | p in s :: s[p].info
  }

  lemma TidyIsWellFormed(s: Shape)
    requires Tidy(s)
    ensures WellFormed(Infos(s))
  {}

  lemma {:induction false} AboveIn(s: Shape, r: Path, q: Path)
    requires Upward(s) && r in s && Under(r, q)
    ensures q in s
  {
    if r != q {
      AboveIn(s, r.dir, q);
    }
  }

  lemma BelowSelf(p: Path, name: string)
    ensures !Under(p, In(p, name))
  {
    if Under(p, In(p, name)) {
      UnderDepth(p, In(p, name));
    }
  }

  lemma NotAChild(s: Shape, p: Path, name: string)
    requires Tidy(s) && p in s && forall k :: 0 <= k < |s[p].children| ==> s[p].children[k].name != name
    ensures forall r :: r in s ==> !Under(r, In(p, name))
  {
    forall r | r in s
      ensures !Under(r, In(p, name))
    {
      if Under(r, In(p, name)) {
        AboveIn(s, r, In(p, name));
        assert false;
      }
    }
  }

  // ---- the changes, on values ----

  function Cut(s: Shape, q: Path): Shape {
    map r | r in s && !Under(r, q) :: s[r]
  }

  /** Child i of the node at p is taken out, with all below it. */
  function Removed(s: Shape, p: Path, i: nat): Shape
    requires p in s && i < |s[p].children|
  {
    Cut(s, In(p, s[p].children[i].name))[p := s[p].(children := s[p].children[..i] + s[p].children[i + 1..])]
  }

  lemma RemovedDownward(s: Shape, p: Path, i: nat)
    requires Downward(s) && NoSharing(s) && p in s && i < |s[p].children|
    ensures Downward(Removed(s, p, i))
  {
    hide NoSharing;
    var name, t := s[p].children[i].name, Removed(s, p, i);
    var q := In(p, name);
    BelowSelf(p, name);
    forall r, j | r in t && 0 <= j < |t[r].children|
      ensures var c := t[r].children[j]; In(r, c.name) in t && t[In(r, c.name)].node == c
    {
      var c := t[r].children[j];
      if r == p {
        var k := if j < i then j else j + 1;
        assert c == s[p].children[k];
        SiblingsDiffer(s, p, i, k);
        assert !Under(In(p, c.name), q);
      } else {
        assert c == s[r].children[j] && !Under(In(r, c.name), q);
        assert In(r, c.name) in s;
      }
    }
  }

  lemma SiblingsDiffer(s: Shape, p: Path, i: nat, k: nat)
    requires NoSharing(s) && p in s && i < |s[p].children| && k < |s[p].children| && i != k
    ensures s[p].children[i].name != s[p].children[k].name
  {}

  lemma RemovedUpward(s: Shape, p: Path, i: nat)
    requires Upward(s) && p in s && i < |s[p].children|
    ensures Upward(Removed(s, p, i))
  {
    var name, t := s[p].children[i].name, Removed(s, p, i);
    var q := In(p, name);
    BelowSelf(p, name);
    forall r | r in t && r.In?
      ensures r.dir in t && t[r].node in t[r.dir].children && t[r].node.name == r.name
    {
      assert r in s && s[r].node in s[r.dir].children;
      assert Under(r, q) <==> r == q || Under(r.dir, q);
      if r.dir == p {
        var k :| 0 <= k < |s[p].children| && s[p].children[k] == s[r].node;
        assert k != i;
        assert t[p].children[if k < i then k else k - 1] == s[r].node;
      }
    }
  }

  lemma RemovedSharing(s: Shape, p: Path, i: nat)
    requires NoSharing(s) && p in s && i < |s[p].children|
    ensures NoSharing(Removed(s, p, i))
  {
    hide Under;
    BelowSelf(p, s[p].children[i].name);
    var t := Removed(s, p, i);
    forall r, j, k | r in t && 0 <= j < k < |t[r].children|
      ensures t[r].children[j].name != t[r].children[k].name
    {
      if r == p {
        SiblingsDiffer(s, p, if j < i then j else j + 1, if k < i then k else k + 1);
      }
    }
  }

  lemma RemovedLabelled(s: Shape, p: Path, i: nat)
    requires Labelled(s) && p in s && i < |s[p].children|
    ensures Labelled(Removed(s, p, i))
  {
    hide Under, PathString;
    BelowSelf(p, s[p].children[i].name);
  }

  lemma RemovedInfos(s: Shape, p: Path, i: nat)
    requires p in s && i < |s[p].children|
    ensures Infos(Removed(s, p, i)) == Without(Infos(s), In(p, s[p].children[i].name))
  {
    hide Under;
    BelowSelf(p, s[p].children[i].name);
  }

  lemma RemovedTidy(s: Shape, p: Path, i: nat)
    requires Tidy(s) && p in s && i < |s[p].children|
    ensures Tidy(Removed(s, p, i))
    ensures Infos(Removed(s, p, i)) == Without(Infos(s), In(p, s[p].children[i].name))
  {
    hide Downward, Upward, NoSharing, Labelled, Removed, Infos, Without;
    RemovedDownward(s, p, i);
    RemovedUpward(s, p, i);
    RemovedSharing(s, p, i);
    RemovedLabelled(s, p, i);
    RemovedInfos(s, p, i);
  }

  /** All below the node at p is taken out. */
  function Cleared(s: Shape, p: Path): Shape
    requires p in s
  {
    (map r | r in s && (r == p || !Under(r, p)) :: s[r])[p := s[p].(children := [])]
  }

  lemma ClearedDownward(s: Shape, p: Path)
    requires Downward(s) && p in s
    ensures Downward(Cleared(s, p))
  {
    var t := Cleared(s, p);
    forall r, j | r in t && 0 <= j < |t[r].children|
      ensures var c := t[r].children[j]; In(r, c.name) in t && t[In(r, c.name)].node == c
    {
      var c := s[r].children[j];
      assert r != p && In(r, c.name) in s;
      assert Under(In(r, c.name), p) <==> In(r, c.name) == p || Under(r, p);
    }
  }

  lemma ClearedUpward(s: Shape, p: Path)
    requires Upward(s) && p in s
    ensures Upward(Cleared(s, p))
  {
    var t := Cleared(s, p);
    forall r | r in t && r.In?
      ensures r.dir in t && t[r].node in t[r.dir].children && t[r].node.name == r.name
    {
      assert s[r].node in s[r.dir].children;
      if r == p {
        if Under(p.dir, p) {
          UnderDepth(p.dir, p);
        }
      } else {
        assert Under(r, p) <==> Under(r.dir, p);
        assert Under(p, p);
      }
    }
  }

  lemma ClearedRest(s: Shape, p: Path)
    requires NoSharing(s) && Labelled(s) && p in s
    ensures NoSharing(Cleared(s, p)) && Labelled(Cleared(s, p))
  {
    hide Under, PathString;
  }

  lemma ClearedInfos(s: Shape, p: Path)
    requires p in s
    ensures Infos(Cleared(s, p)) == Below(Infos(s), p)
  {
    hide Under;
  }

  lemma ClearedTidy(s: Shape, p: Path)
    requires Tidy(s) && p in s
    ensures Tidy(Cleared(s, p))
    ensures Infos(Cleared(s, p)) == Below(Infos(s), p)
  {
    hide Downward, Upward, NoSharing, Labelled, Cleared, Infos, Below;
    ClearedDownward(s, p);
    ClearedUpward(s, p);
    ClearedRest(s, p);
    ClearedInfos(s, p);
  }

  /** A new node is added at the end of the children at p. */
  function Added(s: Shape, p: Path, node: Node, info: Info): Shape
    requires p in s
  {
    s[p := s[p].(children := s[p].children + [node])][In(p, node.name) := State(node, info, [])]
  }

  ghost predicate CanAdd(s: Shape, p: Path, node: Node) {
    && p in s && s[p].info.kind == Directory
    && (forall r :: r in s ==> s[r].node != node)
    && node.path == PathString(In(p, node.name))
    && (forall k :: 0 <= k < |s[p].children| ==> s[p].children[k].name != node.name)
  }

  lemma AddedFree(s: Shape, p: Path, node: Node)
    requires Tidy(s) && CanAdd(s, p, node)
    ensures In(p, node.name) !in s && In(p, node.name) != p
    ensures forall r :: r in s ==> !Under(r, In(p, node.name))
  {
    NotAChild(s, p, node.name);
    assert Under(In(p, node.name), In(p, node.name));
    BelowSelf(p, node.name);
  }

  lemma AddedDownward(s: Shape, p: Path, node: Node, info: Info)
    requires Tidy(s) && CanAdd(s, p, node)
    ensures Downward(Added(s, p, node, info))
  {
    hide Upward, NoSharing, Labelled, PathString;
    AddedFree(s, p, node);
    var q, t := In(p, node.name), Added(s, p, node, info);
    forall r, j | r in t && 0 <= j < |t[r].children|
      ensures var c := t[r].children[j]; In(r, c.name) in t && t[In(r, c.name)].node == c
    {
      var c := t[r].children[j];
      if r != p || j < |s[p].children| {
        assert c == s[r].children[j];
        assert In(r, c.name) in s;
      }
    }
  }

  lemma AddedUpward(s: Shape, p: Path, node: Node, info: Info)
    requires Tidy(s) && CanAdd(s, p, node)
    ensures Upward(Added(s, p, node, info))
  {
    hide Downward, NoSharing, Labelled, PathString;
    AddedFree(s, p, node);
    var q, t := In(p, node.name), Added(s, p, node, info);
    assert t[p].children[|s[p].children|] == node;
    forall r | r in t && r.In?
      ensures r.dir in t && t[r].node in t[r.dir].children && t[r].node.name == r.name
    {
      if r != q {
        assert s[r].node in s[r.dir].children;
      }
    }
  }

  lemma AddedLabelled(s: Shape, p: Path, node: Node, info: Info)
    requires Tidy(s) && CanAdd(s, p, node)
    ensures Labelled(Added(s, p, node, info))
  {
    AddedFree(s, p, node);
    hide Downward, Upward, NoSharing, Under, PathString;
  }

  lemma AddedSharing(s: Shape, p: Path, node: Node, info: Info)
    requires Tidy(s) && CanAdd(s, p, node)
    ensures NoSharing(Added(s, p, node, info))
  {
    AddedFree(s, p, node);
    hide Downward, Upward, Labelled, Under, PathString;
    var q, t := In(p, node.name), Added(s, p, node, info);
    forall r, j, k | r in t && 0 <= j < k < |t[r].children|
      ensures t[r].children[j].name != t[r].children[k].name
    {
      if r == p && k < |s[p].children| {
        SiblingsDiffer(s, p, j, k);
      }
    }
    forall r, u | r in t && u in t && t[r].node == t[u].node
      ensures r == u
    {
      if r != q && u != q {
        assert s[r].node == s[u].node;
      }
    }
  }

  lemma AddedInfos(s: Shape, p: Path, node: Node, info: Info)
    requires p in s
    ensures Infos(Added(s, p, node, info)) == Infos(s)[In(p, node.name) := info]
  {}

  lemma AddedTidy(s: Shape, p: Path, node: Node, info: Info)
    requires Tidy(s) && CanAdd(s, p, node)
    ensures Tidy(Added(s, p, node, info))
    ensures Infos(Added(s, p, node, info)) == Infos(s)[In(p, node.name) := info]
  {
    hide Downward, Upward, NoSharing, Labelled, Added, Infos;
    AddedDownward(s, p, node, info);
    AddedUpward(s, p, node, info);
    AddedLabelled(s, p, node, info);
    AddedSharing(s, p, node, info);
    AddedInfos(s, p, node, info);
  }

  /** Child i of the node at p is replaced by a new node, with all below it. */
  function Replaced(s: Shape, p: Path, i: nat, node: Node, info: Info): Shape
    requires p in s && i < |s[p].children|
  {
    Cut(s, In(p, node.name))
      [p := s[p].(children := s[p].children[i := node])]
      [In(p, node.name) := State(node, info, [])]
  }

  ghost predicate CanReplace(s: Shape, p: Path, i: nat, node: Node) {
    && p in s && i < |s[p].children| && s[p].children[i].name == node.name
    && (forall r :: r in s ==> s[r].node != node)
    && node.path == PathString(In(p, node.name))
  }

  lemma ReplacedDownward(s: Shape, p: Path, i: nat, node: Node, info: Info)
    requires Tidy(s) && CanReplace(s, p, i, node)
    ensures Downward(Replaced(s, p, i, node, info))
  {
    hide Upward, NoSharing, Labelled, PathString;
    var q, t := In(p, node.name), Replaced(s, p, i, node, info);
    BelowSelf(p, node.name);
    forall r, j | r in t && 0 <= j < |t[r].children|
      ensures var c := t[r].children[j]; In(r, c.name) in t && t[In(r, c.name)].node == c
    {
      if r != q && !(r == p && j == i) {
        var c := s[r].children[j];
        assert t[r].children[j] == c && In(r, c.name) in s;
        if r == p {
          SiblingsDiffer(s, p, i, j);
        }
        assert Under(In(r, c.name), q) <==> In(r, c.name) == q || Under(r, q);
      }
    }
  }

  lemma ReplacedUpward(s: Shape, p: Path, i: nat, node: Node, info: Info)
    requires Tidy(s) && CanReplace(s, p, i, node)
    ensures Upward(Replaced(s, p, i, node, info))
  {
    hide Downward, NoSharing, Labelled, PathString;
    var q, t := In(p, node.name), Replaced(s, p, i, node, info);
    BelowSelf(p, node.name);
    assert t[p].children[i] == node;
    forall r | r in t && r.In?
      ensures r.dir in t && t[r].node in t[r.dir].children && t[r].node.name == r.name
    {
      if r != q {
        assert r in s && s[r].node in s[r.dir].children;
        assert Under(r, q) <==> Under(r.dir, q);
        if r.dir == p {
          var k :| 0 <= k < |s[p].children| && s[p].children[k] == s[r].node;
          assert k != i;
          assert t[p].children[k] == s[r].node;
        }
      }
    }
  }

  lemma ReplacedLabelled(s: Shape, p: Path, i: nat, node: Node, info: Info)
    requires Tidy(s) && CanReplace(s, p, i, node)
    ensures Labelled(Replaced(s, p, i, node, info))
  {
    BelowSelf(p, node.name);
    hide Downward, Upward, NoSharing, Under, PathString;
  }

  lemma ReplacedSiblings(s: Shape, p: Path, i: nat, node: Node, info: Info)
    requires Tidy(s) && CanReplace(s, p, i, node)
    ensures var t := Replaced(s, p, i, node, info);
            forall r, j, k :: r in t && 0 <= j < k < |t[r].children| ==> t[r].children[j].name != t[r].children[k].name
  {
    BelowSelf(p, node.name);
    hide Downward, Upward, Labelled, Under, PathString;
    var q, t := In(p, node.name), Replaced(s, p, i, node, info);
    forall r, j, k | r in t && 0 <= j < k < |t[r].children|
      ensures t[r].children[j].name != t[r].children[k].name
    {
      if r == p {
        SiblingsDiffer(s, p, j, k);
      }
    }
  }

  lemma ReplacedSharing(s: Shape, p: Path, i: nat, node: Node, info: Info)
    requires Tidy(s) && CanReplace(s, p, i, node)
    ensures NoSharing(Replaced(s, p, i, node, info))
  {
    ReplacedSiblings(s, p, i, node, info);
    BelowSelf(p, node.name);
    hide Downward, Upward, Labelled, Under, PathString;
    var q, t := In(p, node.name), Replaced(s, p, i, node, info);
    forall r, u | r in t && u in t && t[r].node == t[u].node
      ensures r == u
    {
      if r != q && u != q {
        assert s[r].node == s[u].node;
      }
    }
    hide Replaced;
  }

  lemma ReplacedInfos(s: Shape, p: Path, i: nat, node: Node, info: Info)
    requires CanReplace(s, p, i, node)
    ensures Infos(Replaced(s, p, i, node, info)) == Without(Infos(s), In(p, node.name))[In(p, node.name) := info]
  {
    BelowSelf(p, node.name);
    hide Under, PathString;
  }

  lemma ReplacedTidy(s: Shape, p: Path, i: nat, node: Node, info: Info)
    requires Tidy(s) && CanReplace(s, p, i, node)
    ensures Tidy(Replaced(s, p, i, node, info))
    ensures Infos(Replaced(s, p, i, node, info)) == Without(Infos(s), In(p, node.name))[In(p, node.name) := info]
  {
    hide Downward, Upward, NoSharing, Labelled, Replaced, Infos, Without;
    ReplacedInfos(s, p, i, node, info);
    ReplacedDownward(s, p, i, node, info);
    ReplacedUpward(s, p, i, node, info);
    ReplacedLabelled(s, p, i, node, info);
    ReplacedSharing(s, p, i, node, info);
  }

  /** What is known of the node at p changes. */
  function Relabelled(s: Shape, p: Path, info: Info): Shape
    requires p in s
  {
    s[p := s[p].(info := info)]
  }

  lemma RelabelledDownward(s: Shape, p: Path, info: Info)
    requires Downward(s) && p in s
    ensures Downward(Relabelled(s, p, info))
  {
    var t := Relabelled(s, p, info);
    forall r, j | r in t && 0 <= j < |t[r].children|
      ensures var c := t[r].children[j]; In(r, c.name) in t && t[In(r, c.name)].node == c
    {
      assert s[r].children[j] == t[r].children[j];
    }
  }

  lemma RelabelledUpward(s: Shape, p: Path, info: Info)
    requires Upward(s) && p in s
    ensures Upward(Relabelled(s, p, info))
  {
    var t := Relabelled(s, p, info);
    forall r | r in t && r.In?
      ensures r.dir in t && t[r].node in t[r.dir].children && t[r].node.name == r.name
    {
      assert s[r].node in s[r.dir].children;
    }
  }

  lemma RelabelledRest(s: Shape, p: Path, info: Info)
    requires NoSharing(s) && Labelled(s) && p in s
    requires info.kind == Directory || (p.In? && s[p].children == [])
    ensures NoSharing(Relabelled(s, p, info)) && Labelled(Relabelled(s, p, info))
    ensures Infos(Relabelled(s, p, info)) == Infos(s)[p := info]
  {
    hide PathString;
  }

  lemma RelabelledTidy(s: Shape, p: Path, info: Info)
    requires Tidy(s) && p in s && (info.kind == Directory || (p.In? && s[p].children == []))
    ensures Tidy(Relabelled(s, p, info))
    ensures Infos(Relabelled(s, p, info)) == Infos(s)[p := info]
  {
    hide Downward, Upward, NoSharing, Labelled, Relabelled, Infos;
    RelabelledDownward(s, p, info);
    RelabelledUpward(s, p, info);
    RelabelledRest(s, p, info);
  }

  // ---- the tree ----

  class Tree {
    const root: Node
    /** Which node is at each place. */
    ghost var at: map<Path, Node>

    ghost function Nodes(): set<Node>
      reads this
    {
      set p | p in at :: at[p]
    }

    ghost function Shape(): Shape
      reads this, Nodes()
    {
      map p | p in at :: State(at[p], at[p].info, at[p].children)
    }

    ghost predicate Valid()
      reads this, Nodes()
    {
      Tidy(Shape()) && at[Root] == root
    }

    /** The tree as a map from places to what is known of them. */
    ghost function Entries(): Flat
      reads this, Nodes()
    {
      Infos(Shape())
    }

    /** What every method keeps: everything is inside a directory, only directories have children, no two
        siblings share a name, no node is at two places, and each node's path string is that of its place. */
    lemma TreeIsTidy(p: Path)
      requires Valid() && p in at
      ensures WellFormed(Entries())
      ensures at[p].info == Entries()[p] && (at[p].children != [] ==> at[p].info.kind == Directory)
      ensures forall i, j :: 0 <= i < j < |at[p].children| ==> at[p].children[i].name != at[p].children[j].name
      ensures forall q :: q in at && at[q] == at[p] ==> q == p
      ensures at[p].path == PathString(p)
    {
      TidyIsWellFormed(Shape());
      hide WellFormed;
      assert Shape()[p].node == at[p] && Shape()[p].info == at[p].info && Shape()[p].children == at[p].children;
      forall q | q in at && at[q] == at[p]
        ensures q == p
      {
        assert Shape()[q].node == Shape()[p].node;
      }
    }

    constructor ()
      ensures Valid() && fresh(Nodes()) && Entries() == EMPTY
    {
      root := new Node("", "", Info("", Directory, IMPLICIT_ATTRS, "", "", 0, 0));
      new;
      at := map[Root := root];
    }

    /** Removes child i of the node at p, with all below it. */
    method RemoveAt(n: Node, i: nat, ghost p: Path)
      requires Valid() && p in at && at[p] == n && i < |n.children|
      modifies this`at, n`children
      ensures Valid() && Nodes() <= old(Nodes())
      ensures Entries() == Without(old(Entries()), In(p, old(n.children[i].name)))
    {
      hide Tidy, Without, Infos;
      ghost var s, q := Shape(), In(p, n.children[i].name);
      RemovedTidy(s, p, i);
      OnlyAt(s, p);
      RootIsThere(s);
      BelowSelf(p, n.children[i].name);
      n.children := n.children[..i] + n.children[i + 1..];
      at := map r | r in at && !Under(r, q) :: at[r];
      assert Shape() == Removed(s, p, i);
    }

    /** Removes the child with a name, if there is one, with all below it. */
    method RemoveChild(n: Node, name: string, ghost p: Path)
      requires Valid() && p in at && at[p] == n
      modifies this`at, n`children
      ensures Valid() && Nodes() <= old(Nodes())
      ensures Entries() == Without(old(Entries()), In(p, name))
    {
      hide Tidy, Without, Infos;
      ghost var s := Shape();
      var i := n.IndexOf(name);
      assert Shape() == s;
      if i < |n.children| {
        RemoveAt(n, i, p);
      } else {
        NotAChild(s, p, name);
        NothingWithout(s, In(p, name));
      }
    }

    /** Drops everything below the node at p. */
    method Clear(n: Node, ghost p: Path)
      requires Valid() && p in at && at[p] == n
      modifies this`at, n`children
      ensures Valid() && Nodes() <= old(Nodes())
      ensures Entries() == Below(old(Entries()), p)
    {
      hide Tidy, Below, Infos;
      ghost var s := Shape();
      ClearedTidy(s, p);
      OnlyAt(s, p);
      RootStays(s, p);
      n.children := [];
      at := map r | r in at && (r == p || !Under(r, p)) :: at[r];
      assert Shape() == Cleared(s, p);
    }

    /** Adds a new node at the end of the children of the directory at p. */
    method Append(n: Node, node: Node, ghost p: Path)
      requires Valid() && p in at && at[p] == n && node !in Nodes() && node.children == []
      requires CanAdd(Shape(), p, node)
      modifies this`at, n`children
      ensures Valid() && Nodes() <= old(Nodes()) + {node}
      ensures Entries() == old(Entries())[In(p, node.name) := node.info]
      ensures In(p, node.name) in at && at[In(p, node.name)] == node
      ensures In(p, node.name) !in old(Entries())
    {
      hide Tidy, CanAdd, Infos;
      ghost var s := Shape();
      AddedTidy(s, p, node, node.info);
      AddedFree(s, p, node);
      NotInInfos(s, In(p, node.name));
      OnlyAt(s, p);
      n.children := n.children + [node];
      at := at[In(p, node.name) := node];
      assert Shape() == Added(s, p, node, node.info);
    }

    /** Replaces child i of the node at p, with all below it. */
    method Replace(n: Node, i: nat, node: Node, ghost p: Path)
      requires Valid() && p in at && at[p] == n && node !in Nodes() && node.children == []
      requires CanReplace(Shape(), p, i, node)
      modifies this`at, n`children
      ensures Valid() && Nodes() <= old(Nodes()) + {node}
      ensures Entries() == Without(old(Entries()), In(p, node.name))[In(p, node.name) := node.info]
    {
      hide Tidy, Infos, Without, PathString;
      ghost var s := Shape();
      RootIsThere(s);
      ReplacedTidy(s, p, i, node, node.info);
      OnlyAt(s, p);
      BelowSelf(p, node.name);
      hide Under, CanReplace;
      n.children := n.children[i := node];
      at := (map r | r in at && !Under(r, In(p, node.name)) :: at[r])[In(p, node.name) := node];
      assert Shape() == Replaced(s, p, i, node, node.info);
    }

    /** Changes what is known of the node at p. */
    method Relabel(n: Node, info: Info, ghost p: Path)
      requires Valid() && p in at && at[p] == n
      requires info.kind == Directory || (p.In? && n.children == [])
      modifies n`info
      ensures Valid() && Entries() == old(Entries())[p := info] && n.info == info
    {
      hide Tidy, Infos;
      ghost var s := Shape();
      RelabelledTidy(s, p, info);
      OnlyAt(s, p);
      n.info := info;
      assert Shape() == Relabelled(s, p, info);
    }

    // ---- merging entries ----

    /** Steps into a child directory, making one where there is none and in place of anything else. */
    method EnsureChild(cur: Node, name: string, layer: string, ghost p: Path) returns (next: Node)
      requires Valid() && p in at && at[p] == cur && cur.info.kind == Directory
      modifies this, Nodes()
      ensures Valid() && fresh(Nodes() - old(Nodes()))
      ensures In(p, name) in at && at[In(p, name)] == next && next.info.kind == Directory
      ensures var above, q := old(Entries()), In(p, name);
              Entries() == if q in above && above[q].kind == Directory then above else above[q := Implicit(layer)]
    {
      hide Tidy, PathString, Infos;
      ghost var s := Shape();
      PathAt(s, p);
      var i := cur.IndexOf(name);
      if i == |cur.children| {
        NothingThere(s, p, name, Implicit(layer));
        next := new Node(name, JoinRel(cur.path, name), Implicit(layer));
        NewPath(p, name);
        Append(cur, next, p);
      } else {
        next := cur.children[i];
        ChildThere(s, p, i);
        InfosAt(s, In(p, name));
        if next.info.kind != Directory {
          Childless(s, In(p, name));
          Relabel(next, Implicit(layer), In(p, name));
        }
      }
    }

    /** Walks down a list of components, making every place on the way a directory. */
    method EnsureDir(comps: seq<string>, layer: string) returns (cur: Node)
      requires Valid()
      modifies this, Nodes()
      ensures Valid() && fresh(Nodes() - old(Nodes()))
      ensures At(comps) in at && at[At(comps)] == cur && cur.info.kind == Directory
      ensures Entries() == Layers.EnsureDir(old(Entries()), At(comps), layer)
    {
      hide Tidy, Infos;
      cur := root;
      RootIsDirectory(Shape());
      for i := 0 to |comps|
        invariant Valid() && fresh(Nodes() - old(Nodes()))
        invariant At(comps[..i]) in at && at[At(comps[..i])] == cur && cur.info.kind == Directory
        invariant Entries() == Layers.EnsureDir(old(Entries()), At(comps[..i]), layer)
      {
        assert comps[..i + 1][..i] == comps[..i];
        cur := EnsureChild(cur, comps[i], layer, At(comps[..i]));
      }
      assert comps[..|comps|] == comps;
    }

    /** Puts an entry in its place: a directory over a directory keeps the children and refreshes what it
        describes, anything else replaces what is there. */
    method Insert(parent: Node, name: string, info: Info, ghost p: Path)
      requires Valid() && p in at && at[p] == parent && parent.info.kind == Directory
      modifies this, Nodes()
      ensures Valid() && fresh(Nodes() - old(Nodes()))
      ensures Entries() == Put(old(Entries()), In(p, name), info)
    {
      hide Tidy, PathString, Infos;
      ghost var s := Shape();
      PathAt(s, p);
      NewPath(p, name);
      var node := new Node(name, JoinRel(parent.path, name), info);
      var i := parent.IndexOf(name);
      if i == |parent.children| {
        NothingThere(s, p, name, info);
        Append(parent, node, p);
      } else {
        var c := parent.children[i];
        ChildThere(s, p, i);
        InfosAt(s, In(p, name));
        if info.kind == Directory && c.info.kind == Directory {
          Relabel(c, Refreshed(c.info, info), In(p, name));
        } else {
          Replace(parent, i, node, p);
        }
      }
    }

    /** Merges one entry of a layer into the tree. */
    method MergeEntry(layer: string, h: Header) returns (ok: bool)
      requires Valid()
      modifies this, Nodes()
      ensures Valid() && fresh(Nodes() - old(Nodes()))
      ensures ok <==> Step(old(Entries()), layer, h).Some?
      ensures ok ==> Entries() == Step(old(Entries()), layer, h).value
    {
      hide Tidy, Infos, CleanEntryName, Below, Without, Put, Layers.EnsureDir;
      var clean := CleanEntryName(h.name);
      if clean.None? {
        return false;
      }
      var comps := clean.value;
      if comps == [] {
        return true;
      }
      var dir, base := comps[..|comps| - 1], comps[|comps| - 1];
      var parent := EnsureDir(dir, layer);
      if WHITEOUT <= base {
        if base == OPAQUE {
          Clear(parent, At(dir));
        } else {
          RemoveChild(parent, base[|WHITEOUT|..], At(dir));
        }
        return true;
      }
      var kind := ClassifyType(h.typeflag);
      if kind.None? {
        return false;
      }
      Insert(parent, base, InfoOf(h, kind.value, layer), At(dir));
      return true;
    }

    /** The node a list of components leads to, if there is one. */
    method Resolve(comps: seq<string>) returns (r: Node?)
      requires Valid()
      ensures r != null <==> At(comps) in Entries()
      ensures r != null ==> At(comps) in at && r == at[At(comps)] && r.info == Entries()[At(comps)]
    {
      var cur := root;
      for i := 0 to |comps|
        invariant At(comps[..i]) in at && at[At(comps[..i])] == cur
      {
        assert comps[..i + 1][..i] == comps[..i];
        var k := cur.IndexOf(comps[i]);
        if k == |cur.children| {
          NotAChild(Shape(), At(comps[..i]), comps[i]);
          Prefixes(comps, i + 1);
          return null;
        }
        ChildThere(Shape(), At(comps[..i]), k);
        cur := cur.children[k];
      }
      assert comps[..|comps|] == comps;
      return cur;
    }
  }

  lemma NewPath(p: Path, name: string)
    ensures PathString(In(p, name)) == JoinRel(PathString(p), name)
  {}

  lemma InfosAt(s: Shape, q: Path)
    requires q in s
    ensures q in Infos(s) && Infos(s)[q] == s[q].info
  {}

  lemma RootIsDirectory(s: Shape)
    requires Tidy(s)
    ensures Root in s && s[Root].info.kind == Directory
  {}

  lemma {:induction false} Prefixes(comps: seq<string>, i: nat)
    requires i <= |comps|
    ensures Under(At(comps), At(comps[..i]))
  {
    if i == |comps| {
      assert comps[..i] == comps;
    } else {
      Prefixes(comps[..|comps| - 1], i);
      assert comps[..|comps| - 1][..i] == comps[..i];
    }
  }

  lemma NothingThere(s: Shape, p: Path, name: string, info: Info)
    requires Tidy(s) && p in s && forall k :: 0 <= k < |s[p].children| ==> s[p].children[k].name != name
    ensures In(p, name) !in Infos(s)
    ensures Put(Infos(s), In(p, name), info) == Infos(s)[In(p, name) := info]
  {
    NotAChild(s, p, name);
    NothingWithout(s, In(p, name));
    assert Under(In(p, name), In(p, name));
  }

  lemma ChildThere(s: Shape, p: Path, i: nat)
    requires Tidy(s) && p in s && i < |s[p].children|
    ensures In(p, s[p].children[i].name) in s
    ensures s[In(p, s[p].children[i].name)].node == s[p].children[i]
  {}

  lemma Childless(s: Shape, p: Path)
    requires Tidy(s) && p in s && s[p].info.kind != Directory
    ensures s[p].children == [] && p.In?
  {}

  lemma PathAt(s: Shape, p: Path)
    requires Tidy(s) && p in s
    ensures s[p].node.path == PathString(p)
  {}

  lemma RootIsThere(s: Shape)
    requires Tidy(s)
    ensures Root in s
  {}

  lemma RootStays(s: Shape, p: Path)
    requires p in s
    ensures Root == p || !Under(Root, p)
  {}

  lemma NotInInfos(s: Shape, q: Path)
    requires q !in s
    ensures q !in Infos(s)
  {}

  /** The node at p is at no other place. */
  lemma OnlyAt(s: Shape, p: Path)
    requires Tidy(s) && p in s
    ensures forall r :: r in s && s[r].node == s[p].node ==> r == p
  {}

  lemma NothingWithout(s: Shape, q: Path)
    requires forall r :: r in s ==> !Under(r, q)
    ensures Without(Infos(s), q) == Infos(s)
  {}

  // ---- merging layers ----

  /** The entries of all layers, in order. */
  function EntriesOf(order: seq<string>, layers: map<string, seq<Header>>): seq<Entry>
    requires forall l :: l in order ==> l in layers
  {
    if order == [] then []
    else
      var n := |order| - 1;
      EntriesOf(order[..n], layers) + LayerEntries(order[n], layers[order[n]])
  }

  function LayerEntries(layer: string, headers: seq<Header>): (r: seq<Entry>)
    ensures |r| == |headers|
  {
    seq(|headers|, i requires 0 <= i < |headers| => Entry(layer, headers[i]))
  }

  lemma {:induction false} MergeStopped(a: seq<Entry>, b: seq<Entry>)
    requires Merge(a).None?
    ensures Merge(a + b).None?
  {
    if b == [] {
      assert a + b == a;
    } else {
      var n := |b| - 1;
      MergeStopped(a, b[..n]);
      assert (a + b)[..|a + b| - 1] == a + b[..n];
    }
  }

  lemma MergeOneMore(entries: seq<Entry>, e: Entry)
    ensures Merge(entries + [e]) ==
              if Merge(entries).None? then None else Step(Merge(entries).value, e.layer, e.h)
  {
    hide Step;
    assert (entries + [e])[..|entries|] == entries;
  }

  /** Merges the headers of one layer. */
  method MergeLayer(tree: Tree, layer: string, headers: seq<Header>, ghost done: seq<Entry>) returns (ok: bool)
    requires tree.Valid() && Merge(done) == Some(tree.Entries())
    modifies tree, tree.Nodes()
    ensures tree.Valid() && fresh(tree.Nodes() - old(tree.Nodes()))
    ensures ok <==> Merge(done + LayerEntries(layer, headers)).Some?
    ensures ok ==> Merge(done + LayerEntries(layer, headers)) == Some(tree.Entries())
  {
    hide Tidy, Infos, Step, Merge;
    ghost var entries := LayerEntries(layer, headers);
    assert done + entries[..0] == done;
    for i := 0 to |headers|
      invariant tree.Valid() && fresh(tree.Nodes() - old(tree.Nodes()))
      invariant Merge(done + entries[..i]) == Some(tree.Entries())
    {
      MergeOneMore(done + entries[..i], entries[i]);
      assert done + entries[..i + 1] == (done + entries[..i]) + [entries[i]];
      ok := tree.MergeEntry(layer, headers[i]);
      if !ok {
        MergeStopped(done + entries[..i + 1], entries[i + 1..]);
        assert done + entries == (done + entries[..i + 1]) + entries[i + 1..];
        return;
      }
    }
    assert done + entries[..|headers|] == done + entries;
    ok := true;
  }

  /** Merges parsed layers in the given order; fails when one is missing or one of their entries stops
      the merge. */
  method BuildParsed(order: seq<string>, layers: map<string, seq<Header>>) returns (ok: bool, tree: Tree)
    ensures tree.Valid() && fresh(tree) && fresh(tree.Nodes())
    ensures ok <==> (forall l :: l in order ==> l in layers) && Merge(EntriesOf(order, layers)).Some?
    ensures ok ==> Merge(EntriesOf(order, layers)) == Some(tree.Entries())
  {
    hide Tidy, Infos, Step, LayerEntries;
    tree := new Tree();
    for i := 0 to |order|
      invariant tree.Valid() && fresh(tree) && fresh(tree.Nodes())
      invariant forall l :: l in order[..i] ==> l in layers
      invariant Merge(EntriesOf(order[..i], layers)) == Some(tree.Entries())
    {
      var layer := order[i];
      if layer !in layers {
        return false, tree;
      }
      assert order[..i + 1][..i] == order[..i];
      ghost var done := EntriesOf(order[..i], layers);
      ok := MergeLayer(tree, layer, layers[layer], done);
      if !ok {
        StoppedEarly(order, layers, i + 1);
        return false, tree;
      }
    }
    assert order[..|order|] == order;
    ok := true;
  }

  lemma {:induction false} StoppedEarly(order: seq<string>, layers: map<string, seq<Header>>, i: nat)
    requires i <= |order| && forall l :: l in order[..i] ==> l in layers
    requires Merge(EntriesOf(order[..i], layers)).None?
    ensures (forall l :: l in order ==> l in layers) ==> Merge(EntriesOf(order, layers)).None?
  {
    hide Merge, LayerEntries;
    if i == |order| {
      assert order[..i] == order;
    } else if forall l :: l in order ==> l in layers {
      var n := |order| - 1;
      assert order[..n][..i] == order[..i];
      StoppedEarly(order[..n], layers, i);
      MergeStopped(EntriesOf(order[..n], layers), LayerEntries(order[n], layers[order[n]]));
    }
  }

  /** What a built tree shows at a place is the history of that place over the layers' entries. */
  method Show(order: seq<string>, layers: map<string, seq<Header>>, comps: seq<string>)
    returns (ok: bool, r: Option<Info>)
    ensures ok <==> (forall l :: l in order ==> l in layers) && Merge(EntriesOf(order, layers)).Some?
    ensures ok ==> r == History(EntriesOf(order, layers), At(comps))
  {
    hide Merge, Step, StepAt, Infos, Tidy, History;
    var tree;
    ok, tree := BuildParsed(order, layers);
    var node := tree.Resolve(comps);
    r := if node == null then None else Some(node.info);
    if ok {
      MergeIsHistory(EntriesOf(order, layers), At(comps));
    }
  }
}
