/** The working directory as an inductive tree, and its flat view: the map from
    component lists to the files and links found there. */
module Worktree {
  import opened Prelude
  import opened Paths

  datatype Node =
    | File(content: Bytes, executable: bool)
    | Link(target: Bytes)
    | Dir(children: map<string, Node>)

  const GITKEEP := ".gitkeep"

  /** Every name on disk is one a directory entry can have. */
  ghost predicate WellFormed(n: Node)
  {
    n.Dir? ==> forall name | name in n.children :: ValidName(name) && WellFormed(n.children[name])
  }

  function Child(n: Node, name: string): Option<Node>
  {
    if n.Dir? && name in n.children then Some(n.children[name]) else None
  }

  function Lookup(n: Node, cs: Path): Option<Node>
  {
    if cs == [] then Some(n)
    else
      match Child(n, cs[0])
      case None => None
      case Some(child) => Lookup(child, cs[1..])
  }

  /** The file or link at `cs`, if that is what is there. */
  function LeafAt(n: Node, cs: Path): Option<Node>
  {
    var found := Lookup(n, cs);
    if found.Some? && !found.value.Dir? then found else None
  }

  ghost function LeafPaths(n: Node): set<Path>
  {
    if !n.Dir? then {[]}
    else set name, cs | name in n.children && cs in LeafPaths(n.children[name]) :: [name] + cs
  }

  ghost function Leaves(n: Node): (m: map<Path, Node>)
  {
    map cs | cs in LeafPaths(n) && LeafAt(n, cs).Some? :: LeafAt(n, cs).value
  }

  /** Put a file or link at `cs`, creating missing directories on the way. Fails
      when a file is in the way or `cs` is a directory. */
  function PutIn(n: Option<Node>, cs: Path, leaf: Node): Option<Node>
    decreases |cs|
  {
    if cs == [] then
      if n.Some? && n.value.Dir? then None else Some(leaf)
    else if n.Some? && !n.value.Dir? then None
    else
      var children := if n.None? then map[] else n.value.children;
      var below := PutIn(if cs[0] in children then Some(children[cs[0]]) else None, cs[1..], leaf);
      if below.None? then None else Some(Dir(children[cs[0] := below.value]))
  }

  function Put(n: Node, cs: Path, leaf: Node): Option<Node>
  {
    PutIn(Some(n), cs, leaf)
  }

  /** Remove the entry at `cs`; the directories above it stay. */
  function Remove(n: Node, cs: Path): Node
  {
    if cs == [] || Child(n, cs[0]).None? then n
    else if |cs| == 1 then Dir(n.children - {cs[0]})
    else Dir(n.children[cs[0] := Remove(n.children[cs[0]], cs[1..])])
  }

  // ----- the flat view ---------------------------------------------------------------

  lemma {:induction false} LeafPathIff(n: Node, cs: Path)
    ensures cs in LeafPaths(n) <==> LeafAt(n, cs).Some?
  {
    if n.Dir? {
      if cs != [] && cs[0] in n.children {
        LeafPathIff(n.children[cs[0]], cs[1..]);
        assert cs == [cs[0]] + cs[1..];
      }
      if cs in LeafPaths(n) {
        var name, ds :| name in n.children && ds in LeafPaths(n.children[name]) && cs == [name] + ds;
        assert cs[1..] == ds;
      }
    }
  }

  /** The flat view has the leaves and nothing else. */
  lemma LeavesAt(n: Node, cs: Path)
    ensures cs in Leaves(n) <==> LeafAt(n, cs).Some?
    ensures cs in Leaves(n) ==> Leaves(n)[cs] == LeafAt(n, cs).value
  {
    LeafPathIff(n, cs);
  }

  lemma {:induction false} LeafAtPutIn(n: Option<Node>, cs: Path, leaf: Node, ds: Path)
    requires !leaf.Dir? && PutIn(n, cs, leaf).Some?
    ensures LeafAt(PutIn(n, cs, leaf).value, ds) ==
            if ds == cs then Some(leaf) else if n.None? then None else LeafAt(n.value, ds)
    decreases |cs|
  {
    if cs != [] {
      var children := if n.None? then map[] else n.value.children;
      var old' := if cs[0] in children then Some(children[cs[0]]) else None;
      var below := PutIn(old', cs[1..], leaf);
      if ds != [] && ds[0] == cs[0] {
        LeafAtPutIn(old', cs[1..], leaf, ds[1..]);
        assert ds == cs <==> ds[1..] == cs[1..] by {
          assert ds == [ds[0]] + ds[1..] && cs == [cs[0]] + cs[1..];
        }
      }
    }
  }

  /** In the flat view, putting a file is updating a map. */
  lemma PutLeaves(n: Node, cs: Path, leaf: Node)
    requires !leaf.Dir? && Put(n, cs, leaf).Some?
    ensures Leaves(Put(n, cs, leaf).value) == Leaves(n)[cs := leaf]
  {
    var n' := Put(n, cs, leaf).value;
    forall ds
      ensures ds in Leaves(n') <==> ds in Leaves(n)[cs := leaf]
      ensures ds in Leaves(n') ==> Leaves(n')[ds] == Leaves(n)[cs := leaf][ds]
    {
      LeafAtPutIn(Some(n), cs, leaf, ds);
      LeavesAt(n', ds);
      LeavesAt(n, ds);
    }
  }

  lemma LeafAtRemoveHere(n: Node, name: string, ds: Path)
    requires n.Dir? && name in n.children && !n.children[name].Dir?
    ensures LeafAt(Dir(n.children - {name}), ds) == if ds == [name] then None else LeafAt(n, ds)
  {
    if ds != [] && ds[0] == name {
      assert ds == [name] + ds[1..];
      assert LeafAt(n, ds) == LeafAt(n.children[name], ds[1..]);
    }
  }

  lemma {:induction false} LeafAtRemove(n: Node, cs: Path, ds: Path)
    requires LeafAt(n, cs).Some? && cs != []
    ensures LeafAt(Remove(n, cs), ds) == if ds == cs then None else LeafAt(n, ds)
  {
    if |cs| == 1 {
      assert cs == [cs[0]] && cs[1..] == [];
      assert LeafAt(n.children[cs[0]], []).Some?;
      LeafAtRemoveHere(n, cs[0], ds);
    } else if ds != [] && ds[0] == cs[0] {
      LeafAtRemove(n.children[cs[0]], cs[1..], ds[1..]);
      assert ds == cs <==> ds[1..] == cs[1..] by {
        assert ds == [ds[0]] + ds[1..] && cs == [cs[0]] + cs[1..];
      }
    }
  }

  /** In the flat view, removing a file is removing a key. */
  lemma RemoveLeaves(n: Node, cs: Path)
    requires LeafAt(n, cs).Some? && cs != []
    ensures Leaves(Remove(n, cs)) == Leaves(n) - {cs}
  {
    var n' := Remove(n, cs);
    forall ds
      ensures ds in Leaves(n') <==> ds in Leaves(n) - {cs}
      ensures ds in Leaves(n') ==> Leaves(n')[ds] == Leaves(n)[ds]
    {
      LeafAtRemove(n, cs, ds);
      LeavesAt(n', ds);
      LeavesAt(n, ds);
    }
  }

  lemma {:induction false} PutInWellFormed(n: Option<Node>, cs: Path, leaf: Node)
    requires ValidPath(cs) && WellFormed(leaf) && (n.Some? ==> WellFormed(n.value))
    requires PutIn(n, cs, leaf).Some?
    ensures WellFormed(PutIn(n, cs, leaf).value)
    decreases |cs|
  {
    if cs != [] {
      var children := if n.None? then map[] else n.value.children;
      PutInWellFormed(if cs[0] in children then Some(children[cs[0]]) else None, cs[1..], leaf);
    }
  }

  lemma {:induction false} RemoveWellFormed(n: Node, cs: Path)
    requires WellFormed(n)
    ensures WellFormed(Remove(n, cs))
    decreases |cs|
  {
    if cs != [] && Child(n, cs[0]).Some? && |cs| > 1 {
      RemoveWellFormed(n.children[cs[0]], cs[1..]);
    }
  }

  lemma {:induction false} LeafPathsValid(n: Node, cs: Path)
    requires WellFormed(n) && Lookup(n, cs).Some?
    ensures ValidPath(cs)
  {
    if cs != [] {
      LeafPathsValid(n.children[cs[0]], cs[1..]);
      assert cs == [cs[0]] + cs[1..];
    }
  }

  /** No leaf sits on the way to another one. */
  lemma {:induction false} LeavesPrefixFree(n: Node, cs: Path, ds: Path)
    requires cs in Leaves(n) && ds in Leaves(n) && cs <= ds
    ensures cs == ds
  {
    LeavesAt(n, cs);
    LeavesAt(n, ds);
    if cs != [] {
      LeavesAt(n.children[cs[0]], cs[1..]);
      LeavesAt(n.children[cs[0]], ds[1..]);
      LeavesPrefixFree(n.children[cs[0]], cs[1..], ds[1..]);
      assert ds == [ds[0]] + ds[1..] && cs == [cs[0]] + cs[1..];
    }
  }
}
