/** Staging packaged documentation into a tree of files, and verifying a staged tree. */
module PackageTree {
  import opened ByteStrings

  /** A place in the tree: the components of its path; the tree itself is the empty path. */
  type Name = seq<string>

  datatype Node = Dir | File(data: Bytes) | Other

  datatype Item = Item(name: Name, data: Bytes)

  type Nodes = map<Name, Node>

  const MAX_FILE_BYTES := 16 * 1024 * 1024

  predicate Below(p: Name, q: Name) {
    p < q
  }

  /** Every node lies in a directory, up to the tree itself. */
  ghost predicate IsTree(t: Nodes) {
    [] in t && t[[]].Dir? && forall p, q :: q in t && Below(p, q) ==> p in t && t[p].Dir?
  }

  /** What lies on the way to `name`, if anything, are directories. */
  predicate Reaches(t: Nodes, name: Name) {
    forall k :: 0 <= k < |name| && name[..k] in t ==> t[name[..k]].Dir?
  }

  predicate CanCreate(t: Nodes, name: Name) {
    Reaches(t, name) && name !in t
  }

  predicate IsRegular(t: Nodes, name: Name) {
    name in t && t[name].File? && |t[name].data| <= MAX_FILE_BYTES
  }

  predicate CanRead(t: Nodes, name: Name) {
    Reaches(t, name) && IsRegular(t, name)
  }

  // ------------------------------------------------------------- staging

  function At(t: Nodes, p: Name): Option<Node> {
    if p in t then Some(t[p]) else None
  }

  /** A node after the items are staged: an item's file, what was there, or a new directory on
      the way to an item. */
  ghost function Staged(t: Nodes, items: seq<Item>, n: nat, p: Name): Option<Node>
    requires n <= |items|
  {
    if exists i :: 0 <= i < n && items[i].name == p then
      var i :| 0 <= i < n && items[i].name == p;
      Some(File(items[i].data))
    else if p in t then Some(t[p])
    else if exists i :: 0 <= i < n && Below(p, items[i].name) then Some(Dir)
    else None
  }

  /** No item lies on the way to another, or is another. */
  ghost predicate PrefixFree(items: seq<Item>) {
    forall i, j :: 0 <= i < |items| && 0 <= j < |items| && i != j ==> !(items[i].name <= items[j].name)
  }

  ghost predicate Holds(t: Nodes, items: seq<Item>, n: nat, now: Nodes)
    requires n <= |items|
  {
    forall p :: At(now, p) == Staged(t, items, n, p)
  }

  predicate AllFresh(t: Nodes, items: seq<Item>) {
    forall i :: 0 <= i < |items| ==> CanCreate(t, items[i].name)
  }

  lemma StagedFacts(t: Nodes, items: seq<Item>, n: nat, p: Name)
    requires n <= |items| && PrefixFree(items)
    ensures forall i :: 0 <= i < n && items[i].name == p ==> Staged(t, items, n, p) == Some(File(items[i].data))
    ensures (forall i :: 0 <= i < n ==> items[i].name != p) ==>
              Staged(t, items, n, p) == if p in t then Some(t[p])
                                        else if exists i :: 0 <= i < n && Below(p, items[i].name) then Some(Dir) else None
  {
    forall i | 0 <= i < n && items[i].name == p ensures Staged(t, items, n, p) == Some(File(items[i].data)) {
      forall j | 0 <= j < n && items[j].name == p ensures j == i {
        assert items[i].name <= items[j].name;
      }
    }
  }

  /** The tree under construction. */
  class Tree {
    var nodes: Nodes

    constructor (nodes: Nodes)
      ensures this.nodes == nodes
    {
      this.nodes := nodes;
    }

    /** The check of one destination: the directories on the way, then the place itself. */
    method SafeDestination(name: Name, mustBeNew: bool) returns (ok: bool)
      requires IsTree(nodes) && name != []
      ensures ok == if mustBeNew then CanCreate(nodes, name) else CanRead(nodes, name)
    {
      for k := 1 to |name|
        invariant forall j :: 0 <= j < k && name[..j] in nodes ==> nodes[name[..j]].Dir?
      {
        if name[..k] in nodes && !nodes[name[..k]].Dir? {
          return false;
        }
      }
      if name in nodes {
        return !mustBeNew && nodes[name].File? && |nodes[name].data| <= MAX_FILE_BYTES;
      }
      return mustBeNew;
    }

    /** The missing directories on the way to `name`. */
    method MakeDirectories(name: Name)
      requires Reaches(nodes, name)
      modifies this
      ensures forall p :: p in nodes <==> p in old(nodes) || Below(p, name)
      ensures forall p :: p in nodes ==> nodes[p] == if p in old(nodes) then old(nodes)[p] else Dir
    {
      for k := 0 to |name|
        invariant forall p :: p in nodes <==> p in old(nodes) || (Below(p, name) && |p| < k)
        invariant forall p :: p in nodes ==> nodes[p] == if p in old(nodes) then old(nodes)[p] else Dir
      {
        assert Below(name[..k], name);
        assert forall p :: Below(p, name) && |p| == k ==> p == name[..k];
        if name[..k] !in nodes {
          nodes := nodes[name[..k] := Dir];
        }
      }
    }

    /** Staging: every destination is checked before the first is written. */
    method Stage(items: seq<Item>) returns (ok: bool)
      requires IsTree(nodes) && PrefixFree(items) && forall i :: 0 <= i < |items| ==> items[i].name != []
      modifies this
      ensures ok == AllFresh(old(nodes), items)
      ensures !ok ==> nodes == old(nodes)
      ensures ok ==> Holds(old(nodes), items, |items|, nodes) && IsTree(nodes)
    {
      hide IsTree, CanCreate, Holds, Reaches, PrefixFree;
      ghost var t := nodes;
      for i := 0 to |items|
        invariant nodes == t
        invariant forall j :: 0 <= j < i ==> CanCreate(t, items[j].name)
      {
        ok := SafeDestination(items[i].name, true);
        if !ok {
          return;
        }
      }
      NothingStaged(t, items);
      for i := 0 to |items|
        invariant Holds(t, items, i, nodes)
      {
        ghost var before := nodes;
        FreshStill(t, items, i, nodes);
        MakeDirectories(items[i].name);
        assert items[i].name !in nodes;
        nodes := nodes[items[i].name := File(items[i].data)];
        NextStaged(t, items, i, before, nodes);
      }
      StagedIsTree(t, items, nodes);
      ok := true;
    }

    /** The check of a staged tree: every expected file, then the files below the docs. */
    method Verify(items: seq<Item>) returns (ok: bool)
      requires IsTree(nodes) && forall i :: 0 <= i < |items| ==> items[i].name != []
      ensures ok == IsExact(nodes, items)
    {
      hide IsTree, Reaches;
      for i := 0 to |items|
        invariant forall j :: 0 <= j < i ==> IsThere(nodes, items[j])
      {
        var readable := SafeDestination(items[i].name, false);
        if !readable {
          return false;
        }
        if nodes[items[i].name].data != items[i].data {
          return false;
        }
      }
      if exists p | p in nodes.Keys :: Below(DOCS, p) && !nodes[p].Dir? && !IsRegular(nodes, p) {
        return false;
      }
      var actual := set p | p in nodes.Keys && Below(DOCS, p) && !nodes[p].Dir?;
      var intended := set i | 0 <= i < |items| && Below(DOCS, items[i].name) :: items[i].name;
      ok := actual == intended;
      WalkIsExact(nodes, items, actual, intended);
    }
  }

  // --------------------------------------------------------- staging, proofs

  lemma NothingStaged(t: Nodes, items: seq<Item>)
    ensures Holds(t, items, 0, t)
  {
  }

  /** An item not staged yet still has its place free, and its way open. */
  lemma FreshStill(t: Nodes, items: seq<Item>, n: nat, now: Nodes)
    requires n < |items| && PrefixFree(items) && AllFresh(t, items) && Holds(t, items, n, now)
    ensures Reaches(now, items[n].name) && items[n].name !in now
    ensures forall i :: 0 <= i < n ==> !Below(items[i].name, items[n].name) && items[i].name != items[n].name
  {
    hide Staged;
    var name := items[n].name;
    forall i | 0 <= i < n ensures !(items[i].name <= name) && !(name <= items[i].name) {
    }
    assert CanCreate(t, name);
    StagedFacts(t, items, n, name);
    assert At(now, name) == Staged(t, items, n, name);
    assert forall i :: 0 <= i < n ==> !Below(name, items[i].name);
    forall k | 0 <= k < |name| && name[..k] in now ensures now[name[..k]].Dir? {
      var p := name[..k];
      assert p <= name;
      StagedFacts(t, items, n, p);
      assert At(now, p) == Staged(t, items, n, p);
    }
  }

  lemma NextStaged(t: Nodes, items: seq<Item>, n: nat, before: Nodes, now: Nodes)
    requires n < |items| && PrefixFree(items) && AllFresh(t, items) && Holds(t, items, n, before)
    requires forall p :: p in now <==> p in before || Below(p, items[n].name) || p == items[n].name
    requires forall p :: p in now ==>
               now[p] == if p == items[n].name then File(items[n].data) else if p in before then before[p] else Dir
    ensures Holds(t, items, n + 1, now)
  {
    hide Staged, CanCreate, IsTree;
    FreshStill(t, items, n, before);
    forall p ensures At(now, p) == Staged(t, items, n + 1, p) {
      StagedFacts(t, items, n, p);
      StagedFacts(t, items, n + 1, p);
      assert At(before, p) == Staged(t, items, n, p);
      if i :| 0 <= i < n && items[i].name == p {
        assert !(items[i].name <= items[n].name);
      } else if p != items[n].name && p !in t {
        assert (exists i :: 0 <= i < n + 1 && Below(p, items[i].name))
            == ((exists i :: 0 <= i < n && Below(p, items[i].name)) || Below(p, items[n].name));
      }
    }
  }

  lemma StagedIsTree(t: Nodes, items: seq<Item>, now: Nodes)
    requires IsTree(t) && PrefixFree(items) && AllFresh(t, items) && Holds(t, items, |items|, now)
    requires forall i :: 0 <= i < |items| ==> items[i].name != []
    ensures IsTree(now)
  {
    hide Staged;
    var n := |items|;
    StagedFacts(t, items, n, []);
    assert At(now, []) == Staged(t, items, n, []);
    forall p, q | q in now && Below(p, q) ensures p in now && now[p].Dir? {
      StagedFacts(t, items, n, p);
      StagedFacts(t, items, n, q);
      assert At(now, p) == Staged(t, items, n, p);
      assert At(now, q) == Staged(t, items, n, q);
      if i :| 0 <= i < n && q <= items[i].name {
        OnTheWay(t, items, i, p);
      } else {
        assert q in t;
        assert forall i :: 0 <= i < n ==> items[i].name !in t by {
          assert forall i :: 0 <= i < n ==> CanCreate(t, items[i].name);
        }
      }
    }
  }

  /** A proper prefix of an item is no item, and a directory if it is there already. */
  lemma OnTheWay(t: Nodes, items: seq<Item>, i: nat, p: Name)
    requires i < |items| && PrefixFree(items) && AllFresh(t, items) && Below(p, items[i].name)
    ensures forall j :: 0 <= j < |items| ==> items[j].name != p
    ensures p in t ==> t[p].Dir?
  {
    assert CanCreate(t, items[i].name);
    assert p == items[i].name[..|p|];
    assert forall j :: 0 <= j < |items| && j != i ==> !(items[j].name <= items[i].name);
  }

  // ------------------------------------------------------------- verifying

  /** The documentation tree, which a package must have exactly. */
  const DOCS: Name := ["share", "doc", "suzaku", "docs"]

  predicate IsThere(t: Nodes, item: Item) {
    CanRead(t, item.name) && t[item.name].data == item.data
  }

  predicate IsExpected(items: seq<Item>, p: Name) {
    exists i | 0 <= i < |items| :: items[i].name == p
  }

  /** Every expected file is there with its bytes, and below the docs there are directories and
      expected files only. */
  predicate IsExact(t: Nodes, items: seq<Item>) {
    (forall i :: 0 <= i < |items| ==> IsThere(t, items[i]))
    && forall p :: p in t.Keys && Below(DOCS, p) ==> t[p].Dir? || (t[p].File? && IsExpected(items, p))
  }

  lemma WalkIsExact(t: Nodes, items: seq<Item>, actual: set<Name>, intended: set<Name>)
    requires forall i :: 0 <= i < |items| ==> IsThere(t, items[i])
    requires forall p :: p in t.Keys && Below(DOCS, p) ==> t[p].Dir? || IsRegular(t, p)
    requires actual == set p | p in t.Keys && Below(DOCS, p) && !t[p].Dir?
    requires intended == set i | 0 <= i < |items| && Below(DOCS, items[i].name) :: items[i].name
    ensures actual == intended <==> IsExact(t, items)
  {
    hide Below, DOCS;
    forall i | 0 <= i < |items| && Below(DOCS, items[i].name) ensures items[i].name in actual {
      assert IsThere(t, items[i]);
    }
    if actual == intended {
      forall p | p in t.Keys && Below(DOCS, p) && !t[p].Dir? ensures IsExpected(items, p) {
        assert p in intended;
      }
    }
  }
}
