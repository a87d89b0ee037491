/** Files as the deleter sees them: names, the inodes they lead to, and link counts. */
module Volumes {
  import opened ByteStrings
  import opened Inventory

  datatype NodeId = NodeId(dev: int, ino: int)

  /** The permission bits of a mode. */
  type Permissions = m: int | 0 <= m <= 4095

  /** An inode. `regular` is false for links, directories and devices; `trusted` says that
      owner and permission bits are acceptable. */
  datatype Node = Node(regular: bool, trusted: bool, mode: Permissions, mtime: int, content: Bytes)

  datatype Volume = Volume(names: map<string, NodeId>, nodes: map<NodeId, Node>)

  function NamesOf(v: Volume, id: NodeId): set<string> {
    set p | p in v.names && v.names[p] == id
  }

  /** The link count: as many as there are names. */
  function Links(v: Volume, id: NodeId): nat {
    |NamesOf(v, id)|
  }

  /** Every name leads to an inode, and every inode has a name. */
  ghost predicate IsVolume(v: Volume) {
    (forall p :: p in v.names ==> v.names[p] in v.nodes)
    && (forall id :: id in v.nodes ==> NamesOf(v, id) != {})
  }

  /** What can be seen of a file. */
  datatype Identity = Identity(dev: int, ino: int, mode: Mode, size: int, mtime: int, nlink: int)

  /** What `fstat` shows of an open file. */
  function SeenBy(v: Volume, id: NodeId): Identity
    requires id in v.nodes
  {
    var node := v.nodes[id];
    Identity(id.dev, id.ino, Octal(OctalText(node.mode)), |node.content|, node.mtime, Links(v, id))
  }

  /** What `stat` shows of a path. */
  function Shown(v: Volume, p: string): Identity
    requires p in v.names && v.names[p] in v.nodes
  {
    SeenBy(v, v.names[p])
  }

  function Recorded(e: Entry): Identity {
    Identity(e.dev, e.ino, e.mode, e.size, e.mtime, e.nlink)
  }

  /** The volume after the last link of an inode is removed with its name, or one of several. */
  function Unlinked(v: Volume, p: string): Volume
    requires p in v.names
  {
    var id := v.names[p];
    Volume(v.names - {p}, if NamesOf(v, id) == {p} then v.nodes - {id} else v.nodes)
  }

  /** The inodes the given names lead to. */
  function NodesOf(v: Volume, gone: set<string>): set<NodeId> {
    set p | p in gone && p in v.names :: v.names[p]
  }

  /** The volume without the given single-link files. */
  function Without(v: Volume, gone: set<string>): Volume {
    Volume(v.names - gone, v.nodes - NodesOf(v, gone))
  }

  ghost predicate SingleLinks(v: Volume, gone: set<string>) {
    forall p :: p in gone && p in v.names ==> NamesOf(v, v.names[p]) == {p}
  }

  lemma SingleLinkIsOnlyName(v: Volume, p: string)
    requires p in v.names && Links(v, v.names[p]) == 1
    ensures NamesOf(v, v.names[p]) == {p}
  {
    var all := NamesOf(v, v.names[p]);
    assert p in all;
    assert |all - {p}| == 0;
  }

  /** Removing single-link files changes nothing about any other file. */
  lemma OthersKept(v: Volume, gone: set<string>, p: string)
    requires IsVolume(v) && SingleLinks(v, gone) && p !in gone
    ensures p in Without(v, gone).names <==> p in v.names
    ensures p in v.names ==>
              var w := Without(v, gone);
              w.names[p] == v.names[p] && w.names[p] in w.nodes && w.nodes[w.names[p]] == v.nodes[v.names[p]]
              && NamesOf(w, w.names[p]) == NamesOf(v, v.names[p])
  {
    var w := Without(v, gone);
    if p in v.names {
      var id := v.names[p];
      assert p in NamesOf(v, id);
      forall q | q in gone && q in v.names ensures v.names[q] != id {
        assert NamesOf(v, v.names[q]) == {q};
      }
      assert NamesOf(w, id) == NamesOf(v, id);
    }
  }

  lemma WithoutIsVolume(v: Volume, gone: set<string>)
    requires IsVolume(v) && SingleLinks(v, gone)
    ensures IsVolume(Without(v, gone))
  {
    var w := Without(v, gone);
    forall p | p in w.names ensures w.names[p] in w.nodes {
      OthersKept(v, gone, p);
    }
    forall id | id in w.nodes ensures NamesOf(w, id) != {} {
      var p :| p in NamesOf(v, id);
      assert p !in gone;
      OthersKept(v, gone, p);
      assert p in NamesOf(w, id);
    }
  }

  /** One more single-link file removed. */
  lemma OneMoreGone(v: Volume, gone: set<string>, p: string)
    requires IsVolume(v) && SingleLinks(v, gone + {p}) && p !in gone
    ensures p !in v.names ==> Without(v, gone + {p}) == Without(v, gone)
    ensures p in v.names ==> p in Without(v, gone).names && Unlinked(Without(v, gone), p) == Without(v, gone + {p})
  {
    hide IsVolume, NodesOf, SingleLinks;
    var w, more := Without(v, gone), Without(v, gone + {p});
    FewerSingleLinks(v, gone, gone + {p});
    OthersKept(v, gone, p);
    NodesOfMore(v, gone, p);
    if p in v.names {
      assert NamesOf(v, v.names[p]) == {p} by { SingleLink(v, gone + {p}, p); }
      assert more.names == w.names - {p};
      assert more.nodes == w.nodes - {v.names[p]};
    } else {
      assert more.names == w.names;
    }
  }

  lemma FewerSingleLinks(v: Volume, gone: set<string>, more: set<string>)
    requires SingleLinks(v, more) && gone <= more
    ensures SingleLinks(v, gone)
  {
  }

  lemma SingleLink(v: Volume, gone: set<string>, p: string)
    requires SingleLinks(v, gone) && p in gone && p in v.names
    ensures NamesOf(v, v.names[p]) == {p}
  {
  }

  lemma NodesOfMore(v: Volume, gone: set<string>, p: string)
    ensures NodesOf(v, gone + {p}) == NodesOf(v, gone) + if p in v.names then {v.names[p]} else {}
  {
    var ids, all := NodesOf(v, gone), NodesOf(v, gone + {p});
    forall id | id in ids ensures id in all {
      var q :| q in gone && q in v.names && v.names[q] == id;
      assert q in gone + {p};
    }
    assert p in gone + {p};
  }
}
