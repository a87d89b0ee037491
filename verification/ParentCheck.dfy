/** The check that no function is its own ancestor: a depth-first walk with a pending and a
    visited set. */
module ParentCheck {
  import opened Texts

  type Graph = map<string, seq<string>>

  /** Every parent is a function of the catalogue. */
  predicate IsClosed(g: Graph) {
    forall f, i :: f in g && 0 <= i < |g[f]| ==> g[f][i] in g
  }

  predicate IsParent(g: Graph, f: string, parent: string) {
    f in g && parent in g[f]
  }

  /** Each function of the chain is followed by one of its parents. */
  predicate IsChain(g: Graph, chain: seq<string>) {
    forall i :: 0 <= i < |chain| - 1 ==> IsParent(g, chain[i], chain[i + 1])
  }

  ghost predicate HasCycle(g: Graph) {
    exists chain :: IsCycle(g, chain)
  }

  predicate IsCycle(g: Graph, chain: seq<string>) {
    |chain| >= 2 && IsChain(g, chain) && chain[0] == chain[|chain| - 1]
  }

  /** Every function comes after all its parents, and none comes twice. */
  predicate IsTopological(g: Graph, order: seq<string>) {
    (forall i, j :: 0 <= i < j < |order| ==> order[i] != order[j])
    && forall i :: 0 <= i < |order| ==> order[i] in g && forall k :: 0 <= k < |g[order[i]]| ==> g[order[i]][k] in order[..i]
  }

  // ----------------------------------------------------------------- graphs

  /** Along a chain the place in a topological order goes down. */
  lemma {:induction false} ChainGoesDown(g: Graph, order: seq<string>, chain: seq<string>, i: nat) returns (j: nat)
    requires IsTopological(g, order) && IsChain(g, chain) && |chain| >= 1 && i < |order| && order[i] == chain[0]
    ensures j <= i && order[j] == chain[|chain| - 1] && (|chain| >= 2 ==> j < i)
    decreases |chain|
  {
    if |chain| == 1 {
      j := i;
    } else {
      assert IsParent(g, chain[0], chain[1]);
      var k :| 0 <= k < |g[order[i]]| && g[order[i]][k] == chain[1];
      var m :| 0 <= m < i && order[m] == chain[1];
      assert IsChain(g, chain[1..]) by {
        forall n | 0 <= n < |chain[1..]| - 1 ensures IsParent(g, chain[1..][n], chain[1..][n + 1]) {
          assert IsParent(g, chain[n + 1], chain[n + 1 + 1]);
        }
      }
      j := ChainGoesDown(g, order, chain[1..], m);
    }
  }

  /** A graph with a topological order of all its functions has no cycle. */
  lemma OrderedIsAcyclic(g: Graph, order: seq<string>)
    requires IsTopological(g, order) && forall f :: f in g ==> f in order
    ensures !HasCycle(g)
  {
    forall chain | |chain| >= 2 && IsChain(g, chain) ensures chain[0] != chain[|chain| - 1] {
      assert IsParent(g, chain[0], chain[1]);
      var i :| 0 <= i < |order| && order[i] == chain[0];
      var j := ChainGoesDown(g, order, chain, i);
    }
  }

  /** A chain that leads back to one of its own functions closes a cycle. */
  lemma ChainCloses(g: Graph, chain: seq<string>, f: string)
    requires IsChain(g, chain) && f in chain && IsParent(g, chain[|chain| - 1], f)
    ensures HasCycle(g)
  {
    var i :| 0 <= i < |chain| && chain[i] == f;
    var cycle := chain[i..] + [f];
    forall n | 0 <= n < |cycle| - 1 ensures IsParent(g, cycle[n], cycle[n + 1]) {
      if n < |cycle| - 2 {
        assert IsParent(g, chain[i + n], chain[i + n + 1]);
      }
    }
    assert IsCycle(g, cycle);
  }

  // ------------------------------------------------------------------ walk

  /** The state of the walk; the order in which functions are finished is for the proof. */
  class Walk {
    const g: Graph
    var visited: set<string>
    var pending: set<string>
    ghost var order: seq<string>

    constructor (g: Graph)
      ensures this.g == g && visited == {} && pending == {} && order == []
    {
      this.g, visited, pending, order := g, {}, {}, [];
    }

    ghost predicate Valid()
      reads this
    {
      IsClosed(g) && IsTopological(g, order) && visited == Members(order) && visited !! pending && pending <= g.Keys
    }

    /** One visit. `chain` holds the pending functions, each a child of the next. */
    method Visit(f: string, ghost chain: seq<string>) returns (ok: bool)
      requires Valid() && f in g && IsChain(g, chain) && pending == Members(chain)
      requires chain != [] ==> IsParent(g, chain[|chain| - 1], f)
      modifies this
      ensures Valid()
      ensures ok ==> pending == old(pending) && old(visited) <= visited && f in visited
      ensures !ok ==> HasCycle(g)
      decreases |g.Keys - pending|, 0
    {
      hide IsTopological, IsChain, IsParent, Members, HasCycle, IsClosed;
      if f in pending {
        MembersOf(chain, f);
        ChainCloses(g, chain, f);
        return false;
      }
      if f !in visited {
        SmallerRest(g.Keys, pending, f);
        pending := pending + {f};
        ChainGrows(g, chain, f);
        ok := VisitParents(f, chain + [f]);
        if !ok {
          return;
        }
        Finish(f);
        assert pending == old(pending);
      }
      ok := true;
    }

    /** The parents of a pending function, one after the other. */
    method VisitParents(f: string, ghost chain: seq<string>) returns (ok: bool)
      requires Valid() && f in g && IsChain(g, chain) && pending == Members(chain)
      requires chain != [] && chain[|chain| - 1] == f
      modifies this
      ensures Valid()
      ensures ok ==> pending == old(pending) && old(visited) <= visited && forall i :: 0 <= i < |g[f]| ==> g[f][i] in visited
      ensures !ok ==> HasCycle(g)
      decreases |g.Keys - pending|, 1
    {
      hide IsTopological, IsChain, Members, HasCycle;
      for k := 0 to |g[f]|
        invariant Valid() && pending == old(pending) && old(visited) <= visited
        invariant forall i :: 0 <= i < k ==> g[f][i] in visited
      {
        ok := Visit(g[f][k], chain);
        if !ok {
          return;
        }
      }
      ok := true;
    }

    /** A pending function whose parents are all visited is visited, too. */
    method Finish(f: string)
      requires Valid() && f in pending && forall i :: 0 <= i < |g[f]| ==> g[f][i] in visited
      modifies this
      ensures Valid() && pending == old(pending) - {f} && visited == old(visited) + {f}
    {
      hide IsTopological;
      FinishedLast(g, order, f);
      pending := pending - {f};
      visited := visited + {f};
      order := order + [f];
    }
  }

  lemma MembersOf(s: seq<string>, f: string)
    ensures f in Members(s) <==> f in s
  {
  }

  lemma SmallerRest(keys: set<string>, pending: set<string>, f: string)
    requires f in keys && f !in pending
    ensures |keys - (pending + {f})| < |keys - pending|
  {
    assert keys - pending == (keys - (pending + {f})) + {f};
  }

  lemma ChainGrows(g: Graph, chain: seq<string>, f: string)
    requires IsChain(g, chain) && (chain != [] ==> IsParent(g, chain[|chain| - 1], f))
    ensures IsChain(g, chain + [f]) && Members(chain + [f]) == Members(chain) + {f}
  {
  }

  lemma FinishedLast(g: Graph, order: seq<string>, f: string)
    requires IsTopological(g, order) && f in g && f !in order && forall i :: 0 <= i < |g[f]| ==> g[f][i] in order
    ensures IsTopological(g, order + [f])
    ensures Members(order + [f]) == Members(order) + {f}
  {
    var all := order + [f];
    forall i | 0 <= i < |all| ensures all[i] in g && forall k :: 0 <= k < |g[all[i]]| ==> g[all[i]][k] in all[..i] {
      assert i < |order| ==> all[i] == order[i] && all[..i] == order[..i];
      assert i == |order| ==> all[..i] == order;
    }
  }

  /** The whole check, function by function. It accepts if and only if no function is its own
      ancestor, and then the functions were finished in an order with parents first. */
  method CheckParents(g: Graph, functions: seq<string>) returns (ok: bool, ghost order: seq<string>)
    requires IsClosed(g) && forall f :: f in g <==> f in functions
    ensures ok <==> !HasCycle(g)
    ensures ok ==> IsTopological(g, order) && forall f :: f in g <==> f in order
  {
    var walk := new Walk(g);
    order := [];
    for k := 0 to |functions|
      invariant walk.Valid() && walk.g == g && walk.pending == {}
      invariant forall i :: 0 <= i < k ==> functions[i] in walk.visited
      invariant fresh(walk)
    {
      assert IsChain(g, []) && Members<string>([]) == {};
      ok := walk.Visit(functions[k], []);
      if !ok {
        return;
      }
    }
    order := walk.order;
    OrderedIsAcyclic(g, order);
    ok := true;
  }
}
