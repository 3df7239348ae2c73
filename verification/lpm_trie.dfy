/** The pointer-based bit trie of src/core/lpm_trie.cpp, proved against the table of lpm_table.dfy. */
module LpmTrie {
  import opened Packets
  import opened LpmTable

  class TrieNode {
    var zero: TrieNode?
    var one: TrieNode?
    var entry: Option<RouteEntry>

    constructor ()
      ensures zero == null && one == null && entry == None
    {
      zero, one, entry := null, null, None;
    }

    function Child(b: Bit): TrieNode?
      reads this`zero, this`one
    {
      if b == 0 then zero else one
    }
  }

  function Parent(p: Path): Path
    requires p != []
  {
    p[..|p| - 1]
  }

  /** A set of paths that holds the root and, with a path, all that lead to it. */
  ghost predicate Closed(paths: set<Path>)
  {
    && [] in paths
    && (forall p | p in paths :: |p| <= 32)
    && (forall p {:trigger Parent(p)} | p != [] && p in paths :: Parent(p) in paths)
  }

  ghost predicate Injective(nodes: map<Path, TrieNode>)
  {
    forall p, q | p in nodes && q in nodes && p != q :: nodes[p] != nodes[q]
  }

  lemma AddNode(nodes: map<Path, TrieNode>, p: Path, b: Bit, child: TrieNode)
    requires Closed(nodes.Keys) && Injective(nodes)
    requires p in nodes && |p| < 32 && p + [b] !in nodes && child !in nodes.Values
    ensures var nodes' := nodes[p + [b] := child];
            && Closed(nodes'.Keys) && Injective(nodes')
            && nodes'.Values == nodes.Values + {child}
            && forall r, c: Bit | r in nodes' :: r + [c] in nodes' <==> r + [c] in nodes || (r == p && c == b)
  {
    var q := p + [b];
    var nodes' := nodes[q := child];
    assert Parent(q) == p;
    forall r | r in nodes ensures nodes'[r] == nodes[r] && nodes[r] in nodes.Values {
      assert r != q;
    }
    assert nodes'[q] == child;
    forall r, c: Bit | r in nodes' ensures r + [c] in nodes' <==> r + [c] in nodes || (r == p && c == b) {
      AppendInjective(r, c, p, b);
    }
  }

  lemma AppendInjective(p: Path, b: Bit, q: Path, c: Bit)
    ensures p + [b] == q + [c] ==> p == q && b == c
  {
    if p + [b] == q + [c] {
      assert p == Parent(p + [b]) == Parent(q + [c]) == q;
      assert b == (p + [b])[|p|] == (q + [c])[|q|] == c;
    }
  }

  class LPMTrie {
    const root: TrieNode
    var routeCount: nat
    /** Every allocated node, by the path that leads to it from the root. */
    ghost var nodes: map<Path, TrieNode>

    /** The nodes form a binary tree of depth 32 at most. */
    ghost predicate Shape()
      reads this`nodes, nodes.Values`zero, nodes.Values`one
    {
      && Closed(nodes.Keys) && Injective(nodes)
      && nodes[[]] == root
      && (forall p, b: Bit | p in nodes ::
            nodes[p].Child(b) == if p + [b] in nodes then nodes[p + [b]] else null)
    }

    /** The stored routes, by path. */
    ghost function Table(): map<Path, RouteEntry>
      reads this`nodes, nodes.Values`entry
    {
      map p | p in nodes && nodes[p].entry.Some? :: nodes[p].entry.value
    }

    ghost predicate Valid()
      reads this, nodes.Values
    {
      Shape() && TableInv(Table()) && routeCount == |Table()|
    }

    constructor ()
      ensures Valid() && Table() == map[] && fresh(nodes.Values)
    {
      root := new TrieNode();
      routeCount := 0;
      nodes := map[[] := root];
      new;
      assert Table() == map[];
    }

    /** Adds an empty node below `current`, at path `p + [b]`. */
    method Grow(current: TrieNode, ghost p: Path, b: Bit) returns (child: TrieNode)
      requires Shape() && p in nodes && nodes[p] == current && |p| < 32 && p + [b] !in nodes
      modifies this`nodes, current`zero, current`one
      ensures Shape() && Table() == old(Table())
      ensures fresh(child) && nodes == old(nodes)[p + [b] := child] && nodes.Values == old(nodes.Values) + {child}
    {
      child := new TrieNode();
      if b == 0 { current.zero := child; } else { current.one := child; }
      ghost var before := nodes;
      AddNode(nodes, p, b, child);
      nodes := nodes[p + [b] := child];
      forall r, c: Bit | r in nodes
        ensures nodes[r].Child(c) == if r + [c] in nodes then nodes[r + [c]] else null
      {
        if r == p + [b] {
          assert Parent(r + [c]) == r;
        } else {
          AppendInjective(r, c, p, b);
        }
      }
      assert Table() == old(Table()) by {
        assert forall r | r in before :: nodes[r] == before[r] && nodes[r].entry == old(before[r].entry);
        assert nodes[p + [b]].entry == None;
      }
    }

    /** Sets or clears the entry of one node. */
    method SetEntry(current: TrieNode, ghost p: Path, e: Option<RouteEntry>)
      requires Shape() && p in nodes && nodes[p] == current
      modifies current`entry
      ensures Shape()
      ensures Table() == if e.Some? then old(Table())[p := e.value] else old(Table()) - {p}
    {
      ghost var before := Table();
      current.entry := e;
      assert Table() == if e.Some? then before[p := e.value] else before - {p};
    }

    method StoreEntry(current: TrieNode, e: RouteEntry)
      requires Valid() && e.prefixLen <= 32 && Key(e) in nodes && nodes[Key(e)] == current
      modifies this`routeCount, current`entry
      ensures Valid() && Table() == old(Table())[Key(e) := e]
    {
      StoreRoute(Table(), e);
      if current.entry.None? {
        routeCount := routeCount + 1;
      }
      SetEntry(current, Key(e), Some(e));
    }

    method ClearEntry(current: TrieNode, ghost p: Path)
      requires Valid() && p in nodes && nodes[p] == current && current.entry.Some?
      modifies this`routeCount, current`entry
      ensures Valid() && Table() == old(Table()) - {p}
    {
      DropRoute(Table(), p);
      SetEntry(current, p, None);
      routeCount := routeCount - 1;
    }

    /** Walks to the node of a prefix, adding the nodes that are missing. */
    method WalkAndGrow(prefix: uint32, prefixLen: uint8) returns (current: TrieNode)
      requires Shape() && prefixLen <= 32
      modifies this`nodes, nodes.Values`zero, nodes.Values`one
      ensures Shape() && Table() == old(Table())
      ensures old(nodes.Values) <= nodes.Values && fresh(nodes.Values - old(nodes.Values))
      ensures Bits(prefix, prefixLen) in nodes && nodes[Bits(prefix, prefixLen)] == current
    {
      current := root;
      var i := 0;
      while i < prefixLen
        invariant 0 <= i <= prefixLen
        invariant Shape() && Table() == old(Table())
        invariant old(nodes.Values) <= nodes.Values && fresh(nodes.Values - old(nodes.Values))
        invariant Bits(prefix, i) in nodes && nodes[Bits(prefix, i)] == current
      {
        var bit := BitOf(prefix, i);
        BitsNext(prefix, i);
        if current.Child(bit) == null {
          var _ := Grow(current, Bits(prefix, i), bit);
        }
        current := current.Child(bit);
        i := i + 1;
      }
    }

    /** Walks to the node of a prefix; null where the path ends early. */
    method Walk(prefix: uint32, prefixLen: uint8) returns (current: TrieNode?)
      requires Shape() && prefixLen <= 32
      ensures current == if Bits(prefix, prefixLen) in nodes then nodes[Bits(prefix, prefixLen)] else null
    {
      current := root;
      var i := 0;
      while i < prefixLen
        invariant 0 <= i <= prefixLen
        invariant current != null && Bits(prefix, i) in nodes && nodes[Bits(prefix, i)] == current
      {
        var bit := BitOf(prefix, i);
        BitsNext(prefix, i);
        if current.Child(bit) == null {
          NothingBelow(prefix, i, prefixLen);
          return null;
        }
        current := current.Child(bit);
        i := i + 1;
      }
    }

    method InsertRoute(prefix: uint32, prefixLen: uint8, nextHop: uint32, egressIfindex: uint32, metric: uint32)
      returns (ok: bool)
      requires Valid()
      modifies this, nodes.Values
      ensures Valid() && fresh(nodes.Values - old(nodes.Values))
      ensures var u := Insert(RouteEntry(prefix, prefixLen, nextHop, egressIfindex, metric));
              (Table(), ok) == UpdateTable(old(Table()), u)
      ensures ok <==> prefixLen <= 32
    {
      if prefixLen > 32 {
        return false;
      }
      var current := WalkAndGrow(prefix, prefixLen);
      StoreEntry(current, RouteEntry(prefix, prefixLen, nextHop, egressIfindex, metric));
      return true;
    }

    method DeleteRoute(prefix: uint32, prefixLen: uint8) returns (ok: bool)
      requires Valid()
      modifies this`routeCount, nodes.Values`entry
      ensures Valid()
      ensures (Table(), ok) == UpdateTable(old(Table()), Delete(prefix, prefixLen))
      ensures prefixLen <= 32 ==>
                (ok <==> exists e :: e in Stored(old(Table())) && e.prefixLen == prefixLen
                                     && Network(e.prefix, prefixLen) == Network(prefix, prefixLen))
      ensures prefixLen > 32 ==> !ok
    {
      DeleteSucceedsIff(Table(), prefix, prefixLen);
      if prefixLen > 32 {
        return false;
      }
      var current := Walk(prefix, prefixLen);
      if current == null || current.entry.None? {
        return false;
      }
      ClearEntry(current, Bits(prefix, prefixLen));
      return true;
    }

    method Lookup(ip: uint32) returns (r: Option<RouteEntry>)
      requires Valid()
      ensures r == Longest(Table(), ip)
      ensures IsLongestMatch(r, Stored(Table()), ip)
    {
      ghost var bits := Bits(ip, 32);
      var current := root;
      r := None;
      if current.entry.Some? {
        r := current.entry;
      }
      var i := 0;
      while i < 32
        invariant 0 <= i <= 32
        invariant bits[..i] == Bits(ip, i) && bits[..i] in nodes && nodes[bits[..i]] == current
        invariant r == Best(Table(), bits, i)
        decreases 32 - i
      {
        var bit := BitOf(ip, i);
        BitsPrefix(ip, i + 1, 32);
        BitsNext(ip, i);
        if current.Child(bit) == null {
          NothingBelow(ip, i, 32);
          BestStays(ip, i, 32);
          break;
        }
        current := current.Child(bit);
        if current.entry.Some? {
          r := current.entry;
        }
        i := i + 1;
      }
      LongestIsLongestMatch(Table(), ip);
    }

    /** Paths only pass through allocated nodes. */
    lemma {:induction false} NothingBelow(x: uint32, i: nat, n: nat)
      requires Shape() && i < n <= 32 && Bits(x, i + 1) !in nodes
      ensures forall j | i < j <= n :: Bits(x, j) !in nodes
    {
      if i + 1 < n {
        NothingBelow(x, i, n - 1);
        assert Parent(Bits(x, n)) == Bits(x, n - 1);
      }
    }

    lemma {:induction false} BestStays(ip: uint32, i: nat, n: nat)
      requires i <= n <= 32 && forall j | i < j <= n :: Bits(ip, j) !in nodes
      ensures Best(Table(), Bits(ip, 32), n) == Best(Table(), Bits(ip, 32), i)
    {
      if i < n {
        BitsPrefix(ip, n, 32);
        BestStays(ip, i, n - 1);
      }
    }
  }

  lemma StoreRoute(t: map<Path, RouteEntry>, e: RouteEntry)
    requires TableInv(t) && e.prefixLen <= 32
    ensures TableInv(t[Key(e) := e])
    ensures |t[Key(e) := e]| == if Key(e) in t then |t| else |t| + 1
  {
  }

  lemma DropRoute(t: map<Path, RouteEntry>, k: Path)
    requires TableInv(t) && k in t
    ensures TableInv(t - {k}) && |t - {k}| == |t| - 1
  {
    assert (t - {k})[k := t[k]] == t;
  }
}
