/** The binary trie of networks, linked on the heap and updated in place. */
module DomainTrie {
  import opened Words
  import opened Flows
  import opened Prefixes

  /** struct pna_dtrie_entry; pna_dtrie_entry_alloc is its constructor. */
  class Node {
    var isPrefix: bool
    var domainId: u16
    var child0: Node?
    var child1: Node?

    constructor ()
      ensures !isPrefix && domainId == MAX_DOMAIN && child0 == null && child1 == null
    {
      isPrefix, domainId, child0, child1 := false, MAX_DOMAIN, null, null;
    }

    function Child(b: bool): Node?
      reads this
    {
      if b then child1 else child0
    }
  }

  class Trie {
    var head: Node
    /** The node of every bit string that has one. */
    ghost var nodes: map<seq<bool>, Node>
    /** The networks added so far. */
    ghost var nets: seq<Net>

    /** A string with a node is at most 32 bits long, and so is every prefix of it. */
    ghost predicate Closed(p: seq<bool>)
      reads this
    {
      |p| <= 32 && (p != [] ==> p[..|p| - 1] in nodes)
    }

    /** Bit strings have separate nodes and come with all their prefixes. */
    ghost predicate Shaped()
      reads this
    {
      && [] in nodes && nodes[[]] == head
      && (forall p {:trigger Closed(p)} :: p in nodes ==> Closed(p))
      && (forall p, q {:trigger nodes[p], nodes[q]} :: p in nodes && q in nodes && nodes[p] == nodes[q] ==> p == q)
    }

    /** The children of a node are the nodes of the one bit longer strings. */
    ghost predicate Linked(p: seq<bool>)
      requires p in nodes
      reads this, nodes.Values
    {
      forall b :: nodes[p].Child(b) == if p + [b] in nodes then nodes[p + [b]] else null
    }

    /** A node carries the domain last given to its string. */
    ghost predicate MarkedRight(p: seq<bool>)
      requires p in nodes && ValidNets(nets)
      reads this, nodes.Values
    {
      match Latest(nets, p)
      case Marked(domain) => nodes[p].isPrefix && nodes[p].domainId == domain
      case Unmarked => !nodes[p].isPrefix
    }

    ghost predicate Valid()
      reads this, nodes.Values
    {
      && Shaped()
      && ValidNets(nets)
      && (forall p {:trigger Linked(p)} :: p in nodes ==> Linked(p))
      && (forall p {:trigger MarkedRight(p)} :: p in nodes ==> MarkedRight(p))
      && (forall i :: 0 <= i < |nets| ==> NetPath(nets[i]) in nodes)
    }

    /** pna_dtrie_init. */
    constructor ()
      ensures Valid() && nets == [] && fresh(nodes.Values)
    {
      var n := new Node();
      head := n;
      nodes := map[[] := n];
      nets := [];
    }

    /** A string without a node is not the prefix of a network. */
    lemma NoNodeNoNet(p: seq<bool>, n: nat)
      requires Valid() && p !in nodes && n <= |nets|
      ensures Latest(nets[..n], p) == Unmarked
    {
      if n > 0 {
        NoNodeNoNet(p, n - 1);
        assert nets[..n][..n - 1] == nets[..n - 1];
      }
    }

    lemma NoNodeNoChild(p: seq<bool>)
      requires Shaped() && p !in nodes
      ensures forall c :: p + [c] !in nodes
    {
      forall c
        ensures p + [c] !in nodes
      {
        assert (p + [c])[..|p|] == p;
        assert p + [c] in nodes ==> Closed(p + [c]);
      }
    }

    static lemma SameExtension(p: seq<bool>, path: seq<bool>, b: bool)
      ensures forall c :: p + [c] == path + [b] <==> p == path && c == b
    {
      forall c
        ensures p + [c] == path + [b] <==> p == path && c == b
      {
        assert (p + [c])[..|p|] == p && (path + [b])[..|path|] == path;
      }
    }

    /** Give the child b of the node at path a node of its own. */
    method AddChild(cur: Node, b: bool, ghost path: seq<bool>) returns (next: Node)
      requires Valid() && path in nodes && nodes[path] == cur && |path| < 32
      requires path + [b] !in nodes
      modifies this`nodes, cur`child0, cur`child1
      ensures Valid() && fresh(next)
      ensures nodes == old(nodes)[path + [b] := next]
    {
      NoNodeNoNet(path + [b], |nets|);
      NoNodeNoChild(path + [b]);
      assert nets[..|nets|] == nets;
      next := new Node();
      if b {
        cur.child1 := next;
      } else {
        cur.child0 := next;
      }
      nodes := nodes[path + [b] := next];
      forall p | p in nodes
        ensures Closed(p) && Linked(p) && MarkedRight(p)
      {
        SameExtension(p, path, b);
        if p == path + [b] {
          assert forall c :: |p + [c]| != |p|;
        } else {
          assert old(Closed(p)) && old(Linked(p)) && old(MarkedRight(p));
        }
      }
    }

    /** pna_dtrie_add: walk down the bits of the prefix, adding nodes, and mark the last one. */
    method Add(prefix: u32, maxBitPos: nat, domainId: u32)
      requires Valid() && maxBitPos <= 32
      modifies this, nodes.Values
      ensures Valid() && fresh(nodes.Values - old(nodes.Values))
      ensures nets == old(nets) + [Net(prefix, maxBitPos, domainId)]
    {
      var cur := head;
      var curBitPos := 0;
      while curBitPos < maxBitPos
        invariant curBitPos <= maxBitPos
        invariant Valid() && nets == old(nets)
        invariant Path(prefix, curBitPos) in nodes && nodes[Path(prefix, curBitPos)] == cur
        invariant old(nodes.Values) <= nodes.Values && fresh(nodes.Values - old(nodes.Values))
      {
        ghost var path := Path(prefix, curBitPos);
        var curBit := Bit(prefix, curBitPos);
        assert Path(prefix, curBitPos + 1) == path + [curBit];
        assert Linked(path);
        var next := cur.Child(curBit);
        if next == null {
          ghost var before := nodes;
          next := AddChild(cur, curBit, path);
          ValuesGrow(before, path + [curBit], next);
        }
        curBitPos := curBitPos + 1;
        cur := next;
      }
      Mark(cur, Net(prefix, maxBitPos, domainId));
    }

    static lemma ValuesGrow(m: map<seq<bool>, Node>, p: seq<bool>, n: Node)
      requires p !in m
      ensures m[p := n].Values == m.Values + {n}
    {
      var m' := m[p := n];
      assert p in m' && m'[p] == n;
      forall x | x in m.Values
        ensures x in m'.Values
      {
        var q :| q in m && m[q] == x;
        assert q in m' && m'[q] == x;
      }
    }

    /** Mark the node of a network with its domain. */
    method Mark(cur: Node, net: Net)
      requires Valid() && net.len <= 32 && NetPath(net) in nodes && nodes[NetPath(net)] == cur
      modifies this`nets, cur`isPrefix, cur`domainId
      ensures Valid() && nets == old(nets) + [net] && nodes == old(nodes)
    {
      cur.isPrefix := true;
      cur.domainId := net.domain % 0x1_0000;
      nets := nets + [net];
      assert nets[..|nets| - 1] == old(nets);
      forall p | p in nodes
        ensures Closed(p) && Linked(p) && MarkedRight(p)
      {
        assert old(Closed(p)) && old(Linked(p)) && old(MarkedRight(p));
      }
    }

    /** The bit at a position of an address; shifting by a negative count may yield either. */
    method ReadBit(ip: u32, pos: nat) returns (b: bool)
      ensures pos < 32 ==> b == Bit(ip, pos)
    {
      if pos < 32 {
        b := Bit(ip, pos);
      } else {
        b := *;
      }
    }

    lemma NoNodeBeyond32(p: seq<bool>)
      requires Shaped() && |p| > 32
      ensures p !in nodes
    {
      assert !Closed(p);
    }

    /** No string that extends one without a node has a node. */
    lemma NoNodeBelow(path: seq<bool>, k: nat)
      requires Shaped() && k <= |path| && path[..k] !in nodes
      ensures path !in nodes
      decreases |path| - k
    {
      if k < |path| {
        assert path[..k + 1][..k] == path[..k];
        assert path[..k + 1] in nodes ==> Closed(path[..k + 1]);
        NoNodeBelow(path, k + 1);
      } else {
        assert path[..k] == path;
      }
    }

    /** Below the last node on the way down no bit string of the address is marked. */
    lemma NothingBelow(ip: u32, pos: nat, d: nat, default: u16)
      requires Valid() && pos <= d <= 32
      requires pos < 32 ==> Path(ip, pos + 1) !in nodes
      ensures Best(nets, ip, d, default) == Best(nets, ip, pos, default)
    {
      if pos < d {
        assert Path(ip, d)[..pos + 1] == Path(ip, pos + 1);
        NoNodeBelow(Path(ip, d), pos + 1);
        NoNodeNoNet(Path(ip, d), |nets|);
        assert nets[..|nets|] == nets;
        NothingBelow(ip, pos, d - 1, default);
      }
    }

    /** pna_dtrie_lookup: it ends at depth 32 at the latest, whatever bit is read there. */
    method Find(ip: u32) returns (domain: u16)
      requires Valid()
      ensures domain == Lookup(nets, ip)
    {
      domain := MAX_DOMAIN;
      var entry := head;
      var curBitPos := 0;
      var curBit := ReadBit(ip, curBitPos);
      var next := entry.Child(curBit);
      assert Linked(Path(ip, 0)) && Path(ip, 1) == Path(ip, 0) + [curBit];
      while next != null
        invariant curBitPos <= 32
        invariant Path(ip, curBitPos) in nodes
        invariant curBitPos < 32 ==> next == ChildOf(Path(ip, curBitPos + 1))
        invariant curBitPos == 32 ==> next == null
        invariant domain == Best(nets, ip, curBitPos, MAX_DOMAIN)
        decreases 32 - curBitPos
      {
        entry := next;
        curBitPos := curBitPos + 1;
        assert Linked(Path(ip, curBitPos)) && MarkedRight(Path(ip, curBitPos));
        if entry.isPrefix {
          domain := entry.domainId;
        }
        curBit := ReadBit(ip, curBitPos);
        next := entry.Child(curBit);
        if curBitPos < 32 {
          assert Path(ip, curBitPos + 1) == Path(ip, curBitPos) + [curBit];
        } else {
          NoNodeBeyond32(Path(ip, 32) + [curBit]);
        }
      }
      NothingBelow(ip, curBitPos, 32, MAX_DOMAIN);
    }

    ghost function ChildOf(path: seq<bool>): Node?
      reads this
    {
      if path in nodes then nodes[path] else null
    }
  }
}
