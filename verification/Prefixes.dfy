/** Longest-prefix matching over a list of networks, stated on numbers and on bit strings. */
module Prefixes {
  import opened Words
  import opened Flows

  /** One call of pna_dtrie_add: the first len bits of prefix belong to the domain. */
  datatype Net = Net(prefix: u32, len: nat, domain: u32)

  ghost predicate ValidNets(nets: seq<Net>) {
    forall i :: 0 <= i < |nets| ==> nets[i].len <= 32
  }

  /** The bit of an address at a position counted from the most significant end. */
  predicate Bit(ip: u32, pos: nat)
    requires pos < 32
  {
    (ip / Pow2(31 - pos)) % 2 == 1
  }

  /** The first len bits of an address. */
  function Path(ip: u32, len: nat): (path: seq<bool>)
    requires len <= 32
    ensures |path| == len
  {
    seq(len, i requires 0 <= i < len => Bit(ip, i))
  }

  function NetPath(net: Net): seq<bool>
    requires net.len <= 32
  {
    Path(net.prefix, net.len)
  }

  /** The number formed by the first len bits of an address. */
  function Top(ip: u32, len: nat): nat
    requires len <= 32
  {
    QuotientBound(ip, Pow2(32 - len));
    ip / Pow2(32 - len)
  }

  /** The address starts with the bits of the network. */
  predicate Matches(net: Net, ip: u32)
    requires net.len <= 32
  {
    Path(ip, net.len) == NetPath(net)
  }

  lemma HalfQuotient(x: nat, p: nat)
    requires p >= 1
    ensures (x / p) / 2 == x / (2 * p)
  {
    var q := x / p;
    assert x == p * q + x % p;
    assert q == 2 * (q / 2) + q % 2;
    assert p * q == (2 * p) * (q / 2) + p * (q % 2);
    RemainderBound(p, q % 2, x % p);
    ModUnique(x, q / 2, p * (q % 2) + x % p, 2 * p);
  }

  lemma RemainderBound(p: nat, b: nat, r: nat)
    requires b <= 1 && r < p
    ensures 0 <= p * b + r < 2 * p
  {
  }

  lemma TopStep(ip: u32, len: nat)
    requires len < 32
    ensures Top(ip, len + 1) == 2 * Top(ip, len) + (if Bit(ip, len) then 1 else 0)
  {
    HalfQuotient(ip, Pow2(31 - len));
  }

  /** Equal leading numbers are equal leading bits. */
  lemma {:induction false} TopIsPath(a: u32, b: u32, len: nat)
    requires len <= 32
    ensures Top(a, len) == Top(b, len) <==> Path(a, len) == Path(b, len)
    decreases len
  {
    if len == 0 {
      TopZero(a);
      TopZero(b);
    } else {
      TopIsPath(a, b, len - 1);
      TopStep(a, len - 1);
      TopStep(b, len - 1);
      PathStep(a, b, len - 1);
    }
  }

  lemma TopZero(ip: u32)
    ensures Top(ip, 0) == 0
  {
    Pow2Values();
    ModUnique(ip, 0, ip, Pow2(32));
  }

  lemma PathStep(a: u32, b: u32, len: nat)
    requires len < 32
    ensures Path(a, len + 1) == Path(b, len + 1) <==> Path(a, len) == Path(b, len) && Bit(a, len) == Bit(b, len)
  {
    assert Path(a, len + 1) == Path(a, len) + [Bit(a, len)];
    assert Path(b, len + 1) == Path(b, len) + [Bit(b, len)];
    if Path(a, len + 1) == Path(b, len + 1) {
      assert Path(a, len) == Path(a, len + 1)[..len];
      assert Path(b, len) == Path(b, len + 1)[..len];
      assert Path(a, len + 1)[len] == Path(b, len + 1)[len];
    }
  }

  /** Matching is equality of the numbers that the leading bits form, as under a network mask. */
  lemma MatchesUnderMask(net: Net, ip: u32)
    requires net.len <= 32
    ensures Matches(net, ip) <==> ip / Pow2(32 - net.len) == net.prefix / Pow2(32 - net.len)
  {
    TopIsPath(ip, net.prefix, net.len);
  }

  datatype Mark = Unmarked | Marked(domain: u16)

  /** The domain last given to a bit string; the trie keeps 16 bits of it. */
  ghost function Latest(nets: seq<Net>, path: seq<bool>): Mark
    requires ValidNets(nets)
  {
    if nets == [] then Unmarked
    else
      var n := |nets| - 1;
      if NetPath(nets[n]) == path then Marked(nets[n].domain % 0x1_0000) else Latest(nets[..n], path)
  }

  /** The mark of the longest marked string among the first 1 to d bits, or a default. */
  ghost function Best(nets: seq<Net>, ip: u32, d: nat, default: u16): u16
    requires ValidNets(nets) && d <= 32
  {
    if d == 0 then default
    else match Latest(nets, Path(ip, d))
      case Marked(domain) => domain
      case Unmarked => Best(nets, ip, d - 1, default)
  }

  /** What a lookup in a trie built from the networks yields. */
  ghost function Lookup(nets: seq<Net>, ip: u32): u16
    requires ValidNets(nets)
  {
    Best(nets, ip, 32, MAX_DOMAIN)
  }

  // ---- The independent rule ----

  /** Network k matches, none that matches is longer, and none of the same length is later. */
  ghost predicate Longest(nets: seq<Net>, ip: u32, k: nat)
    requires ValidNets(nets)
  {
    LongestUpTo(nets, ip, 32, k)
  }

  ghost predicate LongestUpTo(nets: seq<Net>, ip: u32, d: nat, k: nat)
    requires ValidNets(nets)
  {
    && k < |nets| && nets[k].len <= d && Applies(nets[k], ip)
    && forall j :: 0 <= j < |nets| && nets[j].len <= d && Applies(nets[j], ip) ==> Yields(nets, j, k)
  }

  /** Network k is preferred to network j. */
  predicate Yields(nets: seq<Net>, j: nat, k: nat)
    requires j < |nets| && k < |nets|
  {
    nets[j].len < nets[k].len || (nets[j].len == nets[k].len && j <= k)
  }

  ghost predicate NoneUpTo(nets: seq<Net>, ip: u32, d: nat)
    requires ValidNets(nets)
  {
    forall j :: 0 <= j < |nets| && nets[j].len <= d ==> !Applies(nets[j], ip)
  }

  ghost predicate NoneApplies(nets: seq<Net>, ip: u32)
    requires ValidNets(nets)
  {
    NoneUpTo(nets, ip, 32)
  }

  /** The network can decide a lookup: it matches, and its prefix is not empty. */
  predicate Applies(net: Net, ip: u32)
    requires net.len <= 32
  {
    net.len >= 1 && Matches(net, ip)
  }

  /** The latest network for a bit string of the address. */
  lemma {:induction false} LatestFinds(nets: seq<Net>, ip: u32, d: nat)
    requires ValidNets(nets) && 1 <= d <= 32
    ensures match Latest(nets, Path(ip, d))
      case Unmarked => forall j :: 0 <= j < |nets| && nets[j].len == d ==> !Matches(nets[j], ip)
      case Marked(domain) =>
        exists k :: 0 <= k < |nets| && nets[k].len == d && Matches(nets[k], ip)
          && domain == nets[k].domain % 0x1_0000
          && forall j :: k < j < |nets| && nets[j].len == d ==> !Matches(nets[j], ip)
    decreases |nets|
  {
    if nets != [] {
      var n := |nets| - 1;
      assert forall j :: 0 <= j < n ==> nets[..n][j] == nets[j];
      LatestFinds(nets[..n], ip, d);
    }
  }

  lemma {:induction false} BestFinds(nets: seq<Net>, ip: u32, d: nat, default: u16)
    requires ValidNets(nets) && d <= 32
    ensures (Best(nets, ip, d, default) == default && NoneUpTo(nets, ip, d))
         || (exists k: nat :: LongestUpTo(nets, ip, d, k) && Best(nets, ip, d, default) == nets[k].domain % 0x1_0000)
    decreases d
  {
    if d > 0 {
      LatestFinds(nets, ip, d);
      if Latest(nets, Path(ip, d)).Unmarked? {
        BestFinds(nets, ip, d - 1, default);
      }
    }
  }

  /**
   * A lookup is a longest-prefix match over all networks added: the domain of the longest network
   * that matches, the latest among equals, and 0xFFFF when none matches.
   */
  lemma LookupIsLongestMatch(nets: seq<Net>, ip: u32)
    requires ValidNets(nets)
    ensures (exists k: nat :: Longest(nets, ip, k) && Lookup(nets, ip) == nets[k].domain % 0x1_0000)
         || (Lookup(nets, ip) == 0xFFFF && NoneApplies(nets, ip))
  {
    BestFinds(nets, ip, 32, MAX_DOMAIN);
    if !NoneApplies(nets, ip) {
      var k: nat :| LongestUpTo(nets, ip, 32, k) && Lookup(nets, ip) == nets[k].domain % 0x1_0000;
      assert Longest(nets, ip, k);
    }
  }

  lemma LongestDecides(nets: seq<Net>, ip: u32, k: nat)
    requires ValidNets(nets) && Longest(nets, ip, k)
    ensures Lookup(nets, ip) == nets[k].domain % 0x1_0000
  {
    LookupIsLongestMatch(nets, ip);
    assert !NoneApplies(nets, ip);
    var i: nat :| Longest(nets, ip, i) && Lookup(nets, ip) == nets[i].domain % 0x1_0000;
    assert Yields(nets, i, k) && Yields(nets, k, i);
  }

  // ---- Updates ----

  lemma AddedNets(nets: seq<Net>, net: Net)
    requires ValidNets(nets) && net.len <= 32
    ensures ValidNets(nets + [net])
  {
  }

  /** No network that applies is longer. */
  ghost predicate NoLonger(nets: seq<Net>, ip: u32, len: nat)
    requires ValidNets(nets)
  {
    forall j :: 0 <= j < |nets| && Applies(nets[j], ip) ==> nets[j].len <= len
  }

  /** An add changes only the lookups of addresses in the network that no longer network claims. */
  lemma AddChanges(nets: seq<Net>, net: Net, ip: u32)
    requires ValidNets(nets) && net.len <= 32
    ensures ValidNets(nets + [net])
    ensures Lookup(nets + [net], ip)
         == if Applies(net, ip) && NoLonger(nets, ip, net.len) then net.domain % 0x1_0000 else Lookup(nets, ip)
  {
    var all, n := nets + [net], |nets|;
    AddedNets(nets, net);
    if Applies(net, ip) && NoLonger(nets, ip, net.len) {
      assert all[n] == net;
      assert Longest(all, ip, n);
      LongestDecides(all, ip, n);
    } else {
      LookupIsLongestMatch(nets, ip);
      if NoneApplies(nets, ip) {
        assert NoneApplies(all, ip);
        LookupIsLongestMatch(all, ip);
      } else {
        var k: nat :| Longest(nets, ip, k);
        LongestDecides(nets, ip, k);
        LongestStays(nets, net, ip, k);
        LongestDecides(all, ip, k);
      }
    }
  }

  lemma LongestStays(nets: seq<Net>, net: Net, ip: u32, k: nat)
    requires ValidNets(nets + [net]) && ValidNets(nets) && net.len <= 32 && Longest(nets, ip, k)
    requires !(Applies(net, ip) && NoLonger(nets, ip, net.len))
    ensures Longest(nets + [net], ip, k)
  {
    var all := nets + [net];
    forall j | 0 <= j < |all| && Applies(all[j], ip)
      ensures Yields(all, j, k)
    {
      if j < |nets| {
        assert Yields(nets, j, k);
      } else {
        var i :| 0 <= i < |nets| && Applies(nets[i], ip) && nets[i].len > net.len;
        assert Yields(nets, i, k);
      }
    }
  }

  /** No two different networks of the list have the same leading bits. */
  ghost predicate Distinct(nets: seq<Net>)
    requires ValidNets(nets)
  {
    forall i, j :: 0 <= i < |nets| && 0 <= j < |nets| && NetPath(nets[i]) == NetPath(nets[j]) ==> nets[i] == nets[j]
  }

  /** Adds for different prefixes commute: the lookups depend only on the set of networks. */
  lemma OrderIrrelevant(a: seq<Net>, b: seq<Net>, ip: u32)
    requires ValidNets(a) && ValidNets(b) && Distinct(a) && Distinct(b)
    requires forall net :: net in a <==> net in b
    ensures Lookup(a, ip) == Lookup(b, ip)
  {
    LookupIsLongestMatch(a, ip);
    LookupIsLongestMatch(b, ip);
    if NoneApplies(a, ip) {
      forall j | 0 <= j < |b|
        ensures !Applies(b[j], ip)
      {
        assert b[j] in a;
      }
    } else {
      var k: nat :| Longest(a, ip, k) && Lookup(a, ip) == a[k].domain % 0x1_0000;
      assert a[k] in b;
      var i: nat :| i < |b| && b[i] == a[k];
      assert !NoneApplies(b, ip);
      var m: nat :| Longest(b, ip, m) && Lookup(b, ip) == b[m].domain % 0x1_0000;
      assert Yields(b, i, m);
      assert b[m] in a;
      var j: nat :| j < |a| && a[j] == b[m];
      assert Yields(a, j, k);
      assert NetPath(a[j]) == Path(ip, a[j].len) == NetPath(a[k]);
    }
  }

  /** The bits of a prefix beyond its length never matter. */
  lemma TrailingBitsIrrelevant(nets: seq<Net>, i: nat, prefix: u32, ip: u32)
    requires ValidNets(nets) && i < |nets| && Matches(nets[i], prefix)
    ensures ValidNets(nets[i := nets[i].(prefix := prefix)])
    ensures Lookup(nets[i := nets[i].(prefix := prefix)], ip) == Lookup(nets, ip)
  {
    var nets' := nets[i := nets[i].(prefix := prefix)];
    assert forall j :: 0 <= j < |nets| ==> nets'[j].len == nets[j].len && NetPath(nets'[j]) == NetPath(nets[j]);
    SamePathsSameBest(nets, nets', ip, 32, MAX_DOMAIN);
  }

  lemma {:induction false} SamePathsSameLatest(a: seq<Net>, b: seq<Net>, path: seq<bool>)
    requires ValidNets(a) && ValidNets(b) && |a| == |b|
    requires forall j :: 0 <= j < |a| ==> NetPath(a[j]) == NetPath(b[j]) && a[j].domain == b[j].domain
    ensures Latest(a, path) == Latest(b, path)
    decreases |a|
  {
    if a != [] {
      SamePathsSameLatest(a[..|a| - 1], b[..|a| - 1], path);
    }
  }

  lemma {:induction false} SamePathsSameBest(a: seq<Net>, b: seq<Net>, ip: u32, d: nat, default: u16)
    requires ValidNets(a) && ValidNets(b) && |a| == |b| && d <= 32
    requires forall j :: 0 <= j < |a| ==> NetPath(a[j]) == NetPath(b[j]) && a[j].domain == b[j].domain
    ensures Best(a, ip, d, default) == Best(b, ip, d, default)
    decreases d
  {
    if d > 0 {
      SamePathsSameLatest(a, b, Path(ip, d));
      SamePathsSameBest(a, b, ip, d - 1, default);
    }
  }

  // ---- Empty prefixes ----

  /** The longest match when an empty prefix counts, matching every address. */
  ghost function LookupWithDefault(nets: seq<Net>, ip: u32): u16
    requires ValidNets(nets)
  {
    Best(nets, ip, 32, match Latest(nets, []) case Marked(domain) => domain case Unmarked => MAX_DOMAIN)
  }

  /**
   * The trie never consults an empty prefix. Its lookup is still the longest match exactly when
   * a nonempty prefix matches, or the empty one was never given a domain other than 0xFFFF.
   */
  lemma EmptyPrefixIgnored(nets: seq<Net>, ip: u32)
    requires ValidNets(nets)
    ensures Lookup(nets, ip) == LookupWithDefault(nets, ip)
        <==> !NoneApplies(nets, ip) || Latest(nets, []) in {Unmarked, Marked(MAX_DOMAIN)}
  {
    var default := match Latest(nets, []) case Marked(domain) => domain case Unmarked => MAX_DOMAIN;
    BestFinds(nets, ip, 32, MAX_DOMAIN);
    BestFinds(nets, ip, 32, default);
    if !NoneApplies(nets, ip) {
      SameBest(nets, ip, 32, MAX_DOMAIN, default);
    }
  }

  lemma {:induction false} SameBest(nets: seq<Net>, ip: u32, d: nat, default: u16, default': u16)
    requires ValidNets(nets) && d <= 32
    requires !NoneUpTo(nets, ip, d)
    ensures Best(nets, ip, d, default) == Best(nets, ip, d, default')
    decreases d
  {
    if d > 0 {
      LatestFinds(nets, ip, d);
      if Latest(nets, Path(ip, d)).Unmarked? {
        SameBest(nets, ip, d - 1, default, default');
      }
    }
  }
}
