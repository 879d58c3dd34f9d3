/** Making the two directions of a conversation one flow. */
module Sessions {
  import opened Words
  import opened Flows
  import opened Prefixes
  import opened DomainTrie

  const ETHERTYPE_IP: u16 := 0x0800

  /** The key with the two endpoints exchanged. */
  function Swapped(k: Key): Key {
    k.(localIp := k.remoteIp, remoteIp := k.localIp,
       localPort := k.remotePort, remotePort := k.localPort,
       localDomain := k.remoteDomain, remoteDomain := k.localDomain)
  }

  function WithDomains(k: Key, local: u16, remote: u16): Key {
    k.(localDomain := local, remoteDomain := remote)
  }

  /** The outcome of localizing a key; the direction means nothing when the key is not kept. */
  datatype Localization = Localization(kept: bool, key: Key, dir: Direction)

  /** pna_localize on a key whose domains have been looked up. */
  function Oriented(k: Key): Localization {
    if k.localDomain < k.remoteDomain then Localization(true, k, PNA_DIR_OUTBOUND)
    else if k.localDomain > k.remoteDomain then Localization(true, Swapped(k), PNA_DIR_INBOUND)
    else if k.localDomain == MAX_DOMAIN then Localization(false, k, PNA_DIR_OUTBOUND)
    else if k.localIp < k.remoteIp then Localization(true, k, PNA_DIR_OUTBOUND)
    else Localization(true, Swapped(k), PNA_DIR_INBOUND)
  }

  ghost function Localize(nets: seq<Net>, k: Key): Localization
    requires ValidNets(nets)
  {
    Oriented(WithDomains(k, Lookup(nets, k.localIp), Lookup(nets, k.remoteIp)))
  }

  /** The flow key that the hooks fill in. */
  class KeyBuffer {
    var l3Protocol: u16
    var l4Protocol: u8
    var localIp: u32
    var remoteIp: u32
    var localPort: u16
    var remotePort: u16
    var localDomain: u16
    var remoteDomain: u16

    function View(): Key
      reads this
    {
      Key(l3Protocol, l4Protocol, localIp, remoteIp, localPort, remotePort, localDomain, remoteDomain)
    }

    constructor ()
      ensures View() == NULL_KEY
    {
      l3Protocol, l4Protocol, localIp, remoteIp := 0, 0, 0, 0;
      localPort, remotePort, localDomain, remoteDomain := 0, 0, 0, 0;
    }

    /** pna_session_swap. */
    method SessionSwap()
      modifies this
      ensures View() == Swapped(old(View()))
    {
      var temp := localIp;
      localIp := remoteIp;
      remoteIp := temp;
      var port := localPort;
      localPort := remotePort;
      remotePort := port;
      var domain := localDomain;
      localDomain := remoteDomain;
      remoteDomain := domain;
    }

    /** pna_localize. */
    method LocalizeIn(trie: Trie) returns (kept: bool, direction: Direction)
      requires trie.Valid()
      modifies this
      ensures View() == Localize(trie.nets, old(View())).key
      ensures kept == Localize(trie.nets, old(View())).kept
      ensures kept ==> direction == Localize(trie.nets, old(View())).dir
    {
      var local := trie.Find(localIp);
      var remote := trie.Find(remoteIp);
      localDomain, remoteDomain := local, remote;
      if localDomain < remoteDomain {
        return true, PNA_DIR_OUTBOUND;
      } else if localDomain > remoteDomain {
        SessionSwap();
        return true, PNA_DIR_INBOUND;
      } else if localDomain == MAX_DOMAIN {
        return false, PNA_DIR_OUTBOUND;
      } else if localIp < remoteIp {
        return true, PNA_DIR_OUTBOUND;
      } else {
        SessionSwap();
        return true, PNA_DIR_INBOUND;
      }
    }
  }

  /**
   * Both directions of a conversation are kept or neither is, and both get the same key exactly
   * when the endpoints have different addresses or equal ports. Different addresses are also
   * exactly when the two directions are told apart.
   */
  lemma DirectionsMerge(nets: seq<Net>, k: Key)
    requires ValidNets(nets)
    ensures var there, back := Localize(nets, k), Localize(nets, Swapped(k));
      && there.kept == back.kept
      && (there.kept ==>
            && (there.key == back.key <==> k.localIp != k.remoteIp || k.localPort == k.remotePort)
            && (there.dir != back.dir <==> k.localIp != k.remoteIp))
  {
  }

  /** What localizing guarantees of a kept key: looked-up domains, and the local side comes first. */
  ghost predicate Canonical(nets: seq<Net>, k: Key)
    requires ValidNets(nets)
  {
    && k.localDomain == Lookup(nets, k.localIp) && k.remoteDomain == Lookup(nets, k.remoteIp)
    && k.localDomain != 0xFFFF
    && (k.localDomain < k.remoteDomain || (k.localDomain == k.remoteDomain && k.localIp <= k.remoteIp))
  }

  lemma LocalizedIsCanonical(nets: seq<Net>, k: Key)
    requires ValidNets(nets) && Localize(nets, k).kept
    ensures Canonical(nets, Localize(nets, k).key)
    ensures Localize(nets, k).key.l3Protocol == k.l3Protocol && Localize(nets, k).key.l4Protocol == k.l4Protocol
  {
  }

  /** A packet is given up exactly when neither of its addresses lies in a network with a domain. */
  lemma GivenUpIff(nets: seq<Net>, k: Key)
    requires ValidNets(nets)
    ensures !Localize(nets, k).kept <==> Lookup(nets, k.localIp) == 0xFFFF && Lookup(nets, k.remoteIp) == 0xFFFF
  {
  }

  /** The direction says which endpoint sent: outbound means the local one. */
  lemma DirectionIsSender(nets: seq<Net>, k: Key)
    requires ValidNets(nets) && Localize(nets, k).kept && k.localIp != k.remoteIp
    ensures var l := Localize(nets, k);
      && (l.dir == PNA_DIR_OUTBOUND <==> (k.localIp, k.localPort) == (l.key.localIp, l.key.localPort))
      && (l.dir == PNA_DIR_INBOUND <==> k.localIp == l.key.remoteIp)
  {
  }

  /**
   * Seen from a canonical key: a packet becomes outbound in its flow exactly when the key's local
   * endpoint sent it to the remote one, and inbound exactly when the remote endpoint sent it.
   */
  lemma SenderDecides(nets: seq<Net>, d: Key, k: Key)
    requires ValidNets(nets) && Canonical(nets, k)
    ensures var l := Localize(nets, d);
      && (l.kept && Id(l.key) == Id(k) && l.dir == PNA_DIR_OUTBOUND <==> Id(d) == Id(k) && k.localIp != k.remoteIp)
      && (l.kept && Id(l.key) == Id(k) && l.dir == PNA_DIR_INBOUND <==> Id(d) == Id(Swapped(k)))
  {
  }

  /** A canonical key's mirror image is canonical only if the endpoints share their address. */
  lemma MirrorNotCanonical(nets: seq<Net>, k: Key)
    requires ValidNets(nets) && Canonical(nets, k) && Canonical(nets, Swapped(k))
    ensures k.localIp == k.remoteIp
  {
  }

  /** Among canonical IP keys 16 bytes tell everything, and none looks like a free slot. */
  lemma SixteenBytesSuffice(nets: seq<Net>, a: Key, b: Key)
    requires ValidNets(nets) && Canonical(nets, a) && Canonical(nets, b) && a.l3Protocol == ETHERTYPE_IP
    ensures FlowkeyMatch(a, b) <==> a == b
    ensures !FlowkeyMatch(a, NULL_KEY)
  {
  }
}
