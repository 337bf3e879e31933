/**
 * Properties of the registry transitions in Registry: what adding, stopping,
 * activating, deleting and regenerating do to the client map and to wg0.conf,
 * which of them keep the peer block of every active client in the file, and
 * what AllClients lists.
 */
module RegistryProps {
  import opened Wrappers
  import opened GoStrings
  import opened Registry

  // ------------------------------------------------------------------
  // Addresses and peer blocks
  // ------------------------------------------------------------------

  /** Different ids get different tunnel addresses. */
  lemma AddressInjective(a: int, b: int)
    requires Address(a) == Address(b)
    ensures a == b
  {
    assert Address(a) == AddressPrefix + (IntToString(a) + AddressSuffix);
    assert Address(b) == AddressPrefix + (IntToString(b) + AddressSuffix);
    TrimPrefixAppend(AddressPrefix, IntToString(a) + AddressSuffix);
    TrimPrefixAppend(AddressPrefix, IntToString(b) + AddressSuffix);
    TrimSuffixAppend(IntToString(a), AddressSuffix);
    TrimSuffixAppend(IntToString(b), AddressSuffix);
    IntToStringInjective(a, b);
  }

  /** Two clients with the same public key but different ids get different peer blocks. */
  lemma PeerBlockInjective(pub: string, a: int, b: int)
    requires PeerBlock(pub, a) == PeerBlock(pub, b)
    ensures a == b
  {
    var head := PeerHeader + pub + AllowedIPsKey;
    assert PeerBlock(pub, a) == head + (Address(a) + "\n");
    assert PeerBlock(pub, b) == head + (Address(b) + "\n");
    TrimPrefixAppend(head, Address(a) + "\n");
    TrimPrefixAppend(head, Address(b) + "\n");
    TrimSuffixAppend(Address(a), "\n");
    TrimSuffixAppend(Address(b), "\n");
    AddressInjective(a, b);
  }

  // ------------------------------------------------------------------
  // AddWireguardClient
  // ------------------------------------------------------------------

  /**
   * A successful add appends the client's peer block to wg0.conf, returns the
   * id it was given and stores an active record with the tunnel address, the
   * server's key and endpoint, and the client configuration; a record that was
   * already there keeps its other fields.
   */
  lemma AddSucceeds(h: Host, id: int, priv: string, pub: string)
    ensures var o := Added(h, id, priv, pub, true, true);
      && o.err == None && o.id == id
      && o.host.conf == h.conf + PeerBlock(pub, id)
      && o.host.clients == h.clients[id := o.client]
      && o.client.status
      && o.client.addressClient == Address(id)
      && o.client.privateClientKey == priv && o.client.publicClientKey == pub
      && o.client.peerStr == PeerBlock(pub, id)
      && o.client.peer.publicKey == h.publicKey && o.client.peer.endpoint == h.endpoint
      && o.client.config == ClientConfigText(Address(id), priv, h.endpoint, h.publicKey)
      && (id in h.clients ==>
            && o.client.id == h.clients[id].id && o.client.tgId == h.clients[id].tgId
            && o.client.peer.allowedIPs == h.clients[id].peer.allowedIPs)
      && (id !in h.clients ==> o.client.id == id && o.client.tgId == 0)
      && o.host.(clients := h.clients, conf := h.conf) == h
  {
  }

  /**
   * A failed add returns the zero client and id 0 and leaves wg0.conf alone,
   * but the record under the id is still written back with the new keys,
   * address and peer block, and with the status it had before.
   */
  lemma AddFails(h: Host, id: int, priv: string, pub: string, openOk: bool, writeOk: bool)
    requires !openOk || !writeOk
    ensures var o := Added(h, id, priv, pub, openOk, writeOk);
      && o.client == ZeroClient && o.id == 0
      && o.err == Some(if !openOk then OpenFailed else WriteFailed)
      && o.host.conf == h.conf
      && id in o.host.clients
      && o.host.clients[id].status == (id in h.clients && h.clients[id].status)
      && o.host.clients[id].privateClientKey == priv
      && o.host.clients[id].publicClientKey == pub
      && o.host.clients[id].peerStr == PeerBlock(pub, id)
      && o.host.clients[id].addressClient == Address(id)
      && o.host.clients[id].config == (if id in h.clients then h.clients[id].config else "")
      && forall k :: k != id ==> (k in o.host.clients <==> k in h.clients)
                                 && (k in h.clients ==> o.host.clients[k] == h.clients[k])
  {
  }

  /** Re-adding an existing client appends a second block and leaves the old one in wg0.conf. */
  lemma ReAddKeepsOldBlock(h: Host, id: int, priv: string, pub: string)
    requires id in h.clients && Contains(h.conf, h.clients[id].peerStr)
    ensures var o := Added(h, id, priv, pub, true, true);
      Contains(o.host.conf, h.clients[id].peerStr) && Contains(o.host.conf, o.client.peerStr)
  {
    var o := Added(h, id, priv, pub, true, true);
    ContainsAppend(h.conf, PeerBlock(pub, id), h.clients[id].peerStr);
    ContainsSelf(PeerBlock(pub, id));
    ContainsPrepend(h.conf, PeerBlock(pub, id), PeerBlock(pub, id));
  }

  // ------------------------------------------------------------------
  // Active clients have their block in wg0.conf
  // ------------------------------------------------------------------

  /** Every client whose status is active has its peer block in wg0.conf. */
  predicate ActiveBlocksPresent(h: Host) {
    forall k :: k in h.clients && h.clients[k].status ==> Contains(h.conf, h.clients[k].peerStr)
  }

  /** Appending to wg0.conf keeps every block that was in it. */
  lemma AppendKeepsBlocks(h: Host, t: string)
    requires ActiveBlocksPresent(h)
    ensures forall k :: k in h.clients && h.clients[k].status ==> Contains(h.conf + t, h.clients[k].peerStr)
  {
    forall k | k in h.clients && h.clients[k].status
      ensures Contains(h.conf + t, h.clients[k].peerStr)
    {
      ContainsAppend(h.conf, t, h.clients[k].peerStr);
    }
  }

  lemma AddKeepsActiveBlocks(h: Host, id: int, priv: string, pub: string)
    requires ActiveBlocksPresent(h)
    ensures ActiveBlocksPresent(Added(h, id, priv, pub, true, true).host)
  {
    var o := Added(h, id, priv, pub, true, true);
    AppendKeepsBlocks(h, PeerBlock(pub, id));
    ContainsSelf(PeerBlock(pub, id));
    ContainsPrepend(h.conf, PeerBlock(pub, id), PeerBlock(pub, id));
    assert o.host.clients == h.clients[id := o.client];
  }

  /** A successful activation leaves the client active with its block in wg0.conf, and keeps the others' blocks. */
  lemma ActivateKeepsActiveBlocks(h: Host, id: int)
    requires ActiveBlocksPresent(h)
    ensures ActiveBlocksPresent(Activated(h, id, true, true))
    ensures id in h.clients ==> Activated(h, id, true, true).clients[id].status
  {
    if id in h.clients {
      var p := h.clients[id].peerStr;
      AppendKeepsBlocks(h, "\n" + p);
      assert h.conf + "\n" + p == h.conf + ("\n" + p);
      ContainsSelf(p);
      ContainsPrepend(h.conf + "\n", p, p);
    }
  }

  /**
   * A failed add on an active client whose new block is not in wg0.conf leaves
   * it marked active with a block the file does not hold.
   */
  lemma FailedReAddLosesBlock(h: Host, id: int, priv: string, pub: string, openOk: bool, writeOk: bool)
    requires !openOk || !writeOk
    requires id in h.clients && h.clients[id].status
    requires !Contains(h.conf, PeerBlock(pub, id))
    ensures !ActiveBlocksPresent(Added(h, id, priv, pub, openOk, writeOk).host)
  {
    var o := Added(h, id, priv, pub, openOk, writeOk);
    assert o.host.clients[id].status && !Contains(o.host.conf, o.host.clients[id].peerStr);
  }

  /**
   * An activation whose write fails on a client whose block is not in wg0.conf
   * leaves it marked active with a block the file does not hold.
   */
  lemma FailedActivateLosesBlock(h: Host, id: int)
    requires id in h.clients && !Contains(h.conf, h.clients[id].peerStr)
    ensures !ActiveBlocksPresent(Activated(h, id, true, false))
  {
    var a := Activated(h, id, true, false);
    assert a.clients[id].status && !Contains(a.conf, a.clients[id].peerStr);
  }

  // ------------------------------------------------------------------
  // StopClient, ActClient, DeleteClient
  // ------------------------------------------------------------------

  /**
   * StopClient: an unknown id or an unreadable file changes nothing; otherwise
   * the client is marked stopped, and when the write succeeds wg0.conf loses
   * the first copy of its block, and only that.
   */
  lemma StopEffects(h: Host, id: int, readOk: bool, writeOk: bool)
    ensures id !in h.clients || !readOk ==> Stopped(h, id, readOk, writeOk) == h
    ensures id in h.clients && readOk ==>
      var s := Stopped(h, id, readOk, writeOk);
      var p := h.clients[id].peerStr;
      && s.clients == h.clients[id := h.clients[id].(status := false)]
      && s.conf == (if writeOk then RemoveFirst(h.conf, p) else h.conf)
      && (writeOk && p != [] && Contains(h.conf, p) ==> |s.conf| == |h.conf| - |p|)
  {
  }

  /**
   * ActClient does not look for the block before appending it: after two
   * activations and a stop, the client is marked stopped while a copy of its
   * block is still in wg0.conf.
   */
  lemma StopAfterDoubleActivateKeepsBlock(h: Host, id: int)
    requires id in h.clients
    ensures var s := Stopped(Activated(Activated(h, id, true, true), id, true, true), id, true, true);
      !s.clients[id].status && Contains(s.conf, h.clients[id].peerStr)
  {
    var p := h.clients[id].peerStr;
    var once := h.conf + "\n" + p;
    ContainsSelf(p);
    ContainsPrepend(h.conf + "\n", p, p);
    assert once + "\n" + p == once + ("\n" + p);
    RemoveFirstAppend(once, "\n" + p, p);
    ContainsPrepend("\n", p, p);
    ContainsPrepend(RemoveFirst(once, p), "\n" + p, p);
  }

  /**
   * Stopping undoes a successful add: when the appended block is the first
   * copy of it in the file (no earlier block for the same key and address),
   * StopClient removes exactly that block and wg0.conf is as before the add.
   */
  lemma StopUndoesAdd(h: Host, id: int, priv: string, pub: string)
    requires Index(h.conf + PeerBlock(pub, id), PeerBlock(pub, id)) == |h.conf|
    ensures var a := Added(h, id, priv, pub, true, true).host;
      && Stopped(a, id, true, true).conf == h.conf
      && !Stopped(a, id, true, true).clients[id].status
  {
    var p := PeerBlock(pub, id);
    assert p[0] == '\n';
    RemoveFirstOfAppended(h.conf, p);
  }

  /**
   * ActClient after StopClient: the client is active again and its block is
   * back in wg0.conf, appended after a newline to what StopClient left.
   */
  lemma StopThenActivate(h: Host, id: int)
    requires id in h.clients
    ensures var p := h.clients[id].peerStr;
      var a := Activated(Stopped(h, id, true, true), id, true, true);
      && a.clients[id].status
      && a.conf == RemoveFirst(h.conf, p) + "\n" + p
      && Contains(a.conf, p)
  {
    var p := h.clients[id].peerStr;
    ContainsSelf(p);
    ContainsPrepend(RemoveFirst(h.conf, p) + "\n", p, p);
  }

  /**
   * StopClient can take another client's block with it. Two blocks that share
   * one newline (as a hand-edited wg0.conf can hold them) both satisfy the
   * active-blocks invariant; removing the first block's text removes that
   * newline too, so the other client, still active, no longer has its block
   * in the file.
   */
  lemma StopBreaksNeighbourBlock(h: Host, i: int, j: int, a: string, b: string)
    requires i != j && i in h.clients && j in h.clients
    requires h.clients[i].status && h.clients[j].status
    requires h.clients[i].peerStr == PeerBlock(a, i) && h.clients[j].peerStr == PeerBlock(b, j)
    requires forall k :: k in h.clients && h.clients[k].status ==> k == i || k == j
    requires h.conf == PeerBlock(a, i) + PeerBlock(b, j)[1..]
    ensures ActiveBlocksPresent(h)
    ensures !ActiveBlocksPresent(Stopped(h, i, true, true))
  {
    PeerBlockNewlines(a, i);
    PeerBlockNewlines(b, j);
    StopCutsSharedNewline(h, i, j);
  }

  /** The same with the two blocks left open: all that matters is the character they share. */
  lemma StopCutsSharedNewline(h: Host, i: int, j: int)
    requires i != j && i in h.clients && j in h.clients
    requires h.clients[i].status && h.clients[j].status
    requires forall k :: k in h.clients && h.clients[k].status ==> k == i || k == j
    requires var x := h.clients[i].peerStr; var y := h.clients[j].peerStr;
      |x| >= 1 && |y| >= 1 && x[|x| - 1] == y[0] && h.conf == x + y[1..]
    ensures ActiveBlocksPresent(h)
    ensures !ActiveBlocksPresent(Stopped(h, i, true, true))
  {
    var x := h.clients[i].peerStr;
    var y := h.clients[j].peerStr;
    SharedNewline(x, y);
    var s := Stopped(h, i, true, true);
    assert s.conf == y[1..];
    assert j in s.clients && s.clients[j].status && s.clients[j].peerStr == y;
  }

  /** A peer block starts and ends with a newline. */
  lemma PeerBlockNewlines(pub: string, id: int)
    ensures var p := PeerBlock(pub, id); |p| >= 1 && p[0] == '\n' && p[|p| - 1] == '\n'
  {
    PeerHeaderNewline();
    BlockEnds(PeerHeader, pub, AllowedIPsKey, Address(id));
  }

  /** A block made of a header and three more pieces and ending in a newline starts as its header does. */
  lemma BlockEnds(header: string, key: string, allowed: string, address: string)
    requires |header| >= 1
    ensures var p := header + key + allowed + address + "\n";
      |p| >= 1 && p[0] == header[0] && p[|p| - 1] == '\n'
  {
    var p := header + key + allowed + address + "\n";
    assert p == header + (key + allowed + address + "\n");
  }

  lemma PeerHeaderNewline()
    ensures |PeerHeader| >= 1 && PeerHeader[0] == '\n'
  {
    EndsOfConcat("\n[", [], "Peer]\nPublicKey = ");
    assert PeerHeader == "\n[" + [] + "Peer]\nPublicKey = ";
  }

  lemma EndsOfConcat(x: string, m: string, y: string)
    requires |x| >= 1 && |y| >= 1
    ensures (x + m + y)[0] == x[0] && (x + m + y)[|x + m + y| - 1] == y[|y| - 1]
  {
  }

  /**
   * Two texts glued at a shared character: both occur in the result, and cutting
   * out the first leaves the second without its first character, which no
   * longer contains it.
   */
  lemma SharedNewline(x: string, y: string)
    requires |x| >= 1 && |y| >= 1 && x[|x| - 1] == y[0]
    ensures var s := x + y[1..];
      && Contains(s, x) && Contains(s, y)
      && RemoveFirst(s, x) == y[1..]
      && !Contains(y[1..], y)
  {
    var s := x + y[1..];
    assert s[0..|x|] == x;
    ContainsAt(s, x, 0);
    var k := |x| - 1;
    var w := s[k..k + |y|];
    assert forall m :: 0 <= m < |y| ==> w[m] == y[m];
    assert w == y;
    ContainsAt(s, y, k);
    IndexIsFirst(s, x, 0);
    RemoveFirstAt(s, x);
    assert s[|x|..] == y[1..];
  }

  /** DeleteClient: the id is gone, the other entries are untouched, and wg0.conf is as StopClient left it. */
  lemma DeleteEffects(h: Host, id: int, readOk: bool, writeOk: bool)
    ensures var d := Deleted(h, id, readOk, writeOk);
      && id !in d.clients
      && (forall k :: k != id ==> (k in d.clients <==> k in h.clients) && (k in h.clients ==> d.clients[k] == h.clients[k]))
      && d.conf == Stopped(h, id, readOk, writeOk).conf
  {
  }

  /** Deleting an id that is not registered changes nothing. */
  lemma DeleteUnknownIsNoOp(h: Host, id: int, readOk: bool, writeOk: bool)
    requires id !in h.clients
    ensures Deleted(h, id, readOk, writeOk) == h
  {
    assert h.clients - {id} == h.clients;
  }

  // ------------------------------------------------------------------
  // GenerateWireGuardConfig
  // ------------------------------------------------------------------

  /** No '[' anywhere in s but possibly at its first position. */
  predicate BracketOnlyFirst(s: string) {
    forall j :: 1 <= j < |s| ==> s[j] != '['
  }

  lemma AppendBracketOnlyFirst(x: string, y: string)
    requires BracketOnlyFirst(x) && '[' !in y
    ensures BracketOnlyFirst(x + y)
  {
    forall j | 1 <= j < |x + y|
      ensures (x + y)[j] != '['
    {
      if j >= |x| {
        assert (x + y)[j] == y[j - |x|];
      }
    }
  }

  lemma ServerHeaderBracketOnlyFirst()
    ensures BracketOnlyFirst(ServerHeader)
  {
    AppendBracketOnlyFirst("[", "Interface]\nPrivateKey = ");
  }

  lemma PostUpNoBracket()
    ensures '[' !in PostUpForward && '[' !in PostUpNat
  {
  }

  lemma PostDownNoBracket()
    ensures '[' !in PostDownForward && '[' !in PostDownNat
  {
  }

  lemma ServerTailNoBracket()
    ensures '[' !in ServerAddress && '[' !in Masquerade
  {
  }

  /**
   * The template substitutes the record's fields where GenerateWireGuardConfig
   * names them: the private key right after the [Interface] header, and the
   * interface name as the output interface of the NAT rule that PostUp adds
   * and that PostDown deletes.
   */
  lemma ServerConfigSubstitutes(privateKey: string, listenPort: string, interName: string)
    ensures HasPrefix(ServerConfigText(privateKey, listenPort, interName), ServerHeader + privateKey)
    ensures Contains(ServerConfigText(privateKey, listenPort, interName), PostUpNat + interName + Masquerade)
    ensures Contains(ServerConfigText(privateKey, listenPort, interName), PostDownNat + interName + Masquerade)
  {
    TemplateParts(ServerHeader, privateKey, ServerAddress, listenPort, PostUpForward, PostUpNat, interName,
                  Masquerade, PostDownForward, PostDownNat);
  }

  /** The shape of the server template with its pieces left open, so that the proof does not see the literals. */
  lemma TemplateParts(h: string, k: string, addr: string, port: string, upFwd: string, upNat: string,
                      iface: string, masq: string, downFwd: string, downNat: string)
    ensures var t := h + k + addr + port + upFwd + upNat + iface + masq + downFwd + downNat + iface + masq;
      && HasPrefix(t, h + k)
      && Contains(t, upNat + iface + masq)
      && Contains(t, downNat + iface + masq)
  {
    var up := upNat + iface + masq;
    var down := downNat + iface + masq;
    var a := h + k + addr + port + upFwd;
    var t := h + k + addr + port + upFwd + upNat + iface + masq + downFwd + downNat + iface + masq;
    assert t == a + up + (downFwd + down);
    assert t == (h + k) + (addr + port + upFwd + up + downFwd + down);
    assert t[..|h + k|] == h + k;
    ContainsSelf(up);
    ContainsPrepend(a, up, up);
    ContainsAppend(a + up, downFwd + down, up);
    assert t == (a + up + downFwd) + down;
    ContainsSelf(down);
    ContainsPrepend(a + up + downFwd, down, down);
  }

  /** The only '[' in the server configuration is its first character, when the record's fields have none. */
  lemma ServerConfigBracketFirst(privateKey: string, listenPort: string, interName: string)
    requires '[' !in privateKey && '[' !in listenPort && '[' !in interName
    ensures BracketOnlyFirst(ServerConfigText(privateKey, listenPort, interName))
  {
    ServerHeaderBracketOnlyFirst();
    PostUpNoBracket();
    PostDownNoBracket();
    ServerTailNoBracket();
    var t := ServerHeader;
    AppendBracketOnlyFirst(t, privateKey);
    t := t + privateKey;
    AppendBracketOnlyFirst(t, ServerAddress);
    t := t + ServerAddress;
    AppendBracketOnlyFirst(t, listenPort);
    t := t + listenPort;
    AppendBracketOnlyFirst(t, PostUpForward);
    t := t + PostUpForward;
    AppendBracketOnlyFirst(t, PostUpNat);
    t := t + PostUpNat;
    AppendBracketOnlyFirst(t, interName);
    t := t + interName;
    AppendBracketOnlyFirst(t, Masquerade);
    t := t + Masquerade;
    AppendBracketOnlyFirst(t, PostDownForward);
    t := t + PostDownForward;
    AppendBracketOnlyFirst(t, PostDownNat);
    t := t + PostDownNat;
    AppendBracketOnlyFirst(t, interName);
    t := t + interName;
    AppendBracketOnlyFirst(t, Masquerade);
  }

  /** A peer block opens with a newline and then '['. */
  lemma PeerBlockOpening(pub: string, id: int)
    ensures |PeerBlock(pub, id)| > 1 && PeerBlock(pub, id)[1] == '['
  {
    assert PeerHeader[1] == '[';
  }

  /**
   * After a successful regeneration wg0.conf holds no client's peer block, so
   * every client that was active loses its place in the file.
   */
  lemma RegeneratedHasNoPeerBlock(h: Host, pub: string, id: int)
    requires '[' !in h.privateKey && '[' !in h.listenPort && '[' !in h.interName
    ensures !Contains(Regenerated(h, true, true).conf, PeerBlock(pub, id))
  {
    var t := ServerConfigText(h.privateKey, h.listenPort, h.interName);
    var p := PeerBlock(pub, id);
    ServerConfigBracketFirst(h.privateKey, h.listenPort, h.interName);
    PeerBlockOpening(pub, id);
    forall i
      ensures !OccursAt(t, p, i)
    {
      if 0 <= i && i + |p| <= |t| {
        assert t[i..i + |p|][1] == t[i + 1];
      }
    }
  }

  /** Regenerating breaks the invariant as soon as one active client has a peer block of the usual shape. */
  lemma RegenerateLosesActiveBlocks(h: Host, id: int)
    requires '[' !in h.privateKey && '[' !in h.listenPort && '[' !in h.interName
    requires id in h.clients && h.clients[id].status
    requires h.clients[id].peerStr == PeerBlock(h.clients[id].publicClientKey, id)
    ensures !ActiveBlocksPresent(Regenerated(h, true, true))
  {
    RegeneratedHasNoPeerBlock(h, h.clients[id].publicClientKey, id);
  }

  // ------------------------------------------------------------------
  // AllClients
  // ------------------------------------------------------------------

  /** The lines of a listing, one per visited key. */
  function Lines(order: seq<int>, clients: map<int, Client>): (r: seq<string>)
    requires forall k :: k in order ==> k in clients
    ensures |r| == |order|
    ensures forall i :: 0 <= i < |order| ==> r[i] == ListingLine(order[i], clients[order[i]])
  {
    seq(|order|, i requires 0 <= i < |order| => ListingLine(order[i], clients[order[i]]))
  }

  /** The texts one after the other. */
  function Concat(xs: seq<string>): string {
    if xs == [] then "" else Concat(xs[..|xs| - 1]) + xs[|xs| - 1]
  }

  /** Each of the texts occurs in their concatenation. */
  lemma {:induction false} ConcatContainsEach(xs: seq<string>)
    ensures forall i :: 0 <= i < |xs| ==> Contains(Concat(xs), xs[i])
  {
    if xs != [] {
      var n := |xs| - 1;
      var front := xs[..n];
      ConcatContainsEach(front);
      forall i | 0 <= i < |xs|
        ensures Contains(Concat(xs), xs[i])
      {
        if i < n {
          assert xs[i] == front[i];
          ContainsAppend(Concat(front), xs[n], xs[i]);
        } else {
          ContainsSelf(xs[n]);
          ContainsPrepend(Concat(front), xs[n], xs[n]);
        }
      }
    }
  }

  /** The AllClients text is its lines, one per visited key, in the visiting order. */
  lemma {:induction false} ListingIsConcat(order: seq<int>, clients: map<int, Client>)
    requires forall k :: k in order ==> k in clients
    ensures Listing(order, clients) == Concat(Lines(order, clients))
  {
    if order != [] {
      var n := |order| - 1;
      ListingIsConcat(order[..n], clients);
      assert Lines(order, clients)[..n] == Lines(order[..n], clients);
    }
  }

  /** Whatever order the map is visited in, every client's line is in the listing. */
  lemma ListingShowsEveryClient(order: seq<int>, clients: map<int, Client>)
    requires forall k :: k in order ==> k in clients
    ensures forall i :: 0 <= i < |order| ==>
      Contains(Listing(order, clients), ListingLine(order[i], clients[order[i]]))
  {
    ListingIsConcat(order, clients);
    ConcatContainsEach(Lines(order, clients));
  }

  /** After a successful add, every listing shows the client as active at its tunnel address. */
  lemma AddedClientListedActive(h: Host, id: int, priv: string, pub: string, order: seq<int>)
    requires forall k :: k in order <==> k in Added(h, id, priv, pub, true, true).host.clients
    ensures Contains(Listing(order, Added(h, id, priv, pub, true, true).host.clients),
                     ClientWord + IntToString(id) + StatusKey + ActiveWord + AddressKey + Address(id) + LineEnd)
  {
    var clients := Added(h, id, priv, pub, true, true).host.clients;
    assert id in order;
    var i :| 0 <= i < |order| && order[i] == id;
    ListingShowsEveryClient(order, clients);
  }
}
