/**
 * The client registry of the WireGuard wrapper (wireguard_go_ubuntu.go):
 * the server's WireGuardConfig record with its map of clients, and the text
 * of /etc/wireguard/wg0.conf, which the client operations append peer
 * blocks to and remove them from.
 *
 * Each operation is a method of the class WireGuardConfig whose body follows
 * the Go code step by step, and whose postcondition ties the new state to a
 * transition function on Host values. The properties of those functions are
 * proved in RegistryProps.
 *
 * Outside effects are parameters: the output of `wg genkey` and `wg pubkey`,
 * whether opening, reading or writing wg0.conf succeeds, and the interface
 * list that net.Interfaces() returns.
 */
module Registry {
  import opened Wrappers
  import opened GoStrings
  import opened Netif

  datatype PeerConfig = PeerConfig(publicKey: string, allowedIPs: string, endpoint: string)

  datatype Client = Client(
    id: int,
    status: bool,
    addressClient: string,
    pubkeyPath: string,
    privkeyPath: string,
    privateClientKey: string,
    publicClientKey: string,
    peer: PeerConfig,
    peerStr: string,
    config: string,
    tgId: int)

  /** Client{}, Go's zero value. */
  const ZeroClient: Client := Client(0, false, "", "", "", "", "", PeerConfig("", "", ""), "", "", 0)

  // ------------------------------------------------------------------
  // Texts
  // ------------------------------------------------------------------

  // The fixed pieces of the texts below: the address a client gets, the
  // [Peer] block appended to wg0.conf, the client configuration, the server
  // template of wg0.conf in pieces (header, address and port, the PostUp and
  // PostDown rules), and the words of the client listing. The `[` that opens
  // a section header is a literal of its own, because the lemmas about where
  // `[` occurs take the header apart there; the other two-literal texts join
  // at a word boundary, so that proofs about them unfold each half separately.
  const AddressPrefix: string := "10.0.0."
  const AddressSuffix: string := "/24"
  const PeerHeader: string := "\n[" + "Peer]\nPublicKey = "
  const AllowedIPsKey: string := "\nAllowedIPs = "
  const ClientHeader: string := "[Interface]\nAddress = "
  const PrivateKeyKey: string := "\nPrivateKey = "
  const ClientMiddle: string := "\nDNS = 8.8.8.8\n\n[Peer]\nEndpoint = "
  const PublicKeyKey: string := "\nPublicKey = "
  const ClientTrailer: string := "\nAllowedIPs = 0.0.0.0/0\n    "
  const ServerHeader: string := "[" + "Interface]\nPrivateKey = "
  const ServerAddress: string := "\nAddress = 10.0.0.1/24" + "\nListenPort = "
  const PostUpForward: string := "\nPostUp = iptables " + "-A FORWARD -i %i -j ACCEPT; "
  const PostUpNat: string := "iptables -t nat " + "-A POSTROUTING -o "
  const PostDownForward: string := "\nPostDown = iptables " + "-D FORWARD -i %i -j ACCEPT; "
  const PostDownNat: string := "iptables -t nat " + "-D POSTROUTING -o "
  const Masquerade: string := " -j MASQUERADE"
  const ActiveWord: string := "Активен"
  const StoppedWord: string := "Остановлен"
  const ClientWord: string := "Клиент "
  const StatusKey: string := " статус "
  const AddressKey: string := " адресс "
  const LineEnd: string := " \n"

  /** The client's tunnel address, fmt.Sprintf("10.0.0.%d/24", id). */
  function Address(id: int): string {
    AddressPrefix + IntToString(id) + AddressSuffix
  }

  /** The peer block AddWireguardClient appends to wg0.conf and keeps in PeerStr. */
  function PeerBlock(publicClientKey: string, id: int): string {
    PeerHeader + publicClientKey + AllowedIPsKey + Address(id) + "\n"
  }

  /** The configuration file handed to the client (ending, as in the source, with a newline and four spaces). */
  function ClientConfigText(address: string, privateClientKey: string, endpoint: string, serverPublicKey: string): string {
    ClientHeader + address + PrivateKeyKey + privateClientKey + ClientMiddle + endpoint
    + PublicKeyKey + serverPublicKey + ClientTrailer
  }

  /** The template GenerateWireGuardConfig renders; `%i` is not a template action and stays as written. */
  function ServerConfigText(privateKey: string, listenPort: string, interName: string): string {
    ServerHeader + privateKey + ServerAddress + listenPort
    + PostUpForward + PostUpNat + interName + Masquerade
    + PostDownForward + PostDownNat + interName + Masquerade
  }

  function StatusWord(active: bool): string {
    if active then ActiveWord else StoppedWord
  }

  /** One line of AllClients: the map key, the status word and the address. */
  function ListingLine(id: int, c: Client): string {
    ClientWord + IntToString(id) + StatusKey + StatusWord(c.status) + AddressKey + c.addressClient + LineEnd
  }

  /** An order in which a range loop may visit the map: every key exactly once. */
  predicate VisitOrder(order: seq<int>, clients: map<int, Client>) {
    && (forall k :: k in order ==> k in clients)
    && (forall k :: k in clients ==> k in order)
    && (forall i, j :: 0 <= i < j < |order| ==> order[i] != order[j])
  }

  /** The text AllClients builds when the map is visited in the given order. */
  function Listing(order: seq<int>, clients: map<int, Client>): string
    requires forall k :: k in order ==> k in clients
  {
    if order == [] then ""
    else
      var last := order[|order| - 1];
      Listing(order[..|order| - 1], clients) + ListingLine(last, clients[last])
  }

  // ------------------------------------------------------------------
  // The state and its transitions
  // ------------------------------------------------------------------

  /** The server record together with the text of wg0.conf. */
  datatype Host = Host(
    privateKey: string,
    publicKey: string,
    endpoint: string,
    listenPort: string,
    interName: string,
    botToken: string,
    clients: map<int, Client>,
    conf: string)

  datatype AddError = OpenFailed | WriteFailed

  /** What AddWireguardClient leaves behind and returns: the new state, the client, the id and the error. */
  datatype AddOutcome = AddOutcome(host: Host, client: Client, id: int, err: Option<AddError>)

  /** The record AddWireguardClient has filled in by the time it opens wg0.conf. */
  function Filled(h: Host, clientID: int, privateClientKey: string, publicClientKey: string): Client {
    var base := if clientID in h.clients then h.clients[clientID] else ZeroClient.(id := clientID);
    base.(privateClientKey := privateClientKey,
          publicClientKey := publicClientKey,
          addressClient := Address(clientID),
          peer := base.peer.(endpoint := h.endpoint, publicKey := h.publicKey),
          peerStr := PeerBlock(publicClientKey, clientID))
  }

  function Added(h: Host, clientID: int, priv: string, pub: string, openOk: bool, writeOk: bool): AddOutcome {
    var filled := Filled(h, clientID, priv, pub);
    if !openOk || !writeOk then
      AddOutcome(h.(clients := h.clients[clientID := filled]), ZeroClient, 0,
                 Some(if !openOk then OpenFailed else WriteFailed))
    else
      var done := filled.(status := true, config := ClientConfigText(Address(clientID), priv, h.endpoint, h.publicKey));
      AddOutcome(h.(clients := h.clients[clientID := done], conf := h.conf + PeerBlock(pub, clientID)),
                 done, clientID, None)
  }

  function Stopped(h: Host, id: int, readOk: bool, writeOk: bool): Host {
    if id !in h.clients || !readOk then h
    else
      var c := h.clients[id];
      var clients := h.clients[id := c.(status := false)];
      if !writeOk then h.(clients := clients)
      else h.(clients := clients, conf := RemoveFirst(h.conf, c.peerStr))
  }

  function Activated(h: Host, id: int, readOk: bool, writeOk: bool): Host {
    if id !in h.clients || !readOk then h
    else
      var c := h.clients[id];
      var clients := h.clients[id := c.(status := true)];
      if !writeOk then h.(clients := clients)
      else h.(clients := clients, conf := h.conf + "\n" + c.peerStr)
  }

  function Deleted(h: Host, id: int, readOk: bool, writeOk: bool): Host {
    var s := Stopped(h, id, readOk, writeOk);
    s.(clients := s.clients - {id})
  }

  /** GenerateWireGuardConfig: the file is truncated on opening, so a failed write leaves it empty. */
  function Regenerated(h: Host, openOk: bool, writeOk: bool): Host {
    if !openOk then h
    else if !writeOk then h.(conf := "")
    else h.(conf := ServerConfigText(h.privateKey, h.listenPort, h.interName))
  }

  datatype NetError = InterfacesError | AddrsError | NoAddressError

  // ------------------------------------------------------------------
  // The server record
  // ------------------------------------------------------------------

  class WireGuardConfig {
    var privateKey: string
    var publicKey: string
    var endpoint: string
    var listenPort: string
    var interName: string
    var botToken: string
    var clients: map<int, Client>
    /** The text of /etc/wireguard/wg0.conf. */
    var conf: string

    ghost function State(): Host
      reads this
    {
      Host(privateKey, publicKey, endpoint, listenPort, interName, botToken, clients, conf)
    }

    /**
     * AddWireguardClient: `privateClientKey` and `publicClientKey` are the keys
     * `wg genkey` and `wg pubkey` print, with the surrounding white space
     * already trimmed; `openOk` and `writeOk` say whether opening wg0.conf for
     * appending and writing the block succeed. Every return writes the local
     * record back into the map, as the deferred closure does.
     */
    method AddWireguardClient(clientID: int, privateClientKey: string, publicClientKey: string, openOk: bool, writeOk: bool)
      returns (result: Client, id: int, err: Option<AddError>)
      modifies this`clients, this`conf
      ensures Added(old(State()), clientID, privateClientKey, publicClientKey, openOk, writeOk) == AddOutcome(State(), result, id, err)
    {
      ghost var before := State();
      var client: Client;
      if clientID in clients {
        client := clients[clientID];
      } else {
        client := ZeroClient.(id := clientID);
        clients := clients[clientID := client];
      }
      client := client.(privateClientKey := privateClientKey);
      client := client.(publicClientKey := publicClientKey);
      client := client.(addressClient := Address(clientID));
      client := client.(peer := client.peer.(endpoint := endpoint));
      client := client.(peer := client.peer.(publicKey := publicKey));
      var peer := PeerBlock(publicClientKey, clientID);
      client := client.(peerStr := peer);
      ghost var outcome := Added(before, clientID, privateClientKey, publicClientKey, openOk, writeOk);
      assert client == Filled(before, clientID, privateClientKey, publicClientKey);
      if !openOk || !writeOk {
        clients := clients[clientID := client];
        assert clients == before.clients[clientID := client];
        assert State() == outcome.host;
        if !openOk {
          return ZeroClient, 0, Some(OpenFailed);
        }
        return ZeroClient, 0, Some(WriteFailed);
      }
      conf := conf + peer;
      client := client.(status := true);
      var clientConfig := ClientConfigText(client.addressClient, client.privateClientKey, endpoint, publicKey);
      client := client.(config := clientConfig);
      clients := clients[clientID := client];
      assert clients == before.clients[clientID := client];
      assert State() == outcome.host;
      return client, clientID, None;
    }

    /**
     * StopClient: the write-back of the record is registered before wg0.conf
     * is read, so it also runs when the read or the write fails.
     */
    method StopClient(id: int, readOk: bool, writeOk: bool)
      modifies this`clients, this`conf
      ensures State() == Stopped(old(State()), id, readOk, writeOk)
    {
      if id !in clients {
        return;
      }
      var client := clients[id];
      if !readOk {
        clients := clients[id := client];
        return;
      }
      var fileContent := conf;
      client := client.(status := false);
      var updatedContent := RemoveFirst(fileContent, client.peerStr);
      if !writeOk {
        clients := clients[id := client];
        return;
      }
      conf := updatedContent;
      clients := clients[id := client];
    }

    /** ActClient: the write-back is registered only once wg0.conf has been read. */
    method ActClient(id: int, readOk: bool, writeOk: bool)
      modifies this`clients, this`conf
      ensures State() == Activated(old(State()), id, readOk, writeOk)
    {
      if id !in clients {
        return;
      }
      var client := clients[id];
      if !readOk {
        return;
      }
      client := client.(status := true);
      var updatedContent := conf + "\n" + client.peerStr;
      if !writeOk {
        clients := clients[id := client];
        return;
      }
      conf := updatedContent;
      clients := clients[id := client];
    }

    /** DeleteClient: StopClient, then the entry is removed from the map. */
    method DeleteClient(id: int, readOk: bool, writeOk: bool)
      modifies this`clients, this`conf
      ensures State() == Deleted(old(State()), id, readOk, writeOk)
    {
      StopClient(id, readOk, writeOk);
      clients := clients - {id};
    }

    /**
     * AllClients: one line per map entry. Go visits the map in an order it
     * leaves unspecified; `order` is that order, each key exactly once.
     */
    method AllClients(order: seq<int>) returns (text: string)
      requires VisitOrder(order, clients)
      ensures text == Listing(order, clients)
    {
      text := "";
      for i := 0 to |order|
        invariant text == Listing(order[..i], clients)
      {
        var id := order[i];
        var client := clients[id];
        assert order[..i + 1][..i] == order[..i];
        text := text + ListingLine(id, client);
      }
      assert order[..|order|] == order;
    }

    /**
     * GenerateWireGuardConfig: renders the server template from the record's
     * PrivateKey, ListenPort and InterName and overwrites wg0.conf with it.
     */
    method GenerateWireGuardConfig(openOk: bool, writeOk: bool)
      modifies this`conf
      ensures State() == Regenerated(old(State()), openOk, writeOk)
    {
      var buf := ServerConfigText(privateKey, listenPort, interName);
      if !openOk {
        return;
      }
      conf := "";
      if !writeOk {
        return;
      }
      conf := buf;
    }

    /**
     * GetIPAndInterfaceName over the list net.Interfaces() returns (None when
     * that call fails): the first usable interface and its first IPv4 address
     * become InterName and Endpoint.
     */
    method GetIPAndInterfaceName(interfaces: Option<seq<Interface>>) returns (err: Option<NetError>)
      modifies this`interName, this`endpoint
      ensures interfaces.None? ==> err == Some(InterfacesError)
      ensures interfaces.Some? && Select(interfaces.value).AddrsFailed? ==> err == Some(AddrsError)
      ensures interfaces.Some? && Select(interfaces.value).NotFound? ==> err == Some(NoAddressError)
      ensures interfaces.Some? && Select(interfaces.value).Found? ==>
                && err.None?
                && var s := Select(interfaces.value);
                   var f := interfaces.value[s.iface];
                   && interName == f.name
                   && endpoint == Endpoint(f.addrs.value[s.addr], listenPort)
      ensures err.Some? ==> interName == old(interName) && endpoint == old(endpoint)
    {
      if interfaces.None? {
        return Some(InterfacesError);
      }
      var ifaces := interfaces.value;
      for k := 0 to |ifaces|
        invariant Select(ifaces) == SelectFrom(ifaces, k)
        invariant interName == old(interName) && endpoint == old(endpoint)
      {
        var iface := ifaces[k];
        if !iface.up || iface.loopback {
          continue;
        }
        if iface.addrs.None? {
          return Some(AddrsError);
        }
        var addrs := iface.addrs.value;
        for j := 0 to |addrs|
          invariant forall i :: 0 <= i < j ==> !IsIPv4(addrs[i])
        {
          var ip: Option<seq<Byte>>;
          match addrs[j] {
            case IPNet(x) => ip := Some(x);
            case IPAddr(x) => ip := Some(x);
            case OtherAddr => ip := None;
          }
          if ip.None? || To4(ip.value).None? {
            continue;
          }
          assert FirstIPv4From(addrs, 0) == Some(j);
          interName := iface.name;
          endpoint := IPv4String(To4(ip.value).value) + ":" + listenPort;
          return None;
        }
        assert FirstIPv4From(addrs, 0).None?;
      }
      return Some(NoAddressError);
    }
  }
}
