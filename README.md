# wireguard_go_ubuntu in Dafny

This project models the core of `wireguard_go_ubuntu.go`, a Go wrapper that sets up a WireGuard server on
Ubuntu and manages its clients. The core has two pieces of state:

- the server record `WireGuardConfig`, with its map of clients keyed by id;
- the text of `/etc/wireguard/wg0.conf`, held as one string.

The project proves properties of the model of that core. It also models the pure or loop-shaped helpers
around the core:

- the `wg show` scan of `CollectTraffic` and the checks of `parseTraffic`;
- the `/etc/sysctl.conf` line filter of `DropWireguard`, together with the line that `WireguardStart`
  appends;
- the interface and address choice of `GetIPAndInterfaceName`, and the name heuristics `isWiredInterface`
  and `isWirelessInterface`.

Modules:

- `Wrappers` holds `Option` and `Result`.
- `GoStrings` holds the parts of Go's `strings`, `strconv` and `fmt` that the core uses.
  - `strings.Replace(s, p, "", 1)` is `RemoveFirst`.
  - `strings.Split`, `strings.Join`, `strings.Fields`, `strings.TrimSpace`, `TrimPrefix`, `TrimSuffix`,
    `HasPrefix` and `Contains` are modelled.
  - `%d` formatting is `IntToString`.
- `Registry` holds the client records, the texts written to `wg0.conf`, the state `Host` and its transition
  functions, and the class `WireGuardConfig`.
  - Each client operation is a method of `WireGuardConfig` that follows the Go code step by step.
  - Each method's postcondition ties the new state to a transition function.
  - The deferred write-backs of the client record are placed where the Go code registers them.
- `RegistryProps` holds the lemmas about the transitions: what an add, stop, activate, delete or regenerate
  does, and which of them keep every active client's peer block in `wg0.conf`.
- `Traffic` holds `parseTraffic` and the line loop of `CollectTraffic`. The method is proved against a scan
  function, and the lemmas are about that function.
- `Sysctl` holds `DropWireguard`'s rewrite of `/etc/sysctl.conf`. It reads lines the way `bufio.ScanLines`
  does.
- `Netif` holds the selection rule of `GetIPAndInterfaceName` over a given interface list, `net.IP.To4`,
  and dotted-decimal printing.

Outside effects are parameters of the methods:

- the keys printed by `wg genkey` and `wg pubkey`;
- whether opening, reading or writing a file succeeds;
- the output of `wg show`;
- the list returned by `net.Interfaces()`, including whether `Addrs()` fails for an interface;
- the order in which a Go `range` visits the client map.

The code and its in-line example disagree on the `transfer:` line. The comment in `CollectTraffic` gives
`"transfer: 3.48 MiB received, 33.46 MiB sent"` as the line it reads. The code does not read that line: the
rx part keeps the word `received`, so `parseTraffic` sees three fields and the line is skipped. The model
follows the code. `Traffic.StandardTransferLineSkipped` and `Traffic.ShowTransferLineRecordsNothing` state
this behaviour.

## Model

| member | source | states |
|---|---|---|
| Registry.WireGuardConfig.AddWireguardClient | wireguard_go_ubuntu.go:192-248 | the new map, the new wg0.conf and the returned (client, id, error) are exactly `Added` of the old state; every return path writes the record back, as the deferred closure does |
| RegistryProps.AddSucceeds | wireguard_go_ubuntu.go:199-247 | a successful add returns the given id, appends the peer block `"\n[Peer]\nPublicKey = <pub>\nAllowedIPs = 10.0.0.<id>/24\n"` to wg0.conf, and stores an active record with address 10.0.0.<id>/24, the server's public key and endpoint in `Peer`, and the client configuration; an existing record keeps its Id, TgId and AllowedIPs; the server fields are untouched |
| RegistryProps.AddFails | wireguard_go_ubuntu.go:199-231 | when opening or writing fails, the call returns the zero client, id 0 and the error, and wg0.conf is unchanged; the map still holds the id with the new private and public keys, address and peer block, with the status it had before, and every other entry is unchanged |
| RegistryProps.ReAddKeepsOldBlock | wireguard_go_ubuntu.go:199-229 | re-adding an id whose block is in wg0.conf appends a new block; the old block stays in the file |
| RegistryProps.AddressInjective | wireguard_go_ubuntu.go:218 | different ids get different addresses `10.0.0.<id>/24` |
| RegistryProps.PeerBlockInjective | wireguard_go_ubuntu.go:221 | with the same public key, different ids give different peer blocks |
| RegistryProps.AddKeepsActiveBlocks | wireguard_go_ubuntu.go:224-232 | a successful add keeps the invariant "every active client's peer block is in wg0.conf" |
| RegistryProps.FailedReAddLosesBlock | wireguard_go_ubuntu.go:199-231 | a failed re-add of an active client overwrites its PeerStr with a block that is not in the file, which breaks that invariant |
| Registry.WireGuardConfig.StopClient | wireguard_go_ubuntu.go:98-126 | the new state is `Stopped` of the old one; the write-back is registered before the read, so a failed write still leaves the record stopped |
| RegistryProps.StopUndoesAdd | wireguard_go_ubuntu.go:98-248 | stopping a client just added (open, write and read succeeding) gives back the wg0.conf from before the add, when the new block's first occurrence is the appended one, and the client is stopped |
| RegistryProps.StopThenActivate | wireguard_go_ubuntu.go:98-156 | activating a client after stopping it leaves it active with its peer block back in wg0.conf, appended after a newline to what the stop left |
| RegistryProps.StopBreaksNeighbourBlock | wireguard_go_ubuntu.go:98-126 | when two active clients' blocks share one newline in wg0.conf, the active-blocks invariant holds, and stopping the first client removes that newline with its block, so the second client, still active, loses its block from the file |
| RegistryProps.StopEffects | wireguard_go_ubuntu.go:99-119 | an unknown id or a failed read changes nothing; otherwise only this entry changes, to status false; after a successful write, wg0.conf loses the first occurrence of PeerStr and only that, so it is shorter by its length when present and unchanged when absent |
| Registry.WireGuardConfig.ActClient | wireguard_go_ubuntu.go:129-156 | the new state is `Activated` of the old one; the write-back is registered only after a successful read |
| RegistryProps.ActivateKeepsActiveBlocks | wireguard_go_ubuntu.go:129-156 | a successful activation keeps the active-blocks invariant and leaves the client active |
| RegistryProps.FailedActivateLosesBlock | wireguard_go_ubuntu.go:138-153 | when the write fails after the read, the record is still marked active although its block was not written, which breaks the invariant |
| RegistryProps.StopAfterDoubleActivateKeepsBlock | wireguard_go_ubuntu.go:117-147 | activation appends without checking whether the block is there; after two activations and a stop, the client is stopped while a copy of its block remains in wg0.conf |
| Registry.WireGuardConfig.DeleteClient | wireguard_go_ubuntu.go:159-173 | the new state is `Deleted` of the old one: StopClient, then the map entry is removed |
| RegistryProps.DeleteEffects | wireguard_go_ubuntu.go:159-173 | afterwards the id is not a key, every other entry is unchanged, and wg0.conf is exactly as StopClient leaves it |
| RegistryProps.DeleteUnknownIsNoOp | wireguard_go_ubuntu.go:159-173 | deleting an unregistered id changes nothing |
| Registry.WireGuardConfig.AllClients | wireguard_go_ubuntu.go:176-189 | for a visiting order that lists each key once, the text is the listing of one line per client in that order |
| RegistryProps.ListingIsConcat | wireguard_go_ubuntu.go:176-189 | the listing is the concatenation of the clients' lines in visiting order |
| RegistryProps.ListingShowsEveryClient | wireguard_go_ubuntu.go:176-189 | whatever the visiting order, every client's line `Клиент <id> статус <status> адресс <address> \n` is in the listing |
| RegistryProps.AddedClientListedActive | wireguard_go_ubuntu.go:176-247 | after a successful add, every listing shows the client as `Активен` at address 10.0.0.<id>/24 |
| Registry.WireGuardConfig.GenerateWireGuardConfig | wireguard_go_ubuntu.go:358-391 | the new state is `Regenerated` of the old one: a failed open leaves wg0.conf as it was, a failed write after the truncating open leaves it empty, and success replaces it with the rendered template |
| RegistryProps.ServerConfigSubstitutes | wireguard_go_ubuntu.go:360-366 | the rendered server template starts with the `[Interface]` header and the private key, and holds the PostUp and PostDown NAT rules for the interface name |
| RegistryProps.ServerConfigBracketFirst | wireguard_go_ubuntu.go:361-366 | the rendered server template has exactly one `[`, at its start, when the substituted fields have none |
| RegistryProps.RegeneratedHasNoPeerBlock | wireguard_go_ubuntu.go:358-387 | after a successful regeneration, wg0.conf contains no peer block at all |
| RegistryProps.RegenerateLosesActiveBlocks | wireguard_go_ubuntu.go:358-387 | regenerating while a client is active breaks the active-blocks invariant: that client's block is gone from the file |
| Registry.WireGuardConfig.GetIPAndInterfaceName | wireguard_go_ubuntu.go:306-345 | a failed interface query or a failed `Addrs()` on the deciding interface is reported; when nothing is found, the not-found error; otherwise InterName and Endpoint become the chosen interface's name and `<ip>:<ListenPort>`; on error both fields are unchanged |
| Netif.SelectFrom | wireguard_go_ubuntu.go:312-344 | the chosen interface is up, not loopback, and its address is its first IPv4 address; an `Addrs()` failure is reported only for an eligible interface; every interface before the decision is passed over |
| Netif.FirstIPv4From | wireguard_go_ubuntu.go:323-340 | the index found holds an IPv4 address and no earlier one does; None means none does |
| Netif.To4 | wireguard_go_ubuntu.go:334 | an address has a 4-byte form exactly when it is 4 bytes long or a 16-byte IPv4-mapped address |
| Netif.SelectAppend | wireguard_go_ubuntu.go:312-344 | interfaces listed after the deciding one do not change the outcome; when the first list finds nothing, the second list decides |
| Netif.IPv4StringRoundTrip | wireguard_go_ubuntu.go:339 | the dotted-decimal text of an IPv4 address parses back to the address |
| Netif.IPv4StringInjective | wireguard_go_ubuntu.go:339 | different IPv4 addresses give different endpoint texts |
| Netif.WirelessWlanRedundant | wireguard_go_ubuntu.go:353-355 | isWirelessInterface's `wlan` test never decides anything, because `wlan` contains `wl` |
| Netif.NoWNotWireless | wireguard_go_ubuntu.go:353-355 | isWirelessInterface takes no name without a `w` for wireless |
| Netif.NoENotWired | wireguard_go_ubuntu.go:348-350 | isWiredInterface takes no name without an `e` for wired |
| Sysctl.DropForwarding | wireguard_go_ubuntu.go:505-525 | a file that cannot be opened gives no write; otherwise the text written is the kept lines joined with newlines plus a final newline |
| Sysctl.KeptLinesMembers | wireguard_go_ubuntu.go:510-516 | a line is kept exactly when it is a scanned line that does not contain the directive |
| Sysctl.DroppedTextHasNoDirective | wireguard_go_ubuntu.go:505-525 | whatever the file held, the rewritten file does not contain `net.ipv4.ip_forward=1` |
| Sysctl.DropUndoesEnable | wireguard_go_ubuntu.go:396-522 | on a file of plain newline-terminated lines without the directive, DropWireguard gives back exactly the text WireguardStart started from |
| Sysctl.DropOfEnabledEmpty | wireguard_go_ubuntu.go:403-522 | an empty sysctl.conf does not come back empty: it comes back as a lone newline |
| Sysctl.ScannerLinesOfLines | wireguard_go_ubuntu.go:509-511 | a bufio scanner reads a file of plain newline-terminated lines back as those lines |
| Sysctl.DropCR | wireguard_go_ubuntu.go:511 | a scanned line ending in a carriage return loses exactly that one character; any other line is returned unchanged |
| Sysctl.ScannerLines | wireguard_go_ubuntu.go:509-511 | an empty file gives no lines, and no scanned line holds a newline |
| Sysctl.EnableForwardingAppends | wireguard_go_ubuntu.go:396-406 | WireguardStart's append keeps the old text as a prefix and leaves `net.ipv4.ip_forward=1` in the file |
| Traffic.ParseUnit | wireguard_go_ubuntu.go:615-626 | exactly B, KiB, MiB and GiB are accepted, and each is read back as the unit of that name |
| Traffic.ParseTraffic | wireguard_go_ubuntu.go:604-628 | the text is accepted exactly when it has two fields whose second is a known unit; a field count other than two is the format error, and a bad unit is the unit error |
| Traffic.ParseTrafficOfPrinted | wireguard_go_ubuntu.go:604-628 | an amount printed as `<number> <unit>` is read back as that number and unit |
| Traffic.ParseTrafficRejectsThirdWord | wireguard_go_ubuntu.go:605-608 | a third word after the unit makes the format check fail |
| Traffic.CollectTraffic | wireguard_go_ubuntu.go:552-601 | a failed `wg show` is an error; otherwise the map is that of the line scan of the output split at newlines |
| Traffic.ScanKeysAreNamedPeers | wireguard_go_ubuntu.go:567-598 | every key of the result is non-empty and was named by a `peer:` line, so a transfer line before any peer line is never recorded |
| Traffic.NoPeerLineNoTraffic | wireguard_go_ubuntu.go:567-598 | without a `peer:` line, the result is empty |
| Traffic.TransferRecordedUnderLastPeer | wireguard_go_ubuntu.go:567-598 | a transfer line that is read is recorded, with its reading, under the peer named by the last `peer:` line before it, whatever lines other than `peer:` lines come between |
| Traffic.LaterTransferOverwrites | wireguard_go_ubuntu.go:567-598 | a transfer line that parses, for the same peer, makes any earlier transfer line of that peer irrelevant: lines between them that are not `peer:` lines may be anything, and the counters are as if the earlier line were absent |
| Traffic.StandardTransferLineSkipped | wireguard_go_ubuntu.go:573-585 | the line in the form `wg show` prints, `transfer: <rx> received, <tx> sent`, is not read, because the rx field keeps `received` |
| Traffic.ShowTransferLineClassified | wireguard_go_ubuntu.go:567-585 | that line, indented as `wg show` prints it, is treated as a transfer line that cannot be read |
| Traffic.ShowTransferLineRecordsNothing | wireguard_go_ubuntu.go:567-598 | wherever that line appears in the output, it leaves the recorded counters as they were |
| Traffic.BareTransferLineRead | wireguard_go_ubuntu.go:573-596 | a transfer line `transfer: <rx>, <tx> sent` is read as exactly those two amounts |
| Traffic.ReadPartsOfAmounts | wireguard_go_ubuntu.go:578-591 | the parts `transfer: x` and ` y sent` are read as the amounts that parseTraffic makes of x and y |
| GoStrings.RemoveFirst | wireguard_go_ubuntu.go:117 | `strings.Replace(s, p, "", 1)` leaves s unchanged when p is absent or empty; otherwise the result is shorter than s by exactly the length of p |
| GoStrings.RemoveFirstPutBack | wireguard_go_ubuntu.go:117 | when p occurs in s, putting p back into the result at the index of its first occurrence gives s: exactly that one copy was cut out |
| GoStrings.RemoveFirstAppend | wireguard_go_ubuntu.go:117 | when p occurs in s, removing its first copy from s + t touches only s |
| GoStrings.JoinSplit | wireguard_go_ubuntu.go:562 | joining the pieces of `strings.Split` with the separator gives back the text |
| GoStrings.SplitJoin | wireguard_go_ubuntu.go:562 | splitting pieces that do not contain the separator, after joining them with it, gives back the pieces |
| GoStrings.FieldsOfWords | wireguard_go_ubuntu.go:605 | `strings.Fields` of words joined by single spaces gives back the words |
| GoStrings.TrimSpacePadded | wireguard_go_ubuntu.go:568 | `strings.TrimSpace` removes exactly the surrounding white space from trimmed text |
| GoStrings.IntToStringRoundTrip | wireguard_go_ubuntu.go:218 | the `%d` text of an integer parses back to it |

## Left out

- Key generation: the output of `wg genkey` and `wg pubkey` is a parameter that is already trimmed. The failures of those commands, which the code ignores, are not modelled.
- `restWireguard` (`systemctl restart`), `ufw allow`, `rm -rf` and `systemctl disable` are shell commands with no effect on the modelled state, so they are left out.
- The log lines and the `log.Fatalf` exits of `WireguardStart` and `DropWireguard` are left out. An unopenable sysctl.conf is modelled as writing nothing. A scanner or write error after that is not modelled.
- Registry.WireGuardConfig.AddWireguardClient: the nil-map initialisation is a no-op in the model, because a Dafny map always exists.
- A failed `os.WriteFile` or `WriteString` is modelled as leaving the file unchanged. Partial writes are not modelled, and neither are file permissions or the absence of atomic writes.
- Registry.WireGuardConfig.AllClients: Go leaves the map's iteration order unspecified, so the order is a parameter. The contract holds for every order that lists each key once.
- Traffic.ParseTraffic: the number stays as text. `strconv.ParseFloat`, the multiplication by the unit and the truncation to uint64 are not modelled. A first field that ParseFloat would reject is therefore accepted by the model.
- Traffic.CollectTraffic: the map values are the amounts as text and unit, not byte counts, for the reason given for ParseTraffic.
- `bufio.Scanner`'s 64 KiB token limit is not modelled: the model reads lines of any length.
- `GenServerKeys`, `RandomPort` (`rand.Intn`), `Autostart` and `WireguardStart` are not modelled, except for the line that `WireguardStart` appends to sysctl.conf (`Sysctl.EnableForwarding`). They are shell commands, randomness and sequencing.
- `SaveToFile` and `LoadFromFile` (JSON over the file system) are not modelled.
- `SendConfigToUserTg` (Telegram, console input) is not modelled.
- APIManager.go (HTTP handlers around the registry) is not part of this model, and neither is its unsynchronised global or any concurrency.
- `net.IP.String` is modelled only for addresses with a 4-byte form, the only ones the selection loop prints.
