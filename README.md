# braft membership layer in Dafny

This project models the membership layer of braft (`src/braft/configuration.h`):

- `PeerId` names one replica. It is either a network end point (IPv4 address and port) or a host name that carries its port (`"name:port"`). In both cases it also has an `idx` that separates replicas sharing one address.
- `NodeId` pairs a group id with a `PeerId`.
- `Configuration` is the set of voting peers. It is changed in place by `add_peer` and `remove_peer`, and compared with lists and with other configurations. Its `diffs` operation computes the peers a leader drops (`this − rhs`) and brings in (`rhs − this`) when it moves the group to a new configuration.

Modules:

- `Text` (`text.dfy`): the pieces of the C library that `parse` and `to_string` rely on:
  - the `%d` conversion of `sscanf`;
  - the numerals printed by `%d` and `std::to_string`;
  - the cut of a string at its first NUL by `c_str()`;
  - the truncation done by `snprintf`;
  - the order of `std::string`.
- `Ipv4` (`ipv4.dfy`): IPv4 literals as `butil::str2ip` reads them and `ip2str` prints them. Leading white space is skipped. Exactly four dot-separated decimal octets are accepted, with no leading zeros and each at most 255.
- `PeerIds` (`peer_id.dfy`): the `PeerId` value, `reset`, `is_empty`, `parse`, `to_string`, `operator==` and `operator<`.
- `NodeIds` (`node_id.dfy`): `NodeId`, its order, equality and text.
- `Membership` (`configuration.dfy`): the `Configuration` class, whose field `peers: set<PeerId>` its methods change in place, and the set algebra of `diffs`.

How the model represents `PeerId`:

- The C++ struct keeps both variants' fields side by side, with a tag `type_`. The model is a sum type that keeps only the fields of the active variant.
- Equality, order, `is_empty` and `to_string` read only the active fields.
- `parse` appends to `hostname_` only after `reset`. At that point `hostname_` is empty for every peer built by the default constructor, `parse`, `reset` and assignment.
- `reset` and `parse` are functions from the old peer to the new one. `parse` also returns its result code. The value stays a value because configurations hold peers in a set.

Details of the code that the model keeps:

- `to_string` prints into a 265-byte buffer, so its text is cut to 264 characters. The round trip is proved only for peers whose text fits.
- `to_string` prints the host name through `c_str()`, so a host name holding a NUL is printed only up to it. `operator<<` writes the whole string.
- A host name stores its port as `std::to_string` prints it. So `"host:08002"` becomes `"host:8002"`.
- `"0.0.0.0:0"` parses successfully to a peer for which `is_empty` holds.

## Model

| member | source | states |
|---|---|---|
| Text.NatToString | src/braft/configuration.h:89 | the numeral printed for n is non-empty and made of digits, its value is n, and it has no leading zero |
| Text.NatToStringOfDigits | src/braft/configuration.h:89 | a digit string without a leading zero is exactly the numeral printed for its value |
| Text.IntToString | src/braft/configuration.h:102-104 | `%d` text starts with a digit or '-' and holds only digits and '-' (so never ':' or NUL) |
| Text.ScanInt | src/braft/configuration.h:81 | a `%d` conversion consumes at least one character, ends on a digit, and is never followed by a digit (maximal munch) |
| Text.ScanIntOfIntToString | src/braft/configuration.h:81 | `%d` reads back exactly the number `%d` printed, consuming all of it, when no digit follows |
| Text.CString | src/braft/configuration.h:81 | what `sscanf` sees is the prefix of the text before its first NUL |
| Text.Truncate | src/braft/configuration.h:100-106 | `snprintf` into a bounded buffer keeps a prefix of the text, cut to the capacity only when the text is longer |
| Text.StringLessIrreflexive | src/braft/configuration.h:118-121 | no host name is less than itself |
| Text.StringLessAsymmetric | src/braft/configuration.h:118-121 | host-name order is asymmetric |
| Text.StringLessTransitive | src/braft/configuration.h:118-121 | host-name order is transitive |
| Text.StringLessTotal | src/braft/configuration.h:118-121 | any two different host names are ordered one way |
| Ipv4.OctetOf | src/braft/configuration.h:85 | an accepted octet is exactly the numeral printed for its value |
| Ipv4.ParseIp | src/braft/configuration.h:85 | an address `str2ip` accepts prints back as the same text, less its leading white space |
| Ipv4.ParseIpOfIpToString | src/braft/configuration.h:85 | every address printed by `ip2str` is read back by `str2ip` as that address |
| PeerIds.Reset | src/braft/configuration.h:57-67 | `reset` keeps the variant, and `is_empty` always holds afterwards |
| PeerIds.EmptyIffReset | src/braft/configuration.h:57-75 | the empty peers are exactly the peers that `reset` leaves unchanged |
| PeerIds.DefaultPeerIsEmpty | src/braft/configuration.h:50 | the default peer is an end point and is empty |
| PeerIds.ScanColonInt | src/braft/configuration.h:81 | one `%*[:]%d` step starts at a ':' and consumes at least a colon and a digit |
| PeerIds.ScanPeerText | src/braft/configuration.h:81 | the scan returns -1 exactly on empty text, at most 3 fields, and a non-empty address with no ':' or NUL once a field is read |
| PeerIds.Parse | src/braft/configuration.h:77-96 | rc is 0 or -1; -1 exactly when fewer than two fields are scanned, and then the peer is reset (same variant, empty); idx is 0 when none is scanned; the peer is a host name exactly when the address is not an IP literal |
| PeerIds.ParseWithoutIdx | src/braft/configuration.h:77-96 | `"addr:port"` parses with idx 0, to the end point when addr is an IP literal, else to the host name `"addr:port"` |
| PeerIds.ScanOfRendered | src/braft/configuration.h:81 | scanning `"addr:port:idx"` returns all three fields unchanged |
| PeerIds.ToString | src/braft/configuration.h:98-107 | `to_string` is at most 264 characters and holds no NUL; for a host name it is a prefix of the name up to its first NUL, then ':' and idx; when the host name has no NUL it is a prefix of the peer's full text, and all of it when that fits |
| PeerIds.PrintedTextOfNulFree | src/braft/configuration.h:98-107 | without a NUL in the host name, `%s:%d` prints exactly what `operator<<` (lines 143-149) writes |
| PeerIds.ParseOfToString | src/braft/configuration.h:77-107 | parsing the `to_string` of a parsed peer gives back the same result, from any starting peer, when the text fits the buffer |
| PeerIds.ParseOfToStringEndPoint | src/braft/configuration.h:77-107 | every end-point peer whose text fits the buffer parses back from its `to_string` as itself, with rc 0 |
| PeerIds.ParseOfToStringHostName | src/braft/configuration.h:77-107 | a host-name peer `addr:port` that `parse` builds (addr not an IP literal, no ':' or NUL) parses back from its `to_string` as itself, when its text fits |
| PeerIds.PeerEqIsEquality | src/braft/configuration.h:129-137 | `operator==` is value equality; peers of different variants are never equal |
| PeerIds.PeerLessIrreflexive | src/braft/configuration.h:110-127 | `operator<` is irreflexive |
| PeerIds.PeerLessAcrossVariants | src/braft/configuration.h:110-137 | an end point and a host name are neither less than one another nor equal |
| PeerIds.PeerLessTransitive | src/braft/configuration.h:110-127 | `operator<` is transitive |
| PeerIds.PeerLessTrichotomy | src/braft/configuration.h:110-127 | within one variant exactly one of x < y, x == y, y < x holds, lexicographically on (address, idx) or (host name, idx) |
| PeerIds.SetKeyAsWrittenMergesVariants | src/braft/configuration.h:110-127 | as written, `std::set` takes 10.0.0.1:8002:0 and node-a:8002:0 for one key; "same key" is not transitive (see Findings) |
| PeerIds.FixedLessIsStrictTotalOrder | src/braft/configuration.h:110-127 | ordering by variant first and then by `operator<` gives a strict total order whose "same key" is equality |
| PeerIds.FixedLessWithinVariant | src/braft/configuration.h:110-127 | within one variant, that order is `operator<` itself |
| PeerIds.CopyAsWritten | src/braft/configuration.h:55 | the copy constructor keeps the variant and idx; an end point is copied whole |
| PeerIds.CopyAsWrittenLosesHostName | src/braft/configuration.h:55 | as written, the copy of a peer with a non-empty host name differs from it, any two host names with one idx copy to the same peer, and the copy `std::set` stores sorts strictly before the peer given, so it is not that peer's key (see Findings) |
| NodeIds.Compare | src/braft/configuration.h:162 | `compare` is negative, zero or positive exactly as the group ids are less, equal or greater |
| NodeIds.NodeEqIsEquality | src/braft/configuration.h:170-176 | `operator==` is value equality, and `operator!=` is its negation |
| NodeIds.NodeLessIsLexicographic | src/braft/configuration.h:161-168 | nodes are ordered by group id and then by peer |
| NodeIds.NodeLessIrreflexive | src/braft/configuration.h:161-168 | the node order is irreflexive |
| NodeIds.NodeLessTransitive | src/braft/configuration.h:161-168 | the node order is transitive |
| NodeIds.NodeLessAcrossVariants | src/braft/configuration.h:161-172 | in one group, nodes whose peers are of different variants are unordered and unequal |
| NodeIds.NodeIdAsWrittenMergesHostNames | src/braft/configuration.h:155-157 | as written, the constructor's copy of its peer drops the host name, so the nodes ("g", node-a:8002:0) and ("g", node-b:8002:0) are equal, unordered, and print as `g::0` (see Findings) |
| NodeIds.NodeToStringStartsWithGroup | src/braft/configuration.h:178-186 | when the group id has no ':', the text before the first ':' of a node's text is its group id and the text after it is the peer's text |
| Membership.SubsetOfSameSize | src/braft/configuration.h:281 | a subset as large as its superset is equal to it, which is why the size checks of `equals` suffice |
| Membership.HasLeast | src/braft/configuration.h:235-238 | every non-empty set of peers has a least element, which set iteration visits first |
| Membership.Diff | src/braft/configuration.h:298-314 | `included` holds exactly the peers of `this` that are not in `rhs`; `excluded` holds exactly the peers of `rhs` that are not in `this` |
| Membership.DiffMirror | src/braft/configuration.h:298-314 | swapping the operands swaps `included` and `excluded` |
| Membership.DiffEmptyIffEqual | src/braft/configuration.h:298-314 | both results are empty exactly when the configurations are equal |
| Membership.DiffTransforms | src/braft/configuration.h:298-314 | removing `included` from `this` and adding `excluded` gives `rhs`; the joint configuration `this ∪ rhs` is `this ∪ excluded` and `rhs ∪ included` |
| Membership.Configuration.constructor | src/braft/configuration.h:193 | a new configuration is empty |
| Membership.Configuration.FromSeq | src/braft/configuration.h:195-200 | built from a vector, the configuration holds each listed peer once |
| Membership.Configuration.FromSet | src/braft/configuration.h:202-203 | built from a set, the configuration holds that set |
| Membership.Configuration.AssignSeq | src/braft/configuration.h:205-211 | assigning a vector replaces the peers with the distinct listed peers |
| Membership.Configuration.AssignSet | src/braft/configuration.h:213-216 | assigning a set replaces the peers with it |
| Membership.Configuration.Reset | src/braft/configuration.h:218-219 | `reset` empties the configuration |
| Membership.Configuration.ListPeersSet | src/braft/configuration.h:227-231 | the destination set ends up equal to the peers, whatever it held before |
| Membership.Configuration.ListPeers | src/braft/configuration.h:232-239 | the destination vector holds every peer exactly once, in ascending order |
| Membership.Configuration.AppendPeers | src/braft/configuration.h:241-243 | the destination gains every peer and keeps its own, and nothing else is added |
| Membership.Configuration.AddPeer | src/braft/configuration.h:245-249 | returns true exactly when the peer was absent; the peers become old ∪ {p}; the size grows by one or stays the same |
| Membership.Configuration.RemovePeer | src/braft/configuration.h:251-255 | returns true exactly when the peer was present; the peers become old − {p}; the size shrinks by one or stays the same |
| Membership.Configuration.ContainsAll | src/braft/configuration.h:257-270 | `contains(vector)` is true exactly when every listed peer is a member (`contains(peer)`), so it is true for an empty list |
| Membership.Configuration.EqualsList | src/braft/configuration.h:272-282 | `equals(vector)` is true exactly when the distinct listed peers are the members, whatever their order and repeats |
| Membership.Configuration.Equals | src/braft/configuration.h:284-296 | `equals(Configuration)` is set equality (so reflexive and symmetric), and false when the sizes differ |
| Membership.Configuration.EraseAll | src/braft/configuration.h:306-313 | erasing the peers of a set one at a time leaves old − set |
| Membership.Configuration.Diffs | src/braft/configuration.h:298-314 | `included` and `excluded` become the two halves of `Diff(this, rhs)`, also when `included` is `this`; `rhs` is unchanged, and so is `this` unless it is `included` |
| Membership.MembershipChangeExample | src/braft/configuration.h:298-314 | going from {a, b, c} to {b, c, d}, `diffs` yields included {a} and excluded {d}; the reverse call yields {d} and {a}; with the old configuration as its own `included`, it is left holding {a} |

## Left out

- `Configuration::parse_from` (line 318) is only declared in this file. Its body is not part of this model.
- The `PeerId(const std::string&)` constructor (lines 53-54) is not modelled. It aborts through `CHECK_EQ` when parsing fails. Its `reset` also reads `type_` before anything sets it.
- The stream printers (`operator<<`) are not modelled as streams. `PeerIds.Render` and `NodeIds.NodeToString` give the text that the `PeerId` and `NodeId` printers write. The `Configuration` printer is only declared.
- `LOG(INFO)` in `parse` is left out; it has no effect on the result.
- `begin()`/`end()` iterators are not modelled. `ListPeers` gives the order in which they visit the peers.
- `empty()`, `size()` and `contains(peer)` are the plain predicates and function `Empty`, `Size` and `Contains`, with no contract of their own. `Equals` and `ContainsAll` state their meaning.
- Several definitions have no contract of their own; the lemmas named here state their meaning:
  - PeerIds.IsEmpty (`is_empty`, lines 69-75): PeerIds.Reset, PeerIds.EmptyIffReset, PeerIds.DefaultPeerIsEmpty.
  - PeerIds.PeerEq (`operator==`, lines 129-137): PeerIds.PeerEqIsEquality, PeerIds.PeerLessAcrossVariants.
  - PeerIds.PeerLess (`operator<`, lines 110-127): PeerIds.PeerLessIrreflexive, PeerIds.PeerLessTransitive, PeerIds.PeerLessTrichotomy, PeerIds.PeerLessAcrossVariants, PeerIds.SetKeyAsWrittenMergesVariants.
  - PeerIds.Render (`operator<<` for PeerId, lines 143-149): PeerIds.ScanOfRendered, PeerIds.PrintedTextOfNulFree, PeerIds.ParseOfToString.
  - NodeIds.NodeLess (lines 161-168): NodeIds.NodeLessIsLexicographic, NodeIds.NodeLessIrreflexive, NodeIds.NodeLessTransitive, NodeIds.NodeLessAcrossVariants.
  - NodeIds.NodeEq and NodeIds.NodeNe (lines 170-176): NodeIds.NodeEqIsEquality.
  - NodeIds.NodeToString (lines 178-186): NodeIds.NodeToStringStartsWithGroup.
- butil's `str2ip`, `ip2str`/`endpoint2str` and the `EndPoint` order are defined outside `configuration.h`. Module `Ipv4` models them for IPv4 only: `str2ip` skips leading white space and then applies the `inet_pton` rules for a dotted quad. IPv6 and unix-socket end points are not covered.
- Ipv4.IpLess: compares octets in network order. butil compares the raw 32-bit address word, whose order depends on the host's byte order. This changes which of two different addresses sorts first, never whether two addresses are equal.
- PeerIds.Parse: `port` and `idx` are unbounded integers. In the source they are C `int`, and an overflowing `%d` is undefined behaviour.
- PeerIds.Parse: reads addresses of any length. The source scans the address into a 265-byte buffer, and an address of 265 characters or more overflows it.
- PeerIds.Parse: assumes `hostname_` is empty whenever `type_` is `EndPoint`. This holds for peers built by the operations above, but not if a caller writes the public field directly.
- PeerIds.ToString: lengths count characters, not bytes. The 265-byte buffers of lines 79 and 100 hold fewer characters than that when a host name has non-ASCII characters, so truncation and overflow set in at different lengths in the source. The round-trip lemmas take host names without NUL, which is all `parse` ever builds.
- Membership.Configuration.Diffs: requires the two output configurations to be distinct from each other and from `rhs`, and `excluded` to be distinct from `this`. `included` may be `this`, which the source handles correctly. The source checks none of this. Two aliases give a wrong but defined result. With `included == excluded` both outputs end up empty. With `excluded == rhs`, `rhs` loses the peers of `this` before `included` is computed, so `included` ends up equal to `this`. Two aliases give undefined behaviour. With `included == rhs`, the loop of lines 310-313 walks `rhs` while erasing from it. With `excluded == this`, the loop of lines 306-309 walks `this` while erasing from it.
- Membership.Configuration.ListPeers: states ascending order under the corrected order `PeerIds.FixedLess`. With the source's `operator<` the order of an end point relative to a host name is undefined (see Findings).
- The configuration is a set under value equality (`operator==`), not a `std::set` ordered by `operator<`. The two differ in the mixed-variant case of the first Finding, and for every host-name peer because of the second.
- Membership.Configuration.FromSeq, Membership.Configuration.FromSet, Membership.Configuration.AssignSeq, Membership.Configuration.AssignSet, Membership.Configuration.AddPeer, Membership.Configuration.ListPeersSet, Membership.Configuration.ListPeers, Membership.Configuration.AppendPeers and Membership.Configuration.Diffs store and hand out the peers they are given. In the source every `std::set` insert or copy (lines 198, 203, 209, 215, 230, 237, 242, 248, 304-305) goes through the copy constructor of line 55, so a stored host-name peer has an empty `hostname_`. The model keeps the host names, which is the corrected behaviour of the second Finding.
- NodeIds.NodeEq, NodeIds.NodeLess and NodeIds.NodeToString, over the datatype NodeIds.NodeId, keep the peer's host name. In the source the only `NodeId` constructor (lines 155-157) copies its peer with the copy constructor of line 55, so a node built from a host-name peer has an empty `hostname_`. The model keeps the name, which is the corrected behaviour of the second Finding; NodeIds.NodeIdAsWrittenMergesHostNames shows the behaviour as written.
- Output-pointer parameters (`list_peers`, `append_peers`) become returned values. `append_peers` receives the destination's old contents as an argument.
- The administrative command-line tool (`tools/raft_cli.cpp`) is not part of this model. The client operations it calls (`add_peer`, `remove_peer`, `set_peer`, `snapshot`), with their retries and timeouts, are in `raft/cli.h`, which is not part of this model either.

## Findings

| source | as written | input that shows it | evidently intended | confidence | as-written member | corrected member |
|---|---|---|---|---|---|---|
| src/braft/configuration.h:110-127 | `operator<` is false both ways for an end point and a host name, so the `std::set<PeerId>` of line 321 treats them as one key, and "same key" is not transitive (not a strict weak order) | `Configuration{10.0.0.1:8002:0}.add_peer(node-a:8002:0)` finds the host name already present and returns false; 10.0.0.1:8002:0 and 10.0.0.2:8002:0 are each "the same key" as node-a:8002:0 yet ordered | order by variant first, then by `operator<` within the variant | not executed; high | PeerIds.SetKeyAsWrittenMergesVariants | PeerIds.FixedLessIsStrictTotalOrder |
| src/braft/configuration.h:55 | the copy constructor copies `addr`, `idx` and `type_` but not `hostname_` | a copy of node-a:8002:0 is a host-name peer with an empty name; after `add_peer(node-a:8002:0)` returns true, `contains(node-a:8002:0)` is false, because the stored ("", 0) sorts before ("node-a:8002", 0); a second `add_peer(node-a:8002:0)` returns true again and stores another ("", 0); node-a:8002:0 and node-b:8002:0 copy to the same peer, so `NodeId("g", node-a:8002:0) == NodeId("g", node-b:8002:0)` and that node's `to_string()` is `g::0` | copy every field, so a stored peer equals the one given | not executed; high | PeerIds.CopyAsWrittenLosesHostName | Membership.Configuration.AddPeer |
