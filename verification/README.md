# Home-lab inventory scanner, modelled in Dafny

This project models the Ansible inventory plugin `InventoryModule` from
`plugins/inventory/scanner.py`. The plugin scans a subnet for live hosts that
expose SSH and have a reverse-DNS name. It then builds the JSON-shaped
inventory document that Ansible imports, and registers its groups, hosts and
host variables in `parse`.

The model covers:

- **The assembler** (`Inventory`). `add_metadata` builds the `_meta.hostvars`
  block. `generate_inventory_dict` adds the root `all` group and one `hosts`
  list for each configured group (`ungrouped`, `k8s_proxmox`, `k8s_pi`,
  `proxmox`). It then routes every discovered name with the first-match-wins
  substring rules: `proxmox`, then `k8s`, then `dude`/`chief`. A name that
  matches none of these goes to `ungrouped` unless it contains `pfsense`, in
  which case it is dropped.
- **Python's dict**, as the assembler uses it (`OrderedDict`). It is an
  insertion-ordered association list with `d[k] = v`, lookup and `pop`.
  `parse` walks the document in key order, so that order is part of the model.
- **Python's `in` on strings** (`Strings`). It is an executable index search,
  proved equal to "occurs at some position".
- **Subnet validation and enumeration** (`Cidr`). A subnet is an IPv4 network
  address plus a prefix length. It is valid when the prefix is at most 32 and
  no host bits are set. It enumerates the 2^(32 - prefix) addresses that share
  the leading prefix bits, as section 3.1 of RFC 4632 describes.
- **Discovery** (`Discovery`): a ping sweep, then an SSH port check and a
  reverse lookup. What each address answers is given as a `Probes` value.
- **The run** (`Pipeline`). `generate_inventory` validates the subnet before
  scanning, then assembles the document with the seeded host variables.
- **`parse`** (`Plugin`). The calls it makes on Ansible's inventory object are
  modelled as a sequence of registrations.
- **Worked classifications** (`Scenarios`) of sample host names.

Three behaviours of the code that the model reproduces:

- **Enumeration** yields every address of the block, network and broadcast
  addresses included, as iterating `netaddr.IPNetwork` does
  (scanner.py:170).
- **Invalid subnet.** The handler for an invalid subnet formats its message
  with `red` and `reset`, which are undefined, so it raises `NameError`
  before it reaches `sys.exit(1)` (scanner.py:65-67). Either way the run
  stops before any probe is sent. The model returns
  `Failure(InvalidSubnet(subnet))`.
- **Host order.** The port checks append names in the order they finish,
  which depends on thread timing (scanner.py:177-178). The model takes them
  in address order. `Classification.GroupingIgnoresDiscoveryOrder` shows
  that the contents of each group depend only on the multiset of
  discovered names.

## Model

| member | source | states |
|---|---|---|
| Strings.ContainsIsOccurs | plugins/inventory/scanner.py:131-137 | The substring test used by every rule holds exactly when the keyword occurs at some position of the name |
| Strings.ContainsEmbedded | plugins/inventory/scanner.py:131-137 | A name built as prefix + keyword + suffix contains the keyword |
| Strings.MissingCharacter | plugins/inventory/scanner.py:131-137 | A name lacking one of the keyword's characters does not contain the keyword |
| OrderedDict.GetFindsKey | plugins/inventory/scanner.py:275 | A lookup (and so `pop`) finds a value exactly when the key is among the dict's keys, and the value found is paired with that key |
| OrderedDict.Put | plugins/inventory/scanner.py:123-127 | `d[k] = v` makes `k` map to `v`, leaves every other key's value alone, keeps an existing key in place and appends a new one at the end |
| OrderedDict.Pop | plugins/inventory/scanner.py:275 | `d.pop(k)` returns the value `k` had (or nothing when absent), and the dict with exactly that pair removed and the other pairs in order |
| OrderedDict.KeysAreFirsts | plugins/inventory/scanner.py:276 | Iterating the items visits the keys in the same order as the key list, one item per key |
| OrderedDict.GetAtUniqueKey | plugins/inventory/scanner.py:276 | In a dict without repeated keys, each item visited is the value stored under its key |
| Inventory.Route | plugins/inventory/scanner.py:130-138 | A name is routed to one of the four configured groups or to none |
| Inventory.RouteRules | plugins/inventory/scanner.py:131-138 | First match wins: any name with `proxmox` goes to `proxmox`; `k8s` without `proxmox` to `k8s_proxmox`; `dude`/`chief` without the earlier keywords to `k8s_pi`; a name is dropped iff `pfsense` is its only keyword; `ungrouped` iff no keyword occurs |
| Inventory.AddMetadata | plugins/inventory/scanner.py:99-108 | The result has the single key `_meta`, whose host variables equal the argument entry by entry |
| Inventory.DeclareGroups | plugins/inventory/scanner.py:125-127 | Each configured group is appended as a key with an empty `hosts` list and appended to `all`'s children in order; nothing else changes |
| Inventory.AppendHost | plugins/inventory/scanner.py:132-138 | Appending to a group's `hosts` list extends that list by one name and changes no other key |
| Inventory.RouteInto | plugins/inventory/scanner.py:131-138 | One loop turn appends the name to the `hosts` list of its routed group only, and changes nothing for a dropped name |
| Inventory.Populate | plugins/inventory/scanner.py:130-138 | The classification loop keeps the key order and every group's `hosts` list, and touches no key outside the configured groups |
| Inventory.RouteIntoExtends | plugins/inventory/scanner.py:131-138 | After one turn, each group's list is its old list followed by the name if and only if the name is routed to that group |
| Inventory.PopulateAppendsMembers | plugins/inventory/scanner.py:130-138 | After the loop, each group's list is its old list followed by the subsequence of servers routed to it, in order and with repeats |
| Inventory.MembersAppend | plugins/inventory/scanner.py:130-138 | Routing a concatenation of server lists gives the concatenation of the routed subsequences |
| Inventory.DeclaredGroupsFilled | plugins/inventory/scanner.py:125-138 | Groups that start empty end holding exactly the servers routed to them |
| Inventory.ConfiguredGroupsAreFresh | plugins/inventory/scanner.py:42 | The configured group names are pairwise distinct and differ from `_meta` and `all`, so `all` followed by the groups repeats no name |
| Inventory.Skeleton | plugins/inventory/scanner.py:120-127 | Before classification the document has keys `_meta`, `all`, then the four groups; `all` lists the four groups as children; every group is empty |
| Inventory.GenerateInventoryDict | plugins/inventory/scanner.py:110-140 | The top-level keys are exactly `_meta`, `all` and the four groups, in that order; `_meta.hostvars` is the argument whatever is discovered; `all.children` is exactly the four groups; each group holds the subsequence of servers routed to it |
| Classification.MembersCount | plugins/inventory/scanner.py:130-138 | A group holds a name as many times as the server list does if the name is routed there, else never |
| Classification.MembersContain | plugins/inventory/scanner.py:130-138 | A name is in a group's subsequence iff it is a server and is routed to that group |
| Classification.DiscardedCount | plugins/inventory/scanner.py:137-138 | The dropped names are exactly the servers that the rules route nowhere, with their repeats |
| Classification.GroupsPartitionServers | plugins/inventory/scanner.py:130-138 | The four groups and the dropped names together are a permutation of the server list |
| Classification.GroupSizesBounded | plugins/inventory/scanner.py:130-138 | The group sizes plus the number of dropped names equal the number of servers, so the groups hold at most that many |
| Classification.GroupHostsContain | plugins/inventory/scanner.py:130-138 | A document group lists a name iff the name was discovered and is routed to that group |
| Classification.DroppedNameInNoGroup | plugins/inventory/scanner.py:137-138 | A name whose only keyword is `pfsense` appears in no group |
| Classification.KeptNameListed | plugins/inventory/scanner.py:131-138 | Every other discovered name appears in some group |
| Classification.NoNameInTwoGroups | plugins/inventory/scanner.py:131-138 | No name appears in two different groups |
| Classification.ProxmoxNameOnlyInProxmox | plugins/inventory/scanner.py:131-132 | A discovered name containing `proxmox` is in `proxmox` and in none of the other groups |
| Classification.GroupingIgnoresDiscoveryOrder | plugins/inventory/scanner.py:130-138 | Two discovery orders of the same names give each group the same multiset of hosts |
| Scenarios.RouteProxmoxSample | plugins/inventory/scanner.py:131-132 | `a.proxmox.example` is routed to `proxmox` |
| Scenarios.RouteK8sSample | plugins/inventory/scanner.py:133-134 | `k8s-node1.example` is routed to `k8s_proxmox` |
| Scenarios.RouteDudeSample | plugins/inventory/scanner.py:135-136 | `dude.example` is routed to `k8s_pi` |
| Scenarios.RouteChiefSample | plugins/inventory/scanner.py:135-136 | `chief.example` is routed to `k8s_pi` |
| Scenarios.RoutePfsenseSample | plugins/inventory/scanner.py:137 | `pfsense.example` is routed nowhere |
| Scenarios.RoutePlainSample | plugins/inventory/scanner.py:137-138 | `plain.example` is routed to `ungrouped` |
| Scenarios.RouteMixedSample | plugins/inventory/scanner.py:131-134 | `k8s-proxmox-1.example` contains both `k8s` and `proxmox`, and goes to `proxmox` |
| Cidr.ValidIsNetworkAddress | plugins/inventory/scanner.py:63-64 | An IPv4 network passes validation iff its prefix is at most 32, its address is below 2^32, and the address is the lowest of its block, so no host bit is set |
| Cidr.BlockFits | plugins/inventory/scanner.py:63-64 | A valid network's block of addresses ends inside the IPv4 address space |
| Cidr.SameBlockIsRange | plugins/inventory/scanner.py:170 | Sharing the leading prefix bits with an aligned network address is the same as lying in its contiguous block |
| Cidr.Enumerate | plugins/inventory/scanner.py:170 | A valid subnet yields 2^(32 - prefix) addresses, strictly ascending, and an address is yielded iff it shares the network's leading prefix bits |
| Cidr.DefaultSubnetScansWholeBlock | plugins/inventory/scanner.py:39 | The configured subnet 10.11.0.0/24 is valid and yields 256 addresses |
| Discovery.Alive | plugins/inventory/scanner.py:69-75 | The ping sweep keeps exactly the enumerated addresses that answer an echo |
| Discovery.Named | plugins/inventory/scanner.py:77-97 | A name is collected iff some live address reports it (port 22 accepts and the reverse lookup yields a non-empty name), and it is collected once for each live address that reports it; no more names than live addresses are collected |
| Discovery.Scan | plugins/inventory/scanner.py:169-178 | A name is found iff some address of the subnet answers a ping, has SSH open and resolves to it; at most one name per address |
| Discovery.SilentSweep | plugins/inventory/scanner.py:173-174 | With no echo replies the ping sweep keeps no address |
| Discovery.QuietNetworkYieldsNothing | plugins/inventory/scanner.py:169-178 | A network where nothing answers a ping yields no host names |
| Pipeline.RunScan | plugins/inventory/scanner.py:182-190 | The run fails iff the subnet is invalid, and the error names that subnet whatever the network would answer; otherwise the document has the fixed layout, `_meta` carries the given host variables and `all` lists the four groups |
| Pipeline.GenerateInventory | plugins/inventory/scanner.py:182-191 | The configured run always succeeds and its `_meta` carries the seeded host variables |
| Pipeline.DiscoveredHostsGrouped | plugins/inventory/scanner.py:182-190 | End to end, a group lists a name iff some address of the subnet answers, has SSH open and resolves to it, and the rules route it to that group |
| Pipeline.QuietNetworkEmptyGroups | plugins/inventory/scanner.py:182-190 | On a quiet network all four groups are present and empty while `_meta` still carries the host variables |
| Pipeline.QuietDefaultRun | plugins/inventory/scanner.py:185-190 | On a quiet network the seeded host `proxmox.itluk-home.eu` has variables under `_meta` but is in no group |
| Plugin.RegisterHosts | plugins/inventory/scanner.py:280-284 | For one group's `hosts` list: each listed host is added to that group and no other; a listed host gets variables iff it has a non-empty `hostvars` entry, and they are that entry; no group is registered |
| Plugin.RegisterGroups | plugins/inventory/scanner.py:276-284 | The walk fails iff some item lists a host while `_meta` has no `hostvars`. Otherwise groups are registered in key order; a host is added to a group iff that group's item lists it; a host gets variables iff it has a non-empty `hostvars` entry and some item lists it |
| Plugin.ListsUnfold | plugins/inventory/scanner.py:276-281 | A host is listed by the walked items iff it is listed by the first item or by one of the rest |
| Plugin.StepGroups | plugins/inventory/scanner.py:276-278 | Registering the first item, then the rest, registers the groups in key order |
| Plugin.StepHosts | plugins/inventory/scanner.py:279-281 | Registering the first item, then the rest, adds exactly the hosts the items list |
| Plugin.StepVariables | plugins/inventory/scanner.py:282-284 | Registering the first item, then the rest, attaches variables exactly to listed hosts that have a non-empty `hostvars` entry |
| Plugin.Parse | plugins/inventory/scanner.py:275-284 | `parse` fails with a missing-`_meta` error iff the document has no `_meta` key. When `_meta` holds host variables it succeeds, and a host gets variables iff it has a non-empty entry there and was added to some group |
| Plugin.MetaFirst | plugins/inventory/scanner.py:275-276 | For a document laid out as the assembler lays it out, popping `_meta` removes the first pair, and the walk sees `all` and the four groups with distinct keys |
| Plugin.ListedHostRouted | plugins/inventory/scanner.py:276-281 | In an assembled document, a host listed under an item was discovered and is routed to that item's group |
| Plugin.RoutedHostListed | plugins/inventory/scanner.py:276-281 | In an assembled document, a discovered host routed to a group is listed by that group's item |
| Plugin.ListsIffRouted | plugins/inventory/scanner.py:276-281 | In an assembled document, an item lists a host under a group iff the host was discovered and is routed there |
| Plugin.ParseAssembled | plugins/inventory/scanner.py:275-284 | `parse` of an assembled document succeeds. It registers `all` and then the four groups in order, adds every routed name to its group only, and attaches variables exactly to grouped names that have a non-empty `hostvars` entry |
| Plugin.ParseGeneratedInventory | plugins/inventory/scanner.py:271-284 | The same for the document `generate_inventory_dict` produces: in particular, a non-empty `hostvars` entry for a dropped or undiscovered host is never attached |

## Left out

- Network I/O (ICMP ping, TCP connect, `socket.gethostbyaddr`) and its timeouts are not modelled. Their outcomes are the `Probes` parameter, and an address missing from its reverse-DNS map stands for a lookup that raises `socket.herror`.
- Other socket errors are represented by the same `Probes` outcomes. Examples are a `gaierror` from `gethostbyaddr`, an `OSError` from `connect_ex`, or an exception in `ping`. `executor.map` (scanner.py:174, 178) stores such an exception in its future and never reads it, so the run goes on and that address yields no name. The model covers this by leaving the address out of `echoes` or `reverseDns`. The only effect not modelled is that `port_check` then skips `sock.close()`.
- The `ThreadPoolExecutor` fan-out is not modelled, nor the completion order of the port checks. The model discovers names in address order, and `Classification.GroupingIgnoresDiscoveryOrder` covers the grouping's independence from that order.
- IPv6 networks are not modelled. `ipaddress.ip_network` accepts them too, but the subnet here is always IPv4.
- The parsing of the CIDR string by `ipaddress`/`netaddr` is not modelled. The subnet is given as network address and prefix length. Texts that fail to parse are represented by an out-of-range prefix or a non-aligned address.
- The diagnostic print and `sys.exit(1)` on an invalid subnet (which in the code raise `NameError` first) are not modelled. The model returns a failure value naming the subnet.
- The `alive` and `ssh_open` lists are instance state, so a second `generate_inventory` on the same plugin object would see the first run's hosts again. The model starts every run from empty lists.
- Plugin registration with Ansible (`verify_file`, the base-class `parse` call) is not modelled, and neither is the `print(group_name)` in `parse`.
- `_get_raw_host_data`, `my_data` and the docstring after `return` in `generate_inventory_dict` are not modelled: none of them is reached.
- Plugin.Parse: `set_variable` is called once per variable. The model gathers one host's calls into one `SetVariables` registration carrying the whole map, so the order of those calls is not modelled. A host whose map is empty gets no registration, as it gets no call.
- Plugin.Parse: the model returns a failure instead of the partial registrations made before `pop('_meta')` or `_meta['hostvars']` raises. In the code the exception ends `parse`, and those registrations are left in Ansible's inventory object.
