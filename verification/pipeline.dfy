/** `generate_inventory`: validate the configured subnet, scan it, and
    assemble the document from the names found and the seeded host
    variables. An invalid subnet stops the run before any probe is sent. */
module Pipeline {
  import opened Wrappers
  import opened OrderedDict
  import opened Inventory
  import opened Classification
  import opened Cidr
  import opened Discovery

  /** Why a run produced no document. */
  datatype ScanError = InvalidSubnet(subnet: Subnet)

  /** The host variables `generate_inventory` passes to the assembler. */
  const SeededHostvars: HostVars := map["proxmox.itluk-home.eu" := map["remote_user" := "opsadm"]]

  /** One run for a given subnet, network and host variables. */
  function RunScan(subnet: Subnet, probes: Probes, hostvars: HostVars): (r: Result<Document, ScanError>)
    ensures r.Failure? <==> !Valid(subnet)
    ensures r.Failure? ==> r.error == InvalidSubnet(subnet)
    ensures r.Success? ==> Keys(r.value) == [MetaKey, AllKey] + InventoryGroups
    ensures r.Success? ==> Get(r.value, MetaKey) == Some(Meta(hostvars))
    ensures r.Success? ==> Get(r.value, AllKey) == Some(Parent(InventoryGroups))
  {
    if !Valid(subnet) then Failure(InvalidSubnet(subnet))
    else Success(GenerateInventoryDict(Scan(subnet, probes), hostvars))
  }

  /** `generate_inventory` as configured: the default subnet always passes
      validation, and the document carries the seeded host variables
      whatever the network answers. */
  function GenerateInventory(probes: Probes): (r: Result<Document, ScanError>)
    ensures r.Success?
    ensures Get(r.value, MetaKey) == Some(Meta(SeededHostvars))
  {
    DefaultSubnetScansWholeBlock();
    RunScan(DefaultSubnet, probes, SeededHostvars)
  }

  /** End to end: a name is in a configured group exactly when some address
      of the subnet answers, has SSH open and resolves to it, and the
      classifier sends it to that group. */
  lemma DiscoveredHostsGrouped(subnet: Subnet, probes: Probes, hostvars: HostVars, i: nat, h: string)
    requires Valid(subnet) && i < |InventoryGroups|
    ensures (h in HostsOf(RunScan(subnet, probes, hostvars).value, InventoryGroups[i])) <==>
            (Discovered(h, subnet, probes) && Route(h) == Some(InventoryGroups[i]))
  {
    GroupHostsContain(Scan(subnet, probes), hostvars, i, h);
  }

  /** On a quiet network every configured group is empty, while `_meta`
      still carries the host variables: a host named there is not placed in
      any group. */
  lemma QuietNetworkEmptyGroups(subnet: Subnet, probes: Probes, hostvars: HostVars)
    requires Valid(subnet) && probes.echoes == {}
    ensures forall i :: 0 <= i < |InventoryGroups| ==>
              HostsOf(RunScan(subnet, probes, hostvars).value, InventoryGroups[i]) == []
    ensures Get(RunScan(subnet, probes, hostvars).value, MetaKey) == Some(Meta(hostvars))
  {
    QuietNetworkYieldsNothing(subnet, probes);
  }

  /** The configured run on a quiet network: every group is empty, yet the
      seeded host keeps its variables under `_meta`. */
  lemma QuietDefaultRun(probes: Probes)
    requires probes.echoes == {}
    ensures forall i :: 0 <= i < |InventoryGroups| ==>
              "proxmox.itluk-home.eu" !in HostsOf(GenerateInventory(probes).value, InventoryGroups[i])
    ensures Get(GenerateInventory(probes).value, MetaKey) == Some(Meta(SeededHostvars))
    ensures "proxmox.itluk-home.eu" in SeededHostvars
  {
    DefaultSubnetScansWholeBlock();
    QuietNetworkEmptyGroups(DefaultSubnet, probes, SeededHostvars);
  }
}
