/** What the assembled document promises about its groups: each group's
    `hosts` list is the ordered, duplicate-keeping subsequence of the
    discovered names routed to it, the groups and the dropped names
    partition the input, and the grouping does not depend on the order in
    which the scan reported the names. */
module Classification {
  import opened Wrappers
  import opened Strings
  import opened OrderedDict
  import opened Inventory

  /** Duplicates are kept: a name occurs in a group as often as in the
      input when it is routed there, and not at all otherwise. */
  lemma {:induction false} MembersCount(servers: seq<string>, g: string, x: string)
    ensures multiset(Members(servers, g))[x] == if Route(x) == Some(g) then multiset(servers)[x] else 0
    decreases |servers|
  {
    if servers != [] {
      MembersCount(servers[1..], g, x);
      assert servers == [servers[0]] + servers[1..];
      assert multiset(servers) == multiset([servers[0]]) + multiset(servers[1..]);
    }
  }

  /** A name is in a group exactly when it was discovered and routed there. */
  lemma MembersContain(servers: seq<string>, g: string, x: string)
    ensures x in Members(servers, g) <==> x in servers && Route(x) == Some(g)
  {
    MembersCount(servers, g, x);
  }

  /** A dropped name is kept in `Discarded` as often as it was
      discovered. */
  lemma {:induction false} DiscardedCount(servers: seq<string>, x: string)
    ensures multiset(Discarded(servers))[x] == if Route(x).None? then multiset(servers)[x] else 0
    decreases |servers|
  {
    if servers != [] {
      DiscardedCount(servers[1..], x);
      assert servers == [servers[0]] + servers[1..];
      assert multiset(servers) == multiset([servers[0]]) + multiset(servers[1..]);
    }
  }

  /** The four groups and the dropped names split the input: every
      discovered name, with its multiplicity, is in exactly one of them. */
  lemma GroupsPartitionServers(servers: seq<string>)
    ensures multiset(servers) ==
              multiset(Members(servers, "ungrouped")) + multiset(Members(servers, "k8s_proxmox"))
              + multiset(Members(servers, "k8s_pi")) + multiset(Members(servers, "proxmox"))
              + multiset(Discarded(servers))
  {
    ConfiguredGroupsAreFresh();
    forall x
      ensures multiset(servers)[x] ==
                multiset(Members(servers, "ungrouped"))[x] + multiset(Members(servers, "k8s_proxmox"))[x]
                + multiset(Members(servers, "k8s_pi"))[x] + multiset(Members(servers, "proxmox"))[x]
                + multiset(Discarded(servers))[x]
    {
      MembersCount(servers, "ungrouped", x);
      MembersCount(servers, "k8s_proxmox", x);
      MembersCount(servers, "k8s_pi", x);
      MembersCount(servers, "proxmox", x);
      DiscardedCount(servers, x);
      var r := Route(x);
      if r.Some? {
        assert r.value == InventoryGroups[0] || r.value == InventoryGroups[1]
            || r.value == InventoryGroups[2] || r.value == InventoryGroups[3];
      }
    }
  }

  /** The group lists together with the dropped names hold exactly as many
      entries as were discovered; in particular the groups hold at most
      that many. */
  lemma GroupSizesBounded(servers: seq<string>, hostvars: HostVars)
    ensures |HostsOf(GenerateInventoryDict(servers, hostvars), "ungrouped")|
            + |HostsOf(GenerateInventoryDict(servers, hostvars), "k8s_proxmox")|
            + |HostsOf(GenerateInventoryDict(servers, hostvars), "k8s_pi")|
            + |HostsOf(GenerateInventoryDict(servers, hostvars), "proxmox")|
            + |Discarded(servers)| == |servers|
  {
    var doc := GenerateInventoryDict(servers, hostvars);
    assert HostsOf(doc, InventoryGroups[0]) == Members(servers, InventoryGroups[0]);
    assert HostsOf(doc, InventoryGroups[1]) == Members(servers, InventoryGroups[1]);
    assert HostsOf(doc, InventoryGroups[2]) == Members(servers, InventoryGroups[2]);
    assert HostsOf(doc, InventoryGroups[3]) == Members(servers, InventoryGroups[3]);
    GroupsPartitionServers(servers);
    assert |multiset(servers)| == |servers|;
  }

  /** The document's group `InventoryGroups[i]` lists a name exactly when
      it was discovered and the rules route it there. */
  lemma GroupHostsContain(servers: seq<string>, hostvars: HostVars, i: nat, h: string)
    requires i < |InventoryGroups|
    ensures (h in HostsOf(GenerateInventoryDict(servers, hostvars), InventoryGroups[i]))
              <==> (h in servers && Route(h) == Some(InventoryGroups[i]))
  {
    MembersContain(servers, InventoryGroups[i], h);
  }

  /** A name whose only keyword is "pfsense" appears in no group. */
  lemma DroppedNameInNoGroup(servers: seq<string>, hostvars: HostVars, h: string)
    requires Dropped(h)
    ensures forall i :: 0 <= i < |InventoryGroups| ==>
              h !in HostsOf(GenerateInventoryDict(servers, hostvars), InventoryGroups[i])
  {
    RouteRules(h);
    forall i | 0 <= i < |InventoryGroups|
      ensures h !in HostsOf(GenerateInventoryDict(servers, hostvars), InventoryGroups[i])
    {
      GroupHostsContain(servers, hostvars, i, h);
    }
  }

  /** Every other discovered name appears in some group ... */
  lemma KeptNameListed(servers: seq<string>, hostvars: HostVars, h: string)
    requires h in servers && !Dropped(h)
    ensures exists i :: 0 <= i < |InventoryGroups|
              && h in HostsOf(GenerateInventoryDict(servers, hostvars), InventoryGroups[i])
  {
    RouteRules(h);
    var k: nat :| k < |InventoryGroups| && InventoryGroups[k] == Route(h).value;
    GroupHostsContain(servers, hostvars, k, h);
  }

  /** ... and no name appears in two different groups. */
  lemma NoNameInTwoGroups(servers: seq<string>, hostvars: HostVars, h: string, i: nat, j: nat)
    requires i < |InventoryGroups| && j < |InventoryGroups|
    ensures h in HostsOf(GenerateInventoryDict(servers, hostvars), InventoryGroups[i])
            && h in HostsOf(GenerateInventoryDict(servers, hostvars), InventoryGroups[j])
            ==> i == j
  {
    ConfiguredGroupsAreFresh();
    GroupHostsContain(servers, hostvars, i, h);
    GroupHostsContain(servers, hostvars, j, h);
  }

  /** A name mentioning "proxmox" is listed under `proxmox` and nowhere
      else, whatever other keywords it carries. */
  lemma ProxmoxNameOnlyInProxmox(servers: seq<string>, hostvars: HostVars, h: string)
    requires h in servers && Occurs(h, "proxmox")
    ensures h in HostsOf(GenerateInventoryDict(servers, hostvars), "proxmox")
    ensures h !in HostsOf(GenerateInventoryDict(servers, hostvars), "ungrouped")
    ensures h !in HostsOf(GenerateInventoryDict(servers, hostvars), "k8s_proxmox")
    ensures h !in HostsOf(GenerateInventoryDict(servers, hostvars), "k8s_pi")
  {
    RouteRules(h);
    GroupHostsContain(servers, hostvars, 0, h);
    GroupHostsContain(servers, hostvars, 1, h);
    GroupHostsContain(servers, hostvars, 2, h);
    GroupHostsContain(servers, hostvars, 3, h);
  }

  /** The order in which the scan reported the names changes at most the
      order inside each group, never which names (or how many copies) a
      group holds. */
  lemma GroupingIgnoresDiscoveryOrder(s1: seq<string>, s2: seq<string>, hostvars: HostVars, i: nat)
    requires multiset(s1) == multiset(s2) && i < |InventoryGroups|
    ensures multiset(HostsOf(GenerateInventoryDict(s1, hostvars), InventoryGroups[i]))
            == multiset(HostsOf(GenerateInventoryDict(s2, hostvars), InventoryGroups[i]))
  {
    var g := InventoryGroups[i];
    forall x
      ensures multiset(Members(s1, g))[x] == multiset(Members(s2, g))[x]
    {
      MembersCount(s1, g, x);
      MembersCount(s2, g, x);
    }
    assert multiset(Members(s1, g)) == multiset(Members(s2, g));
  }
}
