/** The inventory assembler of `InventoryModule`: the `_meta.hostvars`
    block, the root `all` group with the configured groups as children, one
    `hosts` list per configured group, and the first-match-wins substring
    classifier that fills those lists. */
module Inventory {
  import opened Wrappers
  import opened Strings
  import opened OrderedDict

  /** Host name -> variable name -> value. */
  type HostVars = map<string, map<string, string>>

  /** The three shapes of value the assembler stores under a top-level key:
      `{'hostvars': ...}`, `{'children': [...]}` and `{'hosts': [...]}`. */
  datatype Entry =
    | Meta(hostvars: HostVars)
    | Parent(children: seq<string>)
    | Leaf(hosts: seq<string>)

  /** The inventory document, in the key order the dict was built in. */
  type Document = Dict<string, Entry>

  const MetaKey: string := "_meta"
  const AllKey: string := "all"

  /** The groups configured in the plugin's constructor, in order. */
  const InventoryGroups: seq<string> := ["ungrouped", "k8s_proxmox", "k8s_pi", "proxmox"]

  /** A name the classifier drops: it mentions "pfsense" and none of the
      keywords of an earlier rule. */
  ghost predicate Dropped(server: string) {
    && Occurs(server, "pfsense")
    && !Occurs(server, "proxmox")
    && !Occurs(server, "k8s")
    && !Occurs(server, "dude")
    && !Occurs(server, "chief")
  }

  /** The group a discovered name is appended to, or `None` when it is
      appended nowhere: the rules are tried in order and the first that
      matches wins. */
  function Route(server: string): (g: Option<string>)
    ensures g.Some? ==> g.value in InventoryGroups
  {
    if Contains(server, "proxmox") then Some("proxmox")
    else if Contains(server, "k8s") then Some("k8s_proxmox")
    else if Contains(server, "dude") || Contains(server, "chief") then Some("k8s_pi")
    else if !Contains(server, "pfsense") then Some("ungrouped")
    else None
  }

  /** The classifier in terms of Python's substring test: "proxmox" beats
      every other keyword, "k8s" beats all but "proxmox", a name is dropped
      exactly when "pfsense" is its only keyword, and a name mentioning no
      keyword at all is ungrouped. */
  lemma RouteRules(server: string)
    ensures Route(server).None? <==> Dropped(server)
    ensures Occurs(server, "proxmox") ==> Route(server) == Some("proxmox")
    ensures Occurs(server, "k8s") && !Occurs(server, "proxmox") ==> Route(server) == Some("k8s_proxmox")
    ensures ((Occurs(server, "dude") || Occurs(server, "chief")) && !Occurs(server, "proxmox") && !Occurs(server, "k8s"))
              ==> Route(server) == Some("k8s_pi")
    ensures Route(server) == Some("ungrouped") <==>
              !Occurs(server, "proxmox") && !Occurs(server, "k8s") && !Occurs(server, "dude")
              && !Occurs(server, "chief") && !Occurs(server, "pfsense")
  {
    ContainsIsOccurs(server, "proxmox");
    ContainsIsOccurs(server, "k8s");
    ContainsIsOccurs(server, "dude");
    ContainsIsOccurs(server, "chief");
    ContainsIsOccurs(server, "pfsense");
  }

  /** The subsequence of `servers` that the classifier sends to group `g`. */
  function Members(servers: seq<string>, g: string): seq<string> {
    if servers == [] then []
    else (if Route(servers[0]) == Some(g) then [servers[0]] else []) + Members(servers[1..], g)
  }

  /** The subsequence of `servers` that the classifier drops. */
  function Discarded(servers: seq<string>): seq<string> {
    if servers == [] then []
    else (if Route(servers[0]).None? then [servers[0]] else []) + Discarded(servers[1..])
  }

  /** The `hosts` list stored under key `g`, or `[]` when there is none. */
  function HostsOf(doc: Document, g: string): seq<string> {
    var entry := Get(doc, g);
    if entry.Some? && entry.value.Leaf? then entry.value.hosts else []
  }

  /** Key `g` holds a `hosts` list. */
  predicate HasHosts(doc: Document, g: string) {
    Get(doc, g).Some? && Get(doc, g).value.Leaf?
  }

  /** Every configured group has a `hosts` list in `doc`. */
  predicate GroupsDeclared(doc: Document) {
    forall i :: 0 <= i < |InventoryGroups| ==> HasHosts(doc, InventoryGroups[i])
  }

  /** `add_metadata`: a fresh dict holding only `_meta`, whose `hostvars`
      is an entry-by-entry copy of the argument. */
  function AddMetadata(hostvars: HostVars): (doc: Document)
    ensures Keys(doc) == [MetaKey]
    ensures Get(doc, MetaKey) == Some(Meta(hostvars))
  {
    var copy := map server | server in hostvars ::
      map key | key in hostvars[server] :: hostvars[server][key];
    assert forall server | server in hostvars :: copy[server] == hostvars[server];
    assert copy == hostvars;
    [(MetaKey, Meta(copy))]
  }

  /** The loop over the configured groups: each gets an empty `hosts`
      list and is appended to the children of `all`. */
  function DeclareGroups(doc: Document, groups: seq<string>): (r: Document)
    requires Get(doc, AllKey).Some? && Get(doc, AllKey).value.Parent?
    requires forall i :: 0 <= i < |groups| ==> groups[i] !in Keys(doc)
    requires forall i, j :: 0 <= i < j < |groups| ==> groups[i] != groups[j]
    ensures Keys(r) == Keys(doc) + groups
    ensures Get(r, AllKey) == Some(Parent(Get(doc, AllKey).value.children + groups))
    ensures forall i :: 0 <= i < |groups| ==> Get(r, groups[i]) == Some(Leaf([]))
    ensures forall k :: k !in groups && k != AllKey ==> Get(r, k) == Get(doc, k)
    decreases |groups|
  {
    if groups == [] then
      assert Get(doc, AllKey).value.children + groups == Get(doc, AllKey).value.children;
      doc
    else
      var g := groups[0];
      var children := Get(doc, AllKey).value.children;
      var withGroup := Put(doc, g, Leaf([]));
      GetFindsKey(doc, AllKey);
      var next := Put(withGroup, AllKey, Parent(children + [g]));
      assert Keys(next) == Keys(doc) + [g];
      assert forall i :: 0 <= i < |groups[1..]| ==> groups[1..][i] == groups[i + 1];
      var r := DeclareGroups(next, groups[1..]);
      AppendHeadTail(Keys(doc), groups);
      AppendHeadTail(children, groups);
      r
  }

  lemma AppendHeadTail<T>(prefix: seq<T>, xs: seq<T>)
    requires xs != []
    ensures prefix + [xs[0]] + xs[1..] == prefix + xs
  {
    assert [xs[0]] + xs[1..] == xs;
  }

  /** `inventory_dict[g]['hosts'].append(server)`. */
  function AppendHost(doc: Document, g: string, server: string): (r: Document)
    requires HasHosts(doc, g)
    ensures Keys(r) == Keys(doc)
    ensures HasHosts(r, g) && HostsOf(r, g) == HostsOf(doc, g) + [server]
    ensures forall k :: k != g ==> Get(r, k) == Get(doc, k)
  {
    GetFindsKey(doc, g);
    Put(doc, g, Leaf(Get(doc, g).value.hosts + [server]))
  }

  /** One turn of the classification loop: `server` is appended to the
      `hosts` list of the group it is routed to, if any. */
  function RouteInto(doc: Document, server: string): (r: Document)
    requires GroupsDeclared(doc)
    ensures Keys(r) == Keys(doc)
    ensures GroupsDeclared(r)
    ensures Route(server).None? ==> r == doc
    ensures Route(server).Some? ==>
              && HostsOf(r, Route(server).value) == HostsOf(doc, Route(server).value) + [server]
              && forall k :: k != Route(server).value ==> Get(r, k) == Get(doc, k)
  {
    var target := Route(server);
    if target.None? then doc
    else
      assert HasHosts(doc, target.value);
      AppendHost(doc, target.value, server)
  }

  /** The classification loop: every server, in order, is appended to the
      `hosts` list of the group it is routed to; keys other than the
      configured groups are left alone. */
  function Populate(doc: Document, servers: seq<string>): (r: Document)
    requires GroupsDeclared(doc)
    ensures Keys(r) == Keys(doc)
    ensures GroupsDeclared(r)
    ensures forall k :: k !in InventoryGroups ==> Get(r, k) == Get(doc, k)
    decreases |servers|
  {
    if servers == [] then doc
    else Populate(RouteInto(doc, servers[0]), servers[1..])
  }

  /** One turn of the loop extends exactly the `hosts` list of the group
      the server is routed to. */
  lemma RouteIntoExtends(doc: Document, server: string, g: string)
    requires GroupsDeclared(doc)
    ensures HostsOf(RouteInto(doc, server), g) == HostsOf(doc, g) + Members([server], g)
  {
    var target := Route(server);
    if target.Some? && target.value != g {
      assert Get(RouteInto(doc, server), g) == Get(doc, g);
    }
  }

  /** After the classification loop, each `hosts` list is what it was,
      followed by the servers routed to that group, in input order. */
  lemma {:induction false} PopulateAppendsMembers(doc: Document, servers: seq<string>, g: string)
    requires GroupsDeclared(doc)
    ensures HostsOf(Populate(doc, servers), g) == HostsOf(doc, g) + Members(servers, g)
    decreases |servers|
  {
    if servers == [] {
      assert HostsOf(doc, g) + Members(servers, g) == HostsOf(doc, g);
    } else {
      var next := RouteInto(doc, servers[0]);
      calc {
        HostsOf(Populate(doc, servers), g);
        HostsOf(Populate(next, servers[1..]), g);
        { PopulateAppendsMembers(next, servers[1..], g); }
        HostsOf(next, g) + Members(servers[1..], g);
        { RouteIntoExtends(doc, servers[0], g); }
        HostsOf(doc, g) + Members([servers[0]], g) + Members(servers[1..], g);
        { MembersAppend([servers[0]], servers[1..], g);
          assert [servers[0]] + servers[1..] == servers; }
        HostsOf(doc, g) + Members(servers, g);
      }
    }
  }

  /** Classification distributes over concatenation: the members of a
      group keep the relative order of the input. */
  lemma {:induction false} MembersAppend(a: seq<string>, b: seq<string>, g: string)
    ensures Members(a + b, g) == Members(a, g) + Members(b, g)
    decreases |a|
  {
    if a == [] {
      assert a + b == b;
    } else {
      MembersAppend(a[1..], b, g);
      assert (a + b)[1..] == a[1..] + b;
    }
  }

  /** Groups declared with empty `hosts` lists end up holding exactly
      their members. */
  lemma DeclaredGroupsFilled(declared: Document, servers: seq<string>)
    requires GroupsDeclared(declared)
    requires forall i :: 0 <= i < |InventoryGroups| ==> Get(declared, InventoryGroups[i]) == Some(Leaf([]))
    ensures forall i :: 0 <= i < |InventoryGroups| ==>
              Get(Populate(declared, servers), InventoryGroups[i]) == Some(Leaf(Members(servers, InventoryGroups[i])))
  {
    forall i | 0 <= i < |InventoryGroups|
      ensures Get(Populate(declared, servers), InventoryGroups[i]) == Some(Leaf(Members(servers, InventoryGroups[i])))
    {
      var g := InventoryGroups[i];
      PopulateAppendsMembers(declared, servers, g);
      assert HasHosts(Populate(declared, servers), g);
      assert [] + Members(servers, g) == Members(servers, g);
    }
  }

  /** The configured group names are distinct and differ from the two
      fixed keys, so `all` followed by the groups repeats no name. */
  lemma ConfiguredGroupsAreFresh()
    ensures forall i :: 0 <= i < |InventoryGroups| ==> InventoryGroups[i] !in [MetaKey, AllKey]
    ensures forall i, j :: 0 <= i < j < |InventoryGroups| ==> InventoryGroups[i] != InventoryGroups[j]
    ensures MetaKey !in InventoryGroups && AllKey !in InventoryGroups && MetaKey != AllKey
    ensures forall i, j :: 0 <= i < j < |[AllKey] + InventoryGroups| ==>
              ([AllKey] + InventoryGroups)[i] != ([AllKey] + InventoryGroups)[j]
  {
    assert |InventoryGroups[0]| == 9 && |InventoryGroups[1]| == 11;
    assert |InventoryGroups[2]| == 6 && |InventoryGroups[3]| == 7;
  }

  /** The document before classification: `_meta`, then `all` with every
      configured group as a child, then an empty `hosts` list per group. */
  function Skeleton(hostvars: HostVars): (doc: Document)
    ensures Keys(doc) == [MetaKey, AllKey] + InventoryGroups
    ensures Get(doc, MetaKey) == Some(Meta(hostvars))
    ensures Get(doc, AllKey) == Some(Parent(InventoryGroups))
    ensures forall i :: 0 <= i < |InventoryGroups| ==> Get(doc, InventoryGroups[i]) == Some(Leaf([]))
  {
    var withMeta := AddMetadata(hostvars);
    var withAll := Put(withMeta, AllKey, Parent([]));
    assert Keys(withAll) == [MetaKey, AllKey];
    ConfiguredGroupsAreFresh();
    assert [] + InventoryGroups == InventoryGroups;
    DeclareGroups(withAll, InventoryGroups)
  }

  /** `generate_inventory_dict`: the document for the discovered `servers`
      and the host variables `hostvars`. */
  function GenerateInventoryDict(servers: seq<string>, hostvars: HostVars): (doc: Document)
    ensures Keys(doc) == [MetaKey, AllKey] + InventoryGroups
    ensures Get(doc, MetaKey) == Some(Meta(hostvars))
    ensures Get(doc, AllKey) == Some(Parent(InventoryGroups))
    ensures forall i :: 0 <= i < |InventoryGroups| ==>
              Get(doc, InventoryGroups[i]) == Some(Leaf(Members(servers, InventoryGroups[i])))
  {
    var skeleton := Skeleton(hostvars);
    assert AllKey !in InventoryGroups && MetaKey !in InventoryGroups;
    DeclaredGroupsFilled(skeleton, servers);
    Populate(skeleton, servers)
  }
}
