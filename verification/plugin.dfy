/** `InventoryModule.parse`: take `_meta` out of the generated document,
    then walk the remaining top-level keys in order, registering each as a
    group, each listed host as a member of it, and each such host's entry
    of `_meta.hostvars` as its variables. Ansible's inventory object is
    modelled by the sequence of calls made on it. */
module Plugin {
  import opened Wrappers
  import opened OrderedDict
  import opened Inventory
  import opened Classification

  /** A call on Ansible's inventory object. `parse` sets a host's
      variables with one `set_variable` call per pair; those calls are
      gathered into one registration that carries the host's whole map,
      so the order of the pairs is not modelled. A host whose map is empty
      gets no call, and so no registration. */
  datatype Registration =
    | AddGroup(group: string)
    | AddHost(host: string, group: string)
    | SetVariables(host: string, vars: map<string, string>)

  /** Why `parse` stops: `pop('_meta')` finds no such key, or `_meta` has
      no `hostvars` when the first host is looked up in it. */
  datatype ParseError = MissingMeta | MalformedMeta

  /** The groups registered, in registration order. */
  function AddedGroups(regs: seq<Registration>): seq<string> {
    if regs == [] then []
    else (if regs[0].AddGroup? then [regs[0].group] else []) + AddedGroups(regs[1..])
  }

  lemma {:induction false} AddedGroupsAppend(a: seq<Registration>, b: seq<Registration>)
    ensures AddedGroups(a + b) == AddedGroups(a) + AddedGroups(b)
  {
    if a == [] {
      assert a + b == b;
    } else {
      assert (a + b)[0] == a[0];
      assert (a + b)[1..] == a[1..] + b;
      AddedGroupsAppend(a[1..], b);
    }
  }

  /** The registrations for the `hosts` list of one group. */
  function RegisterHosts(group: string, hosts: seq<string>, hostvars: HostVars): (regs: seq<Registration>)
    ensures forall h, g :: AddHost(h, g) in regs <==> g == group && h in hosts
    ensures forall h, v :: SetVariables(h, v) in regs <==>
              h in hosts && h in hostvars && v == hostvars[h] && v != map[]
    ensures AddedGroups(regs) == []
  {
    if hosts == [] then []
    else
      var h := hosts[0];
      var vars := if h in hostvars && hostvars[h] != map[] then [SetVariables(h, hostvars[h])] else [];
      var own := [AddHost(h, group)] + vars;
      var rest := RegisterHosts(group, hosts[1..], hostvars);
      assert AddedGroups(vars) == [] by {
        if vars != [] {
          assert AddedGroups(vars) == [] + AddedGroups(vars[1..]);
        }
      }
      assert AddedGroups(own) == [] by {
        assert AddedGroups(own) == [] + AddedGroups(own[1..]) && own[1..] == vars;
      }
      AddedGroupsAppend(own, rest);
      assert forall x :: x in hosts <==> x == h || x in hosts[1..];
      own + rest
  }

  /** Some item of `items` named `g` lists host `h`. */
  ghost predicate Lists(items: Document, g: string, h: string) {
    exists i :: 0 <= i < |items| && items[i].0 == g && items[i].1.Leaf? && h in items[i].1.hosts
  }

  /** Some item of `items` lists at least one host. */
  ghost predicate ListsAnyHost(items: Document) {
    exists i :: 0 <= i < |items| && items[i].1.Leaf? && items[i].1.hosts != []
  }

  /** The host variables found under `_meta`, or none when it has no
      `hostvars`. */
  function HostvarsOf(meta: Entry): HostVars {
    if meta.Meta? then meta.hostvars else map[]
  }

  /** The walk over the top-level items left after `_meta` is popped. */
  function RegisterGroups(items: Document, meta: Entry): (r: Result<seq<Registration>, ParseError>)
    ensures r.Failure? <==> !meta.Meta? && ListsAnyHost(items)
    ensures r.Failure? ==> r.error == MalformedMeta
    ensures r.Success? ==> AddedGroups(r.value) == Keys(items)
    ensures r.Success? ==> forall h, g :: AddHost(h, g) in r.value <==> Lists(items, g, h)
    ensures r.Success? ==> forall h, v :: SetVariables(h, v) in r.value <==>
              (h in HostvarsOf(meta) && v == HostvarsOf(meta)[h] && v != map[] && exists g :: Lists(items, g, h))
  {
    if items == [] then Success([])
    else
      var (name, data) := items[0];
      var hosts := if data.Leaf? then data.hosts else [];
      if hosts != [] && !meta.Meta? then
        Failure(MalformedMeta)
      else
        var rest := RegisterGroups(items[1..], meta);
        if rest.Failure? then
          ListsUnfold(items);
          rest
        else
          ListsUnfold(items);
          StepGroups(items, meta, rest.value);
          StepHosts(items, meta, rest.value);
          StepVariables(items, meta, rest.value);
          Success(RegisterItem(items[0], meta) + rest.value)
  }

  /** An item lists a host of the whole walk exactly when it is the first
      item or an item of the rest. */
  lemma ListsUnfold(items: Document)
    requires items != []
    ensures forall h, g :: Lists(items, g, h) <==>
              (g == items[0].0 && items[0].1.Leaf? && h in items[0].1.hosts) || Lists(items[1..], g, h)
    ensures ListsAnyHost(items) <==> (items[0].1.Leaf? && items[0].1.hosts != []) || ListsAnyHost(items[1..])
  {
    forall h, g
      ensures Lists(items, g, h) <==>
              (g == items[0].0 && items[0].1.Leaf? && h in items[0].1.hosts) || Lists(items[1..], g, h)
    {
      if Lists(items, g, h) {
        var i :| 0 <= i < |items| && items[i].0 == g && items[i].1.Leaf? && h in items[i].1.hosts;
        if i > 0 {
          assert items[1..][i - 1] == items[i];
        }
      }
      if Lists(items[1..], g, h) {
        var i :| 0 <= i < |items[1..]| && items[1..][i].0 == g && items[1..][i].1.Leaf? && h in items[1..][i].1.hosts;
        assert items[i + 1] == items[1..][i];
      }
    }
    if ListsAnyHost(items) {
      var i :| 0 <= i < |items| && items[i].1.Leaf? && items[i].1.hosts != [];
      if i > 0 {
        assert items[1..][i - 1] == items[i];
      }
    }
    if ListsAnyHost(items[1..]) {
      var i :| 0 <= i < |items[1..]| && items[1..][i].1.Leaf? && items[1..][i].1.hosts != [];
      assert items[i + 1] == items[1..][i];
    }
  }

  /** The registrations for the first item of the walk. */
  function RegisterItem(item: (string, Entry), meta: Entry): seq<Registration> {
    [AddGroup(item.0)] + RegisterHosts(item.0, if item.1.Leaf? then item.1.hosts else [], HostvarsOf(meta))
  }

  /** One step of the walk: the groups registered for the first item and
      then the rest are the keys in order. */
  lemma StepGroups(items: Document, meta: Entry, rest: seq<Registration>)
    requires items != []
    requires AddedGroups(rest) == Keys(items[1..])
    ensures AddedGroups(RegisterItem(items[0], meta) + rest) == Keys(items)
  {
    var own := RegisterItem(items[0], meta);
    assert AddedGroups(own) == [items[0].0] by {
      assert own[0] == AddGroup(items[0].0);
      assert AddedGroups(own[1..]) == [];
    }
    AddedGroupsAppend(own, rest);
    assert Keys(items) == [items[0].0] + Keys(items[1..]);
  }

  /** One step of the walk: a host is added to a group exactly when the
      first item or one of the rest lists it under that group. */
  lemma StepHosts(items: Document, meta: Entry, rest: seq<Registration>)
    requires items != []
    requires forall h, g :: AddHost(h, g) in rest <==> Lists(items[1..], g, h)
    ensures forall h, g :: AddHost(h, g) in RegisterItem(items[0], meta) + rest <==> Lists(items, g, h)
  {
    ListsUnfold(items);
    var own := RegisterItem(items[0], meta);
    assert forall h, g :: AddHost(h, g) in own + rest <==> AddHost(h, g) in own[1..] || AddHost(h, g) in rest by {
      assert forall r :: r in own + rest <==> r == own[0] || r in own[1..] || r in rest;
    }
  }

  /** One step of the walk: a host gets variables exactly when it has an
      entry in `_meta.hostvars` and some item lists it. */
  lemma StepVariables(items: Document, meta: Entry, rest: seq<Registration>)
    requires items != []
    requires forall h, v :: SetVariables(h, v) in rest <==>
               (h in HostvarsOf(meta) && v == HostvarsOf(meta)[h] && v != map[] && exists g :: Lists(items[1..], g, h))
    ensures forall h, v :: SetVariables(h, v) in RegisterItem(items[0], meta) + rest <==>
              (h in HostvarsOf(meta) && v == HostvarsOf(meta)[h] && v != map[] && exists g :: Lists(items, g, h))
  {
    ListsUnfold(items);
    var own := RegisterItem(items[0], meta);
    assert forall r :: r in own + rest <==> r == own[0] || r in own[1..] || r in rest;
    forall h
      ensures (exists g :: Lists(items, g, h)) <==>
              (items[0].1.Leaf? && h in items[0].1.hosts) || exists g :: Lists(items[1..], g, h)
    {
      if items[0].1.Leaf? && h in items[0].1.hosts {
        assert Lists(items, items[0].0, h);
      }
    }
  }

  /** `parse` on a generated document. */
  function Parse(doc: Document): (r: Result<seq<Registration>, ParseError>)
    ensures r == Failure(MissingMeta) <==> MetaKey !in Keys(doc)
    ensures Get(doc, MetaKey).Some? && Get(doc, MetaKey).value.Meta? ==> r.Success?
    ensures r.Success? ==> Get(doc, MetaKey).Some? && forall h, v :: SetVariables(h, v) in r.value <==>
              (h in HostvarsOf(Get(doc, MetaKey).value) && v == HostvarsOf(Get(doc, MetaKey).value)[h]
               && v != map[] && exists g :: AddHost(h, g) in r.value)
  {
    GetFindsKey(doc, MetaKey);
    var (meta, rest) := Pop(doc, MetaKey);
    if meta.None? then Failure(MissingMeta)
    else RegisterGroups(rest, meta.value)
  }

  /** A document laid out as the assembler lays it out starts with
      `_meta`, so `parse` pops exactly that pair and walks `all` and the
      configured groups, whose keys are distinct. */
  lemma MetaFirst(doc: Document, hostvars: HostVars)
    requires Keys(doc) == [MetaKey, AllKey] + InventoryGroups
    requires Get(doc, MetaKey) == Some(Meta(hostvars))
    ensures doc != []
    ensures Pop(doc, MetaKey) == (Some(Meta(hostvars)), doc[1..])
    ensures Keys(doc[1..]) == [AllKey] + InventoryGroups
    ensures UniqueKeys(doc[1..])
    ensures doc[0].0 == MetaKey
  {
    assert doc != [] && doc[0].0 == MetaKey && Keys(doc[1..]) == [AllKey] + InventoryGroups by {
      KeysAreFirsts(doc);
      var layout := [MetaKey, AllKey] + InventoryGroups;
      assert layout[1..] == [AllKey] + InventoryGroups;
      assert Keys(doc) == [doc[0].0] + Keys(doc[1..]);
      assert Keys(doc)[1..] == Keys(doc[1..]);
    }
    assert UniqueKeys(doc[1..]) by {
      ConfiguredGroupsAreFresh();
      DistinctKeysUnique(doc[1..]);
    }
  }

  /** A document laid out and filled as the assembler fills it. */
  ghost predicate Assembled(doc: Document, servers: seq<string>, hostvars: HostVars) {
    && Keys(doc) == [MetaKey, AllKey] + InventoryGroups
    && Get(doc, MetaKey) == Some(Meta(hostvars))
    && Get(doc, AllKey) == Some(Parent(InventoryGroups))
    && forall i :: 0 <= i < |InventoryGroups| ==>
         Get(doc, InventoryGroups[i]) == Some(Leaf(Members(servers, InventoryGroups[i])))
  }

  /** A host listed by an item of the walk was discovered and is routed to
      that item's group. */
  lemma ListedHostRouted(doc: Document, servers: seq<string>, hostvars: HostVars, i: nat, h: string)
    requires Assembled(doc, servers, hostvars)
    requires doc != [] && i < |doc[1..]| && doc[1..][i].1.Leaf? && h in doc[1..][i].1.hosts
    ensures h in servers && Route(h) == Some(doc[1..][i].0)
  {
    var items := doc[1..];
    var g := items[i].0;
    assert Get(items, g) == Some(items[i].1) && g == ([AllKey] + InventoryGroups)[i] by {
      MetaFirst(doc, hostvars);
      KeysAreFirsts(items);
      GetAtUniqueKey(items, i);
    }
    assert g != MetaKey by {
      ConfiguredGroupsAreFresh();
    }
    assert Get(doc, g) == Get(items, g) by {
      MetaFirst(doc, hostvars);
    }
    assert i > 0;
    assert Get(doc, InventoryGroups[i - 1]) == Some(Leaf(Members(servers, g)));
    MembersContain(servers, g, h);
  }

  /** A discovered host routed to a group is listed by that group's item. */
  lemma RoutedHostListed(doc: Document, servers: seq<string>, hostvars: HostVars, g: string, h: string)
    requires Assembled(doc, servers, hostvars)
    requires h in servers && Route(h) == Some(g)
    ensures Lists(doc[1..], g, h)
  {
    var items := doc[1..];
    var k :| 0 <= k < |InventoryGroups| && InventoryGroups[k] == g;
    assert Get(doc, g) == Some(Leaf(Members(servers, g)));
    assert g != MetaKey by {
      ConfiguredGroupsAreFresh();
    }
    assert Get(items, g) == Get(doc, g) by {
      MetaFirst(doc, hostvars);
    }
    GetFindsKey(items, g);
    MembersContain(servers, g, h);
    var i :| 0 <= i < |items| && items[i] == (g, Leaf(Members(servers, g)));
  }

  /** Over an assembled document, an item lists a host under a group
      exactly when the host was discovered and is routed to that group. */
  lemma ListsIffRouted(doc: Document, servers: seq<string>, hostvars: HostVars)
    requires Assembled(doc, servers, hostvars) && doc != []
    ensures forall h, g :: Lists(doc[1..], g, h) <==> h in servers && Route(h) == Some(g)
  {
    var items := doc[1..];
    forall h, g
      ensures Lists(items, g, h) <==> h in servers && Route(h) == Some(g)
    {
      if Lists(items, g, h) {
        var i :| 0 <= i < |items| && items[i].0 == g && items[i].1.Leaf? && h in items[i].1.hosts;
        ListedHostRouted(doc, servers, hostvars, i, h);
      }
      if h in servers && Route(h) == Some(g) {
        RoutedHostListed(doc, servers, hostvars, g, h);
      }
    }
  }

  /** `parse` over an assembled document. */
  lemma ParseAssembled(doc: Document, servers: seq<string>, hostvars: HostVars)
    requires Assembled(doc, servers, hostvars)
    ensures var r := Parse(doc);
            && r.Success?
            && AddedGroups(r.value) == [AllKey] + InventoryGroups
            && (forall h, g :: AddHost(h, g) in r.value <==> h in servers && Route(h) == Some(g))
            && (forall h, v :: SetVariables(h, v) in r.value <==>
                  h in servers && Route(h).Some? && h in hostvars && v == hostvars[h] && v != map[])
  {
    var items := doc[1..];
    assert doc != [] && Parse(doc) == RegisterGroups(items, Meta(hostvars)) && Keys(items) == [AllKey] + InventoryGroups by {
      MetaFirst(doc, hostvars);
    }
    ListsIffRouted(doc, servers, hostvars);
    forall h
      ensures (exists g :: Lists(items, g, h)) <==> h in servers && Route(h).Some?
    {
      if h in servers && Route(h).Some? {
        assert Lists(items, Route(h).value, h);
      }
    }
  }

  /** End to end over a generated document: `parse` succeeds, registers
      `all` and the configured groups in order, adds every routed name to
      its group and nowhere else, and attaches host variables only to names
      that are placed in some group. */
  lemma ParseGeneratedInventory(servers: seq<string>, hostvars: HostVars)
    ensures var r := Parse(GenerateInventoryDict(servers, hostvars));
            && r.Success?
            && AddedGroups(r.value) == [AllKey] + InventoryGroups
            && (forall h, g :: AddHost(h, g) in r.value <==> h in servers && Route(h) == Some(g))
            && (forall h, v :: SetVariables(h, v) in r.value <==>
                  h in servers && Route(h).Some? && h in hostvars && v == hostvars[h] && v != map[])
  {
    ParseAssembled(GenerateInventoryDict(servers, hostvars), servers, hostvars);
  }
}
