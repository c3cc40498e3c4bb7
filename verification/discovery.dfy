/** Host discovery: the addresses of the subnet that answer a ping, and of
    those the ones with the SSH port open whose reverse lookup yields a
    name. The network itself is not modelled: what each address would
    answer is given as a `Probes` value. */
module Discovery {
  import opened Wrappers
  import opened Cidr

  /** The outcome of probing the network: the addresses that answer an
      ICMP echo, the addresses that accept a TCP connection on port 22,
      and the reverse-DNS answers (an address absent from the map is one
      whose lookup fails with `socket.herror`). */
  datatype Probes = Probes(echoes: set<Address>, sshOpen: set<Address>, reverseDns: map<Address, string>)

  /** The ping sweep: the addresses that answer, in scan order. */
  function Alive(addrs: seq<Address>, probes: Probes): (alive: seq<Address>)
    ensures forall a :: a in alive <==> a in addrs && a in probes.echoes
    ensures |alive| <= |addrs|
  {
    if addrs == [] then []
    else (if addrs[0] in probes.echoes then [addrs[0]] else []) + Alive(addrs[1..], probes)
  }

  /** What the port check reports for one live address: its name when the
      port is open and the reverse lookup yields a non-empty name. */
  function SshName(a: Address, probes: Probes): Option<string> {
    if a in probes.sshOpen && a in probes.reverseDns && probes.reverseDns[a] != "" then
      Some(probes.reverseDns[a])
    else
      None
  }

  /** An address that the port check turns into the host name `h`. */
  ghost predicate Reports(a: Address, h: string, probes: Probes) {
    SshName(a, probes) == Some(h)
  }

  /** How many of the live addresses report the name `h`. */
  ghost function ReportCount(alive: seq<Address>, h: string, probes: Probes): nat {
    if alive == [] then 0
    else (if Reports(alive[0], h, probes) then 1 else 0) + ReportCount(alive[1..], h, probes)
  }

  /** The port checks over the live addresses: the names collected, one per
      reporting address, so a name that several addresses resolve to is
      collected once for each of them. */
  function Named(alive: seq<Address>, probes: Probes): (names: seq<string>)
    ensures |names| <= |alive|
    ensures forall h :: h in names <==> exists a :: a in alive && Reports(a, h, probes)
    ensures forall h :: multiset(names)[h] == ReportCount(alive, h, probes)
  {
    if alive == [] then []
    else
      var rest := Named(alive[1..], probes);
      var head := SshName(alive[0], probes);
      var own := if head.Some? then [head.value] else [];
      var names := own + rest;
      assert multiset(names) == multiset(own) + multiset(rest);
      forall h
        ensures multiset(own)[h] == if Reports(alive[0], h, probes) then 1 else 0
      {
      }
      forall h | exists a :: a in alive && Reports(a, h, probes)
        ensures h in names
      {
        var a :| a in alive && Reports(a, h, probes);
        if a != alive[0] {
          assert a in alive[1..];
        }
      }
      forall h | h in names
        ensures exists a :: a in alive && Reports(a, h, probes)
      {
        if head.Some? && h == head.value {
          assert Reports(alive[0], h, probes);
        } else {
          var a :| a in alive[1..] && Reports(a, h, probes);
          assert a in alive;
        }
      }
      names
  }

  /** A host name the scan of subnet `s` discovers: some address of the
      subnet answers a ping, has its SSH port open and resolves to it. */
  ghost predicate Discovered(h: string, s: Subnet, probes: Probes)
    requires s.prefix <= 32
  {
    exists a: Address :: InSubnet(a, s) && a in probes.echoes && Reports(a, h, probes)
  }

  /** The whole scan: ping sweep over every address of the subnet, then
      port checks over the live ones. */
  function Scan(s: Subnet, probes: Probes): (names: seq<string>)
    requires Valid(s)
    ensures |names| <= BlockSize(s.prefix)
    ensures forall h :: h in names <==> Discovered(h, s, probes)
  {
    var alive := Alive(Enumerate(s), probes);
    var names := Named(alive, probes);
    forall h
      ensures h in names <==> Discovered(h, s, probes)
    {
      if Discovered(h, s, probes) {
        var a: Address :| InSubnet(a, s) && a in probes.echoes && Reports(a, h, probes);
        assert a in alive;
      }
    }
    names
  }

  /** With no echo replies, the ping sweep keeps nothing. */
  lemma {:induction false} SilentSweep(addrs: seq<Address>, probes: Probes)
    requires probes.echoes == {}
    ensures Alive(addrs, probes) == []
  {
    if addrs != [] {
      SilentSweep(addrs[1..], probes);
    }
  }

  /** A quiet network, where nothing answers a ping, yields no hosts. */
  lemma QuietNetworkYieldsNothing(s: Subnet, probes: Probes)
    requires Valid(s) && probes.echoes == {}
    ensures Scan(s, probes) == []
  {
    SilentSweep(Enumerate(s), probes);
  }
}
