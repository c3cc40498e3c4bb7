/** Worked classifications: one sample host name per rule, and a name
    that carries two keywords. */
module Scenarios {
  import opened Wrappers
  import opened Strings
  import opened OrderedDict
  import opened Inventory

  lemma RouteProxmoxSample(s: string)
    requires s == "a.proxmox.example"
    ensures Route(s) == Some("proxmox")
  {
    assert Contains(s, "proxmox") by {
      ContainsEmbedded("a.", "proxmox", ".example");
      assert "a." + "proxmox" + ".example" == s;
    }
  }

  lemma RouteK8sSample(s: string)
    requires s == "k8s-node1.example"
    ensures Route(s) == Some("k8s_proxmox")
  {
    assert !Contains(s, "proxmox") by { MissingCharacter(s, "proxmox", 1); }
    assert Contains(s, "k8s") by {
      ContainsEmbedded("", "k8s", "-node1.example");
      assert "" + "k8s" + "-node1.example" == s;
    }
  }

  lemma RouteDudeSample(s: string)
    requires s == "dude.example"
    ensures Route(s) == Some("k8s_pi")
  {
    assert !Contains(s, "proxmox") by { MissingCharacter(s, "proxmox", 1); }
    assert !Contains(s, "k8s") by { MissingCharacter(s, "k8s", 1); }
    assert Contains(s, "dude") by {
      ContainsEmbedded("", "dude", ".example");
      assert "" + "dude" + ".example" == s;
    }
  }

  lemma RouteChiefSample(s: string)
    requires s == "chief.example"
    ensures Route(s) == Some("k8s_pi")
  {
    assert !Contains(s, "proxmox") by { MissingCharacter(s, "proxmox", 1); }
    assert !Contains(s, "k8s") by { MissingCharacter(s, "k8s", 1); }
    assert !Contains(s, "dude") by { MissingCharacter(s, "dude", 0); }
    assert Contains(s, "chief") by {
      ContainsEmbedded("", "chief", ".example");
      assert "" + "chief" + ".example" == s;
    }
  }

  lemma RoutePfsenseSample(s: string)
    requires s == "pfsense.example"
    ensures Route(s) == None
  {
    assert !Contains(s, "proxmox") by { MissingCharacter(s, "proxmox", 1); }
    assert !Contains(s, "k8s") by { MissingCharacter(s, "k8s", 1); }
    assert !Contains(s, "dude") by { MissingCharacter(s, "dude", 0); }
    assert !Contains(s, "chief") by { MissingCharacter(s, "chief", 0); }
    assert Contains(s, "pfsense") by {
      ContainsEmbedded("", "pfsense", ".example");
      assert "" + "pfsense" + ".example" == s;
    }
  }

  lemma RoutePlainSample(s: string)
    requires s == "plain.example"
    ensures Route(s) == Some("ungrouped")
  {
    assert !Contains(s, "proxmox") by { MissingCharacter(s, "proxmox", 1); }
    assert !Contains(s, "k8s") by { MissingCharacter(s, "k8s", 1); }
    assert !Contains(s, "dude") by { MissingCharacter(s, "dude", 0); }
    assert !Contains(s, "chief") by { MissingCharacter(s, "chief", 0); }
    assert !Contains(s, "pfsense") by { MissingCharacter(s, "pfsense", 1); }
  }

  /** A name carrying both "k8s" and "proxmox" goes to `proxmox`. */
  lemma RouteMixedSample(s: string)
    requires s == "k8s-proxmox-1.example"
    ensures Contains(s, "k8s") && Contains(s, "proxmox")
    ensures Route(s) == Some("proxmox")
  {
    assert Contains(s, "k8s") by {
      ContainsEmbedded("", "k8s", "-proxmox-1.example");
      assert "" + "k8s" + "-proxmox-1.example" == s;
    }
    assert Contains(s, "proxmox") by {
      ContainsEmbedded("k8s-", "proxmox", "-1.example");
      assert "k8s-" + "proxmox" + "-1.example" == s;
    }
  }
}
