/** The two command lines spelled out, option by option, for a spec with one of everything. */
module ArgvSpelling {
  import opened Wrappers
  import opened Sequences
  import opened Wire
  import opened Decimals
  import opened Argv

  lemma Mark(c: char)
    requires c < 128 as char
    ensures Ascii([c]) == [c as Byte]
  {
  }

  lemma MegabytesSpelled(n: nat)
    ensures Megabytes(n) == DecimalText(n) + Ascii("M")
  {
    Mark('M');
  }

  lemma PortSpelled(host: nat, guest: nat)
    ensures PortFlagValue(Port(host, guest, Tcp)) == DecimalText(host) + Ascii(":") + DecimalText(guest)
    ensures PortFlagValue(Port(host, guest, Udp)) == DecimalText(host) + Ascii(":") + DecimalText(guest) + Ascii("/udp")
  {
    hide DecimalText;
    Mark(':');
  }

  lemma MountSpelled(host: Text, guest: Text)
    ensures MountSpec(Mount(host, guest, true)) == host + Ascii(":") + guest + Ascii(":ro,nodev")
    ensures MountSpec(Mount(host, guest, false)) == host + Ascii(":") + guest + Ascii(":rw,nodev")
  {
    Mark(':');
  }

  lemma EnvSpelled(key: Text, value: Text)
    ensures EnvValue(Env(key, value)) == key + Ascii("=") + value
  {
    Mark('=');
  }

  lemma SectionOfTwo(flag: Text, a: Text, b: Text)
    ensures Section(flag, [a, b]) == [flag, a, flag, b] && Section(flag, [a]) == [flag, a]
  {
    assert [a, b][1..] == [b] && [a][1..] == [] && [b][1..] == [];
    assert Section(flag, []) == [] && Section(flag, [b]) == [flag, b] && Section(flag, [a]) == [flag, a];
  }

  /** The tail of a run: mounts, image, separator and command. */
  lemma RunEndsSpelled(s: Spec, host: Text, guest: Text, key: Text, value: Text, one: Text, two: Text)
    requires s.mounts == [Mount(host, guest, true), Mount(host, guest, false)] && s.env == [Env(key, value)]
    requires s.command == Some([one, two])
    ensures Envs(s) == [Ascii("-e"), key + Ascii("=") + value,
                        Ascii("--mount-file"), host + Ascii(":") + guest + Ascii(":ro,nodev"),
                        Ascii("--mount-file"), host + Ascii(":") + guest + Ascii(":rw,nodev"),
                        s.image, Ascii("--"), one, two]
  {
    EnvSpelled(key, value);
    MountSpelled(host, guest);
    hide Section, MountSpec, EnvValue, Ascii;
    SectionOfTwo(MOUNT_FILE, MountSpec(s.mounts[0]), MountSpec(s.mounts[1]));
    SectionOfTwo(ENV, EnvValue(s.env[0]), []);
    assert Map((m: Mount) => MountSpec(m), s.mounts) == [MountSpec(s.mounts[0]), MountSpec(s.mounts[1])];
    assert Map((e: Env) => EnvValue(e), s.env) == [EnvValue(s.env[0])];
  }

  lemma RunMiddleSpelled(s: Spec, egress: nat, host: nat, guest: nat)
    requires s.networkDisabled && s.egress == [egress] && s.ports == [Port(host, guest, Tcp), Port(host, guest, Udp)]
    ensures Network(s) == [Ascii("--net"), Ascii("private"),
                           Ascii("--net-rule"), Ascii("allow@host:udp:") + DecimalText(egress),
                           Ascii("-p"), DecimalText(host) + Ascii(":") + DecimalText(guest),
                           Ascii("-p"), DecimalText(host) + Ascii(":") + DecimalText(guest) + Ascii("/udp")]
                          + Envs(s)
  {
    PortSpelled(host, guest);
    hide Section, PortFlagValue, EgressRule, Ascii, DecimalText;
    SectionOfTwo(PUBLISH, PortFlagValue(s.ports[0]), PortFlagValue(s.ports[1]));
    SectionOfTwo(NET_RULE, EgressRule(egress), []);
    assert Map((p: Port) => PortFlagValue(p), s.ports) == [PortFlagValue(s.ports[0]), PortFlagValue(s.ports[1])];
    assert Map((port: nat) => EgressRule(port), s.egress) == [EgressRule(egress)];
    EgressSpelled(egress);
  }

  lemma EgressSpelled(port: nat)
    ensures EgressRule(port) == Ascii("allow@host:udp:") + DecimalText(port)
  {
  }

  /** The front of a run, down to the network. */
  lemma RunBeginsSpelled(s: Spec, memory: nat, disk: nat, tmpfs: nat)
    requires s.memory == Some(memory) && s.disk == Some(disk) && s.tmpfs == Some(tmpfs)
    ensures RunArgv(s) == [Ascii("run"), Ascii("--name"), s.name,
                           Ascii("-m"), DecimalText(memory) + Ascii("M"),
                           Ascii("--root-disk"), DecimalText(disk) + Ascii("M"),
                           Ascii("--root-disk"), Ascii("tmpfs:") + (DecimalText(tmpfs) + Ascii("M"))]
                          + Network(s)
  {
    MegabytesSpelled(memory);
    MegabytesSpelled(disk);
    MegabytesSpelled(tmpfs);
    hide Megabytes, Network, Ascii, DecimalText;
    assert [] + Megabytes(memory) == Megabytes(memory) && [] + Megabytes(disk) == Megabytes(disk);
  }

  /** What a spec without options comes to. */
  lemma BareRunSpelled(name: Text, image: Text)
    ensures RunArgv(Spec(name, None, None, None, false, [], [], [], [], image, None))
         == [Ascii("run"), Ascii("--name"), name, image]
  {
    hide Ascii;
  }

  lemma PolicySpelled(first: nat, second: nat)
    ensures Policy([first, second])
         == [Ascii("--net-default"), Ascii("deny"), Ascii("--net-rule"),
             Ascii("allow@public,allow@dns")
             + (Ascii(",allow@host:udp:") + DecimalText(first) + (Ascii(",allow@host:udp:") + DecimalText(second))
                + Ascii(",allow:ingress@any"))]
    ensures Policy([]) == []
  {
    hide Ascii, DecimalText;
    assert Map((port: nat) => UdpRule(port), [first, second]) == [UdpRule(first), UdpRule(second)];
    assert [UdpRule(first), UdpRule(second)][1..] == [UdpRule(second)];
    assert Flatten([UdpRule(second)]) == UdpRule(second);
  }

  /** A restore with one of everything it carries; its policy is as above. */
  lemma RestoreSpelled(s: Spec, path: Text, memory: nat, host: nat, guest: nat, from: Text, to: Text)
    requires s.memory == Some(memory) && s.ports == [Port(host, guest, Udp)] && s.mounts == [Mount(from, to, false)]
    ensures RestoreArgv(s, path)
         == [Ascii("restore"), path, Ascii("--name"), s.name, Ascii("-m"), DecimalText(memory) + Ascii("M"),
             Ascii("-p"), DecimalText(host) + Ascii(":") + DecimalText(guest) + Ascii("/udp"),
             Ascii("--volume"), from + Ascii(":") + to + Ascii(":rw,nodev")] + Policy(s.egress)
  {
    MegabytesSpelled(memory);
    PortSpelled(host, guest);
    MountSpelled(from, to);
    hide Megabytes, Section, PortFlagValue, MountSpec, Policy, Ascii, DecimalText;
    SectionOfTwo(PUBLISH, PortFlagValue(s.ports[0]), []);
    SectionOfTwo(VOLUME, MountSpec(s.mounts[0]), []);
    assert [] + Megabytes(memory) == Megabytes(memory);
    assert Map((p: Port) => PortFlagValue(p), s.ports) == [PortFlagValue(s.ports[0])];
    assert Map((m: Mount) => MountSpec(m), s.mounts) == [MountSpec(s.mounts[0])];
  }
}
