/** The `msb run` and `msb restore` command lines, as they are printed from a spec. */
module Argv {
  import opened Wrappers
  import opened Sequences
  import opened Wire
  import opened Decimals

  type Text = seq<Byte>

  datatype Protocol = Tcp | Udp

  datatype Port = Port(host: nat, guest: nat, protocol: Protocol)

  datatype Mount = Mount(host: Text, guest: Text, readOnly: bool)

  datatype Env = Env(key: Text, value: Text)

  datatype Spec = Spec(
    name: Text, memory: Option<nat>, disk: Option<nat>, tmpfs: Option<nat>, networkDisabled: bool,
    egress: seq<nat>, ports: seq<Port>, env: seq<Env>, mounts: seq<Mount>,
    image: Text, command: Option<seq<Text>>)

  const COLON: Byte := 58
  const SLASH: Byte := 47
  const EQUALS: Byte := 61
  const DASH: Byte := 45
  const MEGA: Byte := 77

  const RUN := Ascii("run")
  const NAME := Ascii("--name")
  const MEMORY := Ascii("-m")
  const ROOT_DISK := Ascii("--root-disk")
  const TMPFS := Ascii("tmpfs:")
  const NET := Ascii("--net")
  const PRIVATE := Ascii("private")
  const NET_RULE := Ascii("--net-rule")
  const ALLOW_UDP := Ascii("allow@host:udp:")
  const PUBLISH := Ascii("-p")
  const SLASH_UDP := Ascii("/udp")
  const ENV := Ascii("-e")
  const MOUNT_FILE := Ascii("--mount-file")
  const READ_ONLY := Ascii(":ro,nodev")
  const READ_WRITE := Ascii(":rw,nodev")
  const SEPARATOR := Ascii("--")
  const RESTORE := Ascii("restore")
  const VOLUME := Ascii("--volume")
  const NET_DEFAULT := Ascii("--net-default")
  const DENY := Ascii("deny")
  const ALLOW_PUBLIC := Ascii("allow@public,allow@dns")
  const MORE_UDP := Ascii(",allow@host:udp:")
  const INGRESS := Ascii(",allow:ingress@any")
  const COMMA: Byte := 44

  // ---- printing ------------------------------------------------------------------------

  function Megabytes(n: nat): Text {
    DecimalText(n) + [MEGA]
  }

  function PortFlagValue(p: Port): Text {
    DecimalText(p.host) + [COLON] + DecimalText(p.guest) + if p.protocol.Udp? then SLASH_UDP else []
  }

  function MountSpec(m: Mount): Text {
    m.host + [COLON] + m.guest + if m.readOnly then READ_ONLY else READ_WRITE
  }

  function EnvValue(e: Env): Text {
    e.key + [EQUALS] + e.value
  }

  function EgressRule(port: nat): Text {
    ALLOW_UDP + DecimalText(port)
  }

  /** One flag per value. */
  function Section(flag: Text, values: seq<Text>): seq<Text> {
    if values == [] then [] else [flag, values[0]] + Section(flag, values[1..])
  }

  function Optional(flag: Text, value: Option<Text>): seq<Text> {
    if value.Some? then [flag, value.value] else []
  }

  function InMegabytes(prefix: Text, n: Option<nat>): Option<Text> {
    if n.Some? then Some(prefix + Megabytes(n.value)) else None
  }

  function CommandArgs(command: Option<seq<Text>>): seq<Text> {
    if command.Some? then [SEPARATOR] + command.value else []
  }

  function Mounts(s: Spec): seq<Text> {
    Section(MOUNT_FILE, Map((m: Mount) => MountSpec(m), s.mounts)) + ([s.image] + CommandArgs(s.command))
  }

  function Envs(s: Spec): seq<Text> {
    Section(ENV, Map((e: Env) => EnvValue(e), s.env)) + Mounts(s)
  }

  function Ports(s: Spec): seq<Text> {
    Section(PUBLISH, Map((p: Port) => PortFlagValue(p), s.ports)) + Envs(s)
  }

  function Egress(s: Spec): seq<Text> {
    Section(NET_RULE, Map((port: nat) => EgressRule(port), s.egress)) + Ports(s)
  }

  function Network(s: Spec): seq<Text> {
    Optional(NET, if s.networkDisabled then Some(PRIVATE) else None) + Egress(s)
  }

  function Disks(s: Spec): seq<Text> {
    Optional(ROOT_DISK, InMegabytes([], s.disk)) + (Optional(ROOT_DISK, InMegabytes(TMPFS, s.tmpfs)) + Network(s))
  }

  /** Everything `run` passes after the name. */
  function Options(s: Spec): seq<Text> {
    Optional(MEMORY, InMegabytes([], s.memory)) + Disks(s)
  }

  function RunArgv(s: Spec): seq<Text> {
    [RUN, NAME, s.name] + Options(s)
  }

  function UdpRule(port: nat): Text {
    MORE_UDP + DecimalText(port)
  }

  /** The whole replacement policy that lets a restored sandbox reach its links. */
  function PolicyTail(egress: seq<nat>): Text {
    Flatten(Map((port: nat) => UdpRule(port), egress)) + INGRESS
  }

  function Policy(egress: seq<nat>): seq<Text> {
    if egress == [] then [] else [NET_DEFAULT, DENY, NET_RULE, ALLOW_PUBLIC + PolicyTail(egress)]
  }

  function Volumes(s: Spec): seq<Text> {
    Section(VOLUME, Map((m: Mount) => MountSpec(m), s.mounts)) + Policy(s.egress)
  }

  function RestorePorts(s: Spec): seq<Text> {
    Section(PUBLISH, Map((p: Port) => PortFlagValue(p), s.ports)) + Volumes(s)
  }

  function RestoreOptions(s: Spec): seq<Text> {
    Optional(MEMORY, InMegabytes([], s.memory)) + RestorePorts(s)
  }

  function RestoreArgv(s: Spec, path: Text): seq<Text> {
    [RESTORE, path, NAME, s.name] + RestoreOptions(s)
  }

  lemma {:induction false} SectionSnoc(flag: Text, values: seq<Text>, value: Text)
    ensures Section(flag, values + [value]) == Section(flag, values) + [flag, value]
  {
    if values == [] {
      assert [value][1..] == [];
    } else {
      assert (values + [value])[1..] == values[1..] + [value];
      SectionSnoc(flag, values[1..], value);
    }
  }

  method PushSection(argv: seq<Text>, flag: Text, values: seq<Text>) returns (r: seq<Text>)
    ensures r == argv + Section(flag, values)
  {
    r := argv;
    for i := 0 to |values|
      invariant r == argv + Section(flag, values[..i])
    {
      assert values[..i + 1] == values[..i] + [values[i]];
      SectionSnoc(flag, values[..i], values[i]);
      r := r + [flag, values[i]];
    }
    assert values[..|values|] == values;
  }

  /** Moving the front of what is still to print behind what is printed changes nothing. */
  lemma Move<T>(done: seq<T>, front: seq<T>, rest: seq<T>)
    ensures done + (front + rest) == done + front + rest
  {
  }

  method PushOptional(argv: seq<Text>, flag: Text, value: Option<Text>) returns (r: seq<Text>)
    ensures r == argv + Optional(flag, value)
  {
    r := argv;
    if value.Some? {
      r := r + [flag, value.value];
    }
  }

  /** Pushes flag after flag, in the order the source does. */
  method Run(s: Spec) returns (argv: seq<Text>)
    ensures argv == RunArgv(s)
  {
    hide Section, Map, Optional, InMegabytes, CommandArgs;
    argv := [RUN, NAME, s.name];
    Move(argv, Optional(MEMORY, InMegabytes([], s.memory)), Disks(s));
    argv := PushOptional(argv, MEMORY, InMegabytes([], s.memory));
    var diskArgs, tmpfsArgs := InMegabytes([], s.disk), InMegabytes(TMPFS, s.tmpfs);
    Move(argv, Optional(ROOT_DISK, diskArgs), Optional(ROOT_DISK, tmpfsArgs) + Network(s));
    argv := PushOptional(argv, ROOT_DISK, diskArgs);
    Move(argv, Optional(ROOT_DISK, tmpfsArgs), Network(s));
    argv := PushOptional(argv, ROOT_DISK, tmpfsArgs);
    var net := if s.networkDisabled then Some(PRIVATE) else None;
    Move(argv, Optional(NET, net), Egress(s));
    argv := PushOptional(argv, NET, net);
    argv := PushLists(s, argv);
  }

  method PushLists(s: Spec, done: seq<Text>) returns (argv: seq<Text>)
    ensures argv == done + Egress(s)
  {
    hide Section, Map, CommandArgs;
    var rules := Map((port: nat) => EgressRule(port), s.egress);
    Move(done, Section(NET_RULE, rules), Ports(s));
    argv := PushSection(done, NET_RULE, rules);
    var ports := Map((p: Port) => PortFlagValue(p), s.ports);
    Move(argv, Section(PUBLISH, ports), Envs(s));
    argv := PushSection(argv, PUBLISH, ports);
    var env := Map((e: Env) => EnvValue(e), s.env);
    Move(argv, Section(ENV, env), Mounts(s));
    argv := PushSection(argv, ENV, env);
    var mounts := Map((m: Mount) => MountSpec(m), s.mounts);
    Move(argv, Section(MOUNT_FILE, mounts), [s.image] + CommandArgs(s.command));
    argv := PushSection(argv, MOUNT_FILE, mounts);
    Move(argv, [s.image], CommandArgs(s.command));
    argv := argv + [s.image] + CommandArgs(s.command);
  }

  method PolicyText(egress: seq<nat>) returns (rule: Text)
    ensures rule == ALLOW_PUBLIC + PolicyTail(egress)
  {
    hide Flatten, Map, UdpRule;
    var f := (port: nat) => UdpRule(port);
    rule := ALLOW_PUBLIC;
    NoPorts(f);
    for i := 0 to |egress|
      invariant rule == ALLOW_PUBLIC + Flatten(Map(f, egress[..i]))
    {
      assert egress[..i + 1] == egress[..i] + [egress[i]];
      MapSnoc(f, egress[..i], egress[i]);
      FlattenSnoc(Map(f, egress[..i]), f(egress[i]));
      rule := rule + UdpRule(egress[i]);
    }
    assert egress[..|egress|] == egress;
    rule := rule + INGRESS;
  }

  lemma NoPorts(f: nat -> Text)
    ensures Flatten(Map(f, [])) == []
  {
  }

  method Restore(s: Spec, path: Text) returns (argv: seq<Text>)
    ensures argv == RestoreArgv(s, path)
  {
    hide Section, Map, Optional, InMegabytes, PolicyTail;
    argv := [RESTORE, path, NAME, s.name];
    var memory := InMegabytes([], s.memory);
    Move(argv, Optional(MEMORY, memory), RestorePorts(s));
    argv := PushOptional(argv, MEMORY, memory);
    var ports := Map((p: Port) => PortFlagValue(p), s.ports);
    Move(argv, Section(PUBLISH, ports), Volumes(s));
    argv := PushSection(argv, PUBLISH, ports);
    var mounts := Map((m: Mount) => MountSpec(m), s.mounts);
    Move(argv, Section(VOLUME, mounts), Policy(s.egress));
    argv := PushSection(argv, VOLUME, mounts);
    if s.egress != [] {
      var rule := PolicyText(s.egress);
      argv := argv + [NET_DEFAULT, DENY, NET_RULE, rule];
    }
  }
}
