/** A reference parser for the printed command lines, and exactly when it recovers what they were printed from. */
module ArgvReadBack {
  import opened Wrappers
  import opened Sequences
  import opened Wire
  import opened Decimals
  import opened Argv

  // ---- a reference parser --------------------------------------------------------------

  function Number(s: Text): Option<nat> {
    if s != [] && AllDigits(s) then Some(DecimalValue(s)) else None
  }

  function ParseMegabytes(s: Text): Option<nat> {
    if s != [] && s[|s| - 1] == MEGA then Number(s[..|s| - 1]) else None
  }

  function ParseGuest(s: Text): Option<(nat, Protocol)> {
    var guest := Before(SLASH, s);
    var tail := s[|guest|..];
    if Number(guest).Some? && (tail == [] || tail == SLASH_UDP) then
      Some((Number(guest).value, if tail == [] then Tcp else Udp))
    else None
  }

  function ParsePort(s: Text): Option<Port> {
    var host := Before(COLON, s);
    if |host| == |s| || Number(host).None? then None
    else
      match ParseGuest(s[|host| + 1..])
      case None => None
      case Some((guest, protocol)) => Some(Port(Number(host).value, guest, protocol))
  }

  function ParseEnv(s: Text): Option<Env> {
    var key := Before(EQUALS, s);
    if |key| < |s| then Some(Env(key, s[|key| + 1..])) else None
  }

  /** The option block is the last 9 characters; the guest path follows the last colon before them. */
  function ParseMount(s: Text): Option<Mount> {
    if |s| < 9 then None
    else
      var paths, options := s[..|s| - 9], s[|s| - 9..];
      var guest := AfterLast(COLON, paths);
      if |guest| < |paths| && (options == READ_ONLY || options == READ_WRITE) then
        Some(Mount(paths[..|paths| - |guest| - 1], guest, options == READ_ONLY))
      else None
  }

  function ParseEgress(s: Text): Option<nat> {
    if ALLOW_UDP <= s then Number(s[|ALLOW_UDP|..]) else None
  }

  function ParsePolicyTail(s: Text): Option<seq<nat>>
    decreases |s|
  {
    if s == INGRESS then Some([])
    else if MORE_UDP <= s then
      var digits := Before(COMMA, s[|MORE_UDP|..]);
      var later := ParsePolicyTail(s[|MORE_UDP| + |digits|..]);
      if Number(digits).Some? && later.Some? then Some([Number(digits).value] + later.value) else None
    else None
  }

  /** What one flag and its value add to a spec. */
  function Applied(flag: Text, value: Text, s: Spec): Option<Spec> {
    if flag == MEMORY then
      var n := ParseMegabytes(value);
      if n.Some? then Some(s.(memory := n)) else None
    else if flag == ROOT_DISK && TMPFS <= value then
      var n := ParseMegabytes(value[|TMPFS|..]);
      if n.Some? then Some(s.(tmpfs := n)) else None
    else if flag == ROOT_DISK then
      var n := ParseMegabytes(value);
      if n.Some? then Some(s.(disk := n)) else None
    else if flag == NET then
      if value == PRIVATE then Some(s.(networkDisabled := true)) else None
    else if flag == NET_DEFAULT then
      if value == DENY then Some(s) else None
    else if flag == NET_RULE && ALLOW_PUBLIC <= value then
      var ports := ParsePolicyTail(value[|ALLOW_PUBLIC|..]);
      if ports.Some? then Some(s.(egress := ports.value)) else None
    else if flag == NET_RULE then
      var port := ParseEgress(value);
      if port.Some? then Some(s.(egress := [port.value] + s.egress)) else None
    else if flag == PUBLISH then
      var port := ParsePort(value);
      if port.Some? then Some(s.(ports := [port.value] + s.ports)) else None
    else if flag == ENV then
      var e := ParseEnv(value);
      if e.Some? then Some(s.(env := [e.value] + s.env)) else None
    else if flag == MOUNT_FILE || flag == VOLUME then
      var m := ParseMount(value);
      if m.Some? then Some(s.(mounts := [m.value] + s.mounts)) else None
    else None
  }

  function Bare(image: Text, command: Option<seq<Text>>): Spec {
    Spec([], None, None, None, false, [], [], [], [], image, command)
  }

  predicate IsFlag(arg: Text) {
    arg != [] && arg[0] == DASH
  }

  /** `run` ends with an image and perhaps a command, `restore` with its flags. */
  datatype Dialect = Running | Restoring

  /** Flags with one value each, then, for a run, the image, then perhaps a separator and the command. */
  function ParseOptions(dialect: Dialect, args: seq<Text>): Option<Spec>
    decreases |args|
  {
    if args == [] then if dialect.Restoring? then Some(Bare([], None)) else None
    else if IsFlag(args[0]) then
      if |args| < 2 then None
      else
        var later := ParseOptions(dialect, args[2..]);
        if later.Some? then Applied(args[0], args[1], later.value) else None
    else if dialect.Restoring? then None
    else if |args| == 1 then Some(Bare(args[0], None))
    else if args[1] == SEPARATOR then Some(Bare(args[0], Some(args[2..])))
    else None
  }

  function Parse(argv: seq<Text>): Option<Spec> {
    if |argv| < 3 || argv[0] != RUN || argv[1] != NAME then None
    else
      var s := ParseOptions(Running, argv[3..]);
      if s.Some? then Some(s.value.(name := argv[2])) else None
  }

  function ParseRestore(argv: seq<Text>): Option<(Text, Spec)> {
    if |argv| < 4 || argv[0] != RESTORE || argv[2] != NAME then None
    else
      var s := ParseOptions(Restoring, argv[4..]);
      if s.Some? then Some((argv[1], s.value.(name := argv[3]))) else None
  }

  // ---- values read back ----------------------------------------------------------------

  lemma NumberReadsBack(n: nat)
    ensures Number(DecimalText(n)) == Some(n)
    ensures DecimalText(n) != [] && IsDigit(DecimalText(n)[0])
  {
    DecimalTextValue(n);
  }

  lemma NotADigit(n: nat, mark: Byte)
    requires !IsDigit(mark)
    ensures mark !in DecimalText(n)
  {
  }

  lemma MegabytesReadBack(n: nat)
    ensures ParseMegabytes(Megabytes(n)) == Some(n)
    ensures Megabytes(n) != [] && IsDigit(Megabytes(n)[0])
  {
    NumberReadsBack(n);
    hide DecimalText, Number;
    assert Megabytes(n)[..|Megabytes(n)| - 1] == DecimalText(n);
  }

  lemma CutAt(mark: Byte, front: Text, back: Text)
    requires mark !in front
    ensures var s := front + [mark] + back;
            Before(mark, s) == front && |front| < |s| && s[|front| + 1..] == back
  {
    assert front + [mark] + back == front + ([mark] + back);
    BeforeMark(mark, front, [mark] + back);
  }

  function UdpTail(protocol: Protocol): Text {
    if protocol.Udp? then SLASH_UDP else []
  }

  lemma GuestReadsBack(guest: nat, protocol: Protocol)
    ensures ParseGuest(DecimalText(guest) + UdpTail(protocol)) == Some((guest, protocol))
  {
    NumberReadsBack(guest);
    NotADigit(guest, SLASH);
    hide DecimalText, Number;
    BeforeMark(SLASH, DecimalText(guest), UdpTail(protocol));
    assert (DecimalText(guest) + UdpTail(protocol))[|DecimalText(guest)|..] == UdpTail(protocol);
  }

  lemma PortReadsBack(p: Port)
    ensures ParsePort(PortFlagValue(p)) == Some(p)
  {
    var later := DecimalText(p.guest) + UdpTail(p.protocol);
    NumberReadsBack(p.host);
    NotADigit(p.host, COLON);
    GuestReadsBack(p.guest, p.protocol);
    CutAt(COLON, DecimalText(p.host), later);
    PortShape(p);
    hide DecimalText, Number, Before, PortFlagValue, ParseGuest;
  }

  lemma PortShape(p: Port)
    ensures PortFlagValue(p) == DecimalText(p.host) + [COLON] + (DecimalText(p.guest) + UdpTail(p.protocol))
  {
  }

  /** A variable reads back exactly when its key holds no equals sign. */
  lemma EnvReadsBackExactly(e: Env)
    ensures ParseEnv(EnvValue(e)) == Some(e) <==> EQUALS !in e.key
  {
    if EQUALS !in e.key {
      assert EnvValue(e) == e.key + ([EQUALS] + e.value);
      BeforeMark(EQUALS, e.key, [EQUALS] + e.value);
      assert EnvValue(e)[|e.key| + 1..] == e.value;
    }
  }

  lemma {:induction false} AfterLastIsUnmarked(s: Text)
    ensures COLON !in AfterLast(COLON, s)
  {
    if s != [] && s[|s| - 1] != COLON {
      AfterLastIsUnmarked(s[..|s| - 1]);
    }
  }

  lemma OptionsDiffer()
    ensures |READ_ONLY| == |READ_WRITE| == 9 && READ_ONLY != READ_WRITE
  {
    assert READ_ONLY[2] != READ_WRITE[2];
  }

  lemma MountShape(m: Mount)
    ensures var s := MountSpec(m);
            && |s| >= 9 && s[..|s| - 9] == m.host + [COLON] + m.guest
            && s[|s| - 9..] == if m.readOnly then READ_ONLY else READ_WRITE
  {
    OptionsDiffer();
  }

  /** A mount reads back, drive colons in its host path included, exactly when its guest path holds no colon. */
  lemma MountReadsBackExactly(m: Mount)
    ensures ParseMount(MountSpec(m)) == Some(m) <==> COLON !in m.guest
  {
    hide MountSpec, AfterLast;
    var paths := m.host + [COLON] + m.guest;
    MountShape(m);
    OptionsDiffer();
    if COLON !in m.guest {
      AfterLastMark(COLON, m.host, m.guest);
      assert paths[..|m.host|] == m.host;
    } else {
      AfterLastIsUnmarked(paths);
    }
  }

  lemma EgressReadsBack(port: nat)
    ensures ParseEgress(EgressRule(port)) == Some(port)
  {
    NumberReadsBack(port);
    hide DecimalText, DecimalValue, Number;
    assert EgressRule(port)[|ALLOW_UDP|..] == DecimalText(port);
  }

  // ---- command lines read back ---------------------------------------------------------

  lemma ParseFlag(dialect: Dialect, flag: Text, value: Text, tail: seq<Text>)
    requires IsFlag(flag) && ParseOptions(dialect, tail).Some?
    ensures ParseOptions(dialect, [flag, value] + tail) == Applied(flag, value, ParseOptions(dialect, tail).value)
  {
  }

  /** A flag for each of `values`, each of which means one more item in front. */
  lemma {:induction false} ParseSection(dialect: Dialect, flag: Text, values: seq<Text>, tail: seq<Text>,
                                        results: seq<Spec>)
    requires IsFlag(flag) && |results| == |values| + 1
    requires ParseOptions(dialect, tail) == Some(results[|values|])
    requires forall i :: 0 <= i < |values| ==> Applied(flag, values[i], results[i + 1]) == Some(results[i])
    ensures ParseOptions(dialect, Section(flag, values) + tail) == Some(results[0])
    decreases |values|
  {
    hide Applied;
    if values == [] {
      assert [] + tail == tail;
    } else {
      ParseSection(dialect, flag, values[1..], tail, results[1..]);
      ParseFlag(dialect, flag, values[0], Section(flag, values[1..]) + tail);
      assert Section(flag, values) + tail == [flag, values[0]] + (Section(flag, values[1..]) + tail);
    }
  }

  lemma ShortFlagsDiffer()
    ensures MEMORY != PUBLISH && MEMORY != ENV && PUBLISH != ENV
  {
    assert MEMORY[1] == 109 && PUBLISH[1] == 112 && ENV[1] == 101;
  }

  ghost predicate Printable(s: Spec) {
    && !IsFlag(s.image)
    && (forall i :: 0 <= i < |s.env| ==> EQUALS !in s.env[i].key)
    && forall i :: 0 <= i < |s.mounts| ==> COLON !in s.mounts[i].guest
  }

  lemma ApplyMount(m: Mount, s: Spec)
    requires COLON !in m.guest
    ensures Applied(MOUNT_FILE, MountSpec(m), s) == Some(s.(mounts := [m] + s.mounts))
    ensures Applied(VOLUME, MountSpec(m), s) == Some(s.(mounts := [m] + s.mounts))
  {
    MountReadsBackExactly(m);
    hide ParseMount, MountSpec;
  }

  lemma ApplyEnv(e: Env, s: Spec)
    requires EQUALS !in e.key
    ensures Applied(ENV, EnvValue(e), s) == Some(s.(env := [e] + s.env))
  {
    EnvReadsBackExactly(e);
    ShortFlagsDiffer();
    hide ParseEnv, EnvValue;
  }

  lemma ApplyPort(p: Port, s: Spec)
    ensures Applied(PUBLISH, PortFlagValue(p), s) == Some(s.(ports := [p] + s.ports))
  {
    PortReadsBack(p);
    ShortFlagsDiffer();
    hide ParsePort, PortFlagValue;
  }

  lemma ApplyEgress(port: nat, s: Spec)
    ensures Applied(NET_RULE, EgressRule(port), s) == Some(s.(egress := [port] + s.egress))
  {
    EgressReadsBack(port);
    assert EgressRule(port)[6] == 104 && ALLOW_PUBLIC[6] == 112;
    hide ParseEgress, EgressRule;
  }

  lemma ImageReadsBack(s: Spec)
    requires Printable(s)
    ensures ParseOptions(Running, [s.image] + CommandArgs(s.command)) == Some(Bare(s.image, s.command))
  {
    var tail := [s.image] + CommandArgs(s.command);
    assert s.command.Some? ==> tail[2..] == s.command.value;
  }

  lemma MountsReadBack(s: Spec)
    requires Printable(s)
    ensures ParseOptions(Running, Mounts(s)) == Some(Bare(s.image, s.command).(mounts := s.mounts))
  {
    hide ParseOptions, Applied, MountSpec, Section, CommandArgs;
    ImageReadsBack(s);
    var base := Bare(s.image, s.command);
    var values := Map((m: Mount) => MountSpec(m), s.mounts);
    var results := seq(|values| + 1, i requires 0 <= i <= |values| => base.(mounts := s.mounts[i..]));
    forall i | 0 <= i < |values| ensures Applied(MOUNT_FILE, values[i], results[i + 1]) == Some(results[i]) {
      ApplyMount(s.mounts[i], results[i + 1]);
      assert s.mounts[i..] == [s.mounts[i]] + s.mounts[i + 1..];
    }
    assert s.mounts[|values|..] == [];
    ParseSection(Running, MOUNT_FILE, values, [s.image] + CommandArgs(s.command), results);
  }

  lemma EnvsReadBack(s: Spec)
    requires Printable(s)
    ensures ParseOptions(Running, Envs(s)) == Some(Bare(s.image, s.command).(mounts := s.mounts, env := s.env))
  {
    hide ParseOptions, Applied, EnvValue, Section, Mounts;
    MountsReadBack(s);
    var base := Bare(s.image, s.command).(mounts := s.mounts);
    var values := Map((e: Env) => EnvValue(e), s.env);
    var results := seq(|values| + 1, i requires 0 <= i <= |values| => base.(env := s.env[i..]));
    forall i | 0 <= i < |values| ensures Applied(ENV, values[i], results[i + 1]) == Some(results[i]) {
      ApplyEnv(s.env[i], results[i + 1]);
      assert s.env[i..] == [s.env[i]] + s.env[i + 1..];
    }
    assert s.env[|values|..] == [];
    ParseSection(Running, ENV, values, Mounts(s), results);
  }

  lemma PortsReadBack(s: Spec)
    requires Printable(s)
    ensures ParseOptions(Running, Ports(s))
         == Some(Bare(s.image, s.command).(mounts := s.mounts, env := s.env, ports := s.ports))
  {
    hide ParseOptions, Applied, PortFlagValue, Section, Envs;
    EnvsReadBack(s);
    var base := Bare(s.image, s.command).(mounts := s.mounts, env := s.env);
    var values := Map((p: Port) => PortFlagValue(p), s.ports);
    var results := seq(|values| + 1, i requires 0 <= i <= |values| => base.(ports := s.ports[i..]));
    forall i | 0 <= i < |values| ensures Applied(PUBLISH, values[i], results[i + 1]) == Some(results[i]) {
      ApplyPort(s.ports[i], results[i + 1]);
      assert s.ports[i..] == [s.ports[i]] + s.ports[i + 1..];
    }
    assert s.ports[|values|..] == [];
    ParseSection(Running, PUBLISH, values, Envs(s), results);
  }

  /** The lists and what follows them, without the settings in front. */
  function Listed(s: Spec): Spec {
    s.(name := [], memory := None, disk := None, tmpfs := None, networkDisabled := false)
  }

  lemma EgressesReadBack(s: Spec)
    requires Printable(s)
    ensures ParseOptions(Running, Egress(s)) == Some(Listed(s))
  {
    hide ParseOptions, Applied, EgressRule, Section, Ports;
    PortsReadBack(s);
    var base := Listed(s).(egress := []);
    var values := Map((port: nat) => EgressRule(port), s.egress);
    var results := seq(|values| + 1, i requires 0 <= i <= |values| => base.(egress := s.egress[i..]));
    forall i | 0 <= i < |values| ensures Applied(NET_RULE, values[i], results[i + 1]) == Some(results[i]) {
      ApplyEgress(s.egress[i], results[i + 1]);
      assert s.egress[i..] == [s.egress[i]] + s.egress[i + 1..];
    }
    assert s.egress[|values|..] == [];
    ParseSection(Running, NET_RULE, values, Ports(s), results);
  }

  lemma ParseOptional(dialect: Dialect, flag: Text, value: Option<Text>, tail: seq<Text>)
    requires IsFlag(flag) && ParseOptions(dialect, tail).Some?
    ensures ParseOptions(dialect, Optional(flag, value) + tail)
         == var later := ParseOptions(dialect, tail);
            if value.Some? then Applied(flag, value.value, later.value) else later
  {
    if value.Some? {
      ParseFlag(dialect, flag, value.value, tail);
    } else {
      assert [] + tail == tail;
    }
  }

  lemma ApplyMemory(n: nat, s: Spec)
    ensures Applied(MEMORY, [] + Megabytes(n), s) == Some(s.(memory := Some(n)))
  {
    MegabytesReadBack(n);
    assert [] + Megabytes(n) == Megabytes(n);
    hide Megabytes, ParseMegabytes;
  }

  lemma ApplyDisk(n: nat, s: Spec)
    ensures Applied(ROOT_DISK, [] + Megabytes(n), s) == Some(s.(disk := Some(n)))
  {
    MegabytesReadBack(n);
    assert [] + Megabytes(n) == Megabytes(n) && Megabytes(n)[0] != TMPFS[0];
    hide Megabytes, ParseMegabytes;
  }

  lemma ApplyTmpfs(n: nat, s: Spec)
    ensures Applied(ROOT_DISK, TMPFS + Megabytes(n), s) == Some(s.(tmpfs := Some(n)))
  {
    MegabytesReadBack(n);
    hide Megabytes, ParseMegabytes;
    assert (TMPFS + Megabytes(n))[|TMPFS|..] == Megabytes(n);
  }

  lemma ApplyPrivate(s: Spec)
    ensures Applied(NET, PRIVATE, s) == Some(s.(networkDisabled := true))
  {
  }

  lemma DisksReadBack(s: Spec)
    requires Printable(s)
    ensures ParseOptions(Running, Disks(s)) == Some(s.(name := [], memory := None))
  {
    hide ParseOptions, Applied, Megabytes, Egress;
    EgressesReadBack(s);
    var network := s.(name := [], memory := None, disk := None, tmpfs := None);
    ApplyPrivate(Listed(s));
    ParseOptional(Running, NET, if s.networkDisabled then Some(PRIVATE) else None, Egress(s));
    assert ParseOptions(Running, Network(s)) == Some(network);
    if s.tmpfs.Some? {
      ApplyTmpfs(s.tmpfs.value, network);
    }
    ParseOptional(Running, ROOT_DISK, InMegabytes(TMPFS, s.tmpfs), Network(s));
    if s.disk.Some? {
      ApplyDisk(s.disk.value, network.(tmpfs := s.tmpfs));
    }
    var tmpfs := Optional(ROOT_DISK, InMegabytes(TMPFS, s.tmpfs));
    ParseOptional(Running, ROOT_DISK, InMegabytes([], s.disk), tmpfs + Network(s));
  }

  lemma OptionsReadBack(s: Spec)
    requires Printable(s)
    ensures ParseOptions(Running, Options(s)) == Some(s.(name := []))
  {
    hide ParseOptions, Applied, Megabytes, Disks;
    DisksReadBack(s);
    if s.memory.Some? {
      ApplyMemory(s.memory.value, s.(name := [], memory := None));
    }
    ParseOptional(Running, MEMORY, InMegabytes([], s.memory), Disks(s));
  }

  /** Whatever the parser returns could have been printed unambiguously. */
  lemma {:induction false} ParsedIsPrintable(dialect: Dialect, args: seq<Text>)
    requires ParseOptions(dialect, args).Some?
    ensures Printable(ParseOptions(dialect, args).value)
    decreases |args|
  {
    if args != [] && IsFlag(args[0]) {
      ParsedIsPrintable(dialect, args[2..]);
      AppliedIsPrintable(args[0], args[1], ParseOptions(dialect, args[2..]).value);
    }
  }

  lemma AppliedIsPrintable(flag: Text, value: Text, s: Spec)
    requires Printable(s) && Applied(flag, value, s).Some?
    ensures Printable(Applied(flag, value, s).value)
  {
    hide ParseMegabytes, ParsePort, ParseEgress;
    if |value| >= 9 {
      AfterLastIsUnmarked(value[..|value| - 9]);
    }
  }

  /** A whole spec reads back from its command line exactly when no key, guest path or image is ambiguous. */
  lemma RunReadsBackExactly(s: Spec)
    ensures Parse(RunArgv(s)) == Some(s) <==> Printable(s)
  {
    hide ParseOptions, Options;
    assert RunArgv(s)[3..] == Options(s);
    if Printable(s) {
      OptionsReadBack(s);
    } else if Parse(RunArgv(s)) == Some(s) {
      ParsedIsPrintable(Running, Options(s));
      assert false;
    }
  }

  // ---- restore reads back --------------------------------------------------------------

  lemma Parts<T>(front: seq<T>, middle: seq<T>, back: seq<T>)
    ensures var s := front + middle + back;
            && front <= s && s[|front|..] == middle + back && s[|front| + |middle|..] == back
            && (forall i :: 0 <= i < |front| ==> s[i] == front[i])
  {
  }

  lemma NotIngress(rest: Text)
    ensures MORE_UDP + rest != INGRESS
  {
    assert (MORE_UDP + rest)[6] == 64 && INGRESS[6] == 58;
  }

  lemma {:induction false} OneMoreUdp(port: nat, tail: Text)
    requires tail != [] && tail[0] == COMMA && ParsePolicyTail(tail).Some?
    ensures ParsePolicyTail(MORE_UDP + DecimalText(port) + tail) == Some([port] + ParsePolicyTail(tail).value)
  {
    var digits := DecimalText(port);
    NumberReadsBack(port);
    NotADigit(port, COMMA);
    Parts(MORE_UDP, digits, tail);
    NotIngress(digits + tail);
    assert MORE_UDP + digits + tail == MORE_UDP + (digits + tail);
    BeforeMark(COMMA, digits, tail);
    hide DecimalText, Number, Before;
  }

  lemma {:induction false} PolicyReadsBack(egress: seq<nat>)
    ensures ParsePolicyTail(PolicyTail(egress)) == Some(egress)
    ensures PolicyTail(egress) != [] && PolicyTail(egress)[0] == COMMA
  {
    if egress == [] {
      assert PolicyTail([]) == INGRESS;
    } else {
      hide ParsePolicyTail, PolicyTail;
      PolicyReadsBack(egress[1..]);
      PolicyFirst(egress);
      OneMoreUdp(egress[0], PolicyTail(egress[1..]));
      assert [egress[0]] + egress[1..] == egress;
    }
  }

  lemma PolicyFirst(egress: seq<nat>)
    requires egress != []
    ensures PolicyTail(egress) == MORE_UDP + DecimalText(egress[0]) + PolicyTail(egress[1..])
  {
    hide DecimalText;
    assert Map((port: nat) => UdpRule(port), egress)[1..] == Map((port: nat) => UdpRule(port), egress[1..]);
  }

  lemma ApplyPolicy(egress: seq<nat>, s: Spec)
    ensures Applied(NET_DEFAULT, DENY, s) == Some(s)
    ensures Applied(NET_RULE, ALLOW_PUBLIC + PolicyTail(egress), s) == Some(s.(egress := egress))
  {
    PolicyReadsBack(egress);
    hide PolicyTail, ParsePolicyTail;
    assert (ALLOW_PUBLIC + PolicyTail(egress))[|ALLOW_PUBLIC|..] == PolicyTail(egress);
  }

  const NOTHING := Bare([], None)

  lemma PolicyArgsReadBack(s: Spec)
    ensures ParseOptions(Restoring, Policy(s.egress)) == Some(NOTHING.(egress := s.egress))
  {
    hide Applied, PolicyTail;
    if s.egress != [] {
      var rule := [NET_RULE, ALLOW_PUBLIC + PolicyTail(s.egress)];
      ApplyPolicy(s.egress, NOTHING);
      ParseFlag(Restoring, NET_RULE, ALLOW_PUBLIC + PolicyTail(s.egress), []);
      assert rule + [] == rule;
      ApplyPolicy([], NOTHING.(egress := s.egress));
      ParseFlag(Restoring, NET_DEFAULT, DENY, rule);
      assert Policy(s.egress) == [NET_DEFAULT, DENY] + rule;
    }
  }

  lemma VolumesReadBack(s: Spec)
    requires forall i :: 0 <= i < |s.mounts| ==> COLON !in s.mounts[i].guest
    ensures ParseOptions(Restoring, Volumes(s)) == Some(NOTHING.(egress := s.egress, mounts := s.mounts))
  {
    hide ParseOptions, Applied, MountSpec, Section, Policy;
    PolicyArgsReadBack(s);
    var base := NOTHING.(egress := s.egress);
    var values := Map((m: Mount) => MountSpec(m), s.mounts);
    var results := seq(|values| + 1, i requires 0 <= i <= |values| => base.(mounts := s.mounts[i..]));
    forall i | 0 <= i < |values| ensures Applied(VOLUME, values[i], results[i + 1]) == Some(results[i]) {
      ApplyMount(s.mounts[i], results[i + 1]);
      assert s.mounts[i..] == [s.mounts[i]] + s.mounts[i + 1..];
    }
    assert s.mounts[|values|..] == [];
    ParseSection(Restoring, VOLUME, values, Policy(s.egress), results);
  }

  lemma RestorePortsReadBack(s: Spec)
    requires forall i :: 0 <= i < |s.mounts| ==> COLON !in s.mounts[i].guest
    ensures ParseOptions(Restoring, RestorePorts(s))
         == Some(NOTHING.(egress := s.egress, mounts := s.mounts, ports := s.ports))
  {
    hide ParseOptions, Applied, PortFlagValue, Section, Volumes;
    VolumesReadBack(s);
    var base := NOTHING.(egress := s.egress, mounts := s.mounts);
    var values := Map((p: Port) => PortFlagValue(p), s.ports);
    var results := seq(|values| + 1, i requires 0 <= i <= |values| => base.(ports := s.ports[i..]));
    forall i | 0 <= i < |values| ensures Applied(PUBLISH, values[i], results[i + 1]) == Some(results[i]) {
      ApplyPort(s.ports[i], results[i + 1]);
      assert s.ports[i..] == [s.ports[i]] + s.ports[i + 1..];
    }
    assert s.ports[|values|..] == [];
    ParseSection(Restoring, PUBLISH, values, Volumes(s), results);
  }

  /** What a restore carries over. */
  function Carried(s: Spec): Spec {
    NOTHING.(name := s.name, memory := s.memory, egress := s.egress, ports := s.ports, mounts := s.mounts)
  }

  /**
   A restore's snapshot path, name, memory, ports, mounts and egress ports read back from its
   command line exactly when no guest path holds a colon.
  */
  lemma RestoreReadsBackExactly(s: Spec, path: Text)
    ensures ParseRestore(RestoreArgv(s, path)) == Some((path, Carried(s)))
       <==> forall i :: 0 <= i < |s.mounts| ==> COLON !in s.mounts[i].guest
  {
    hide ParseOptions, RestorePorts, Applied, Megabytes;
    assert RestoreArgv(s, path)[4..] == RestoreOptions(s);
    if forall i :: 0 <= i < |s.mounts| ==> COLON !in s.mounts[i].guest {
      RestorePortsReadBack(s);
      if s.memory.Some? {
        ApplyMemory(s.memory.value, NOTHING.(egress := s.egress, mounts := s.mounts, ports := s.ports));
      }
      ParseOptional(Restoring, MEMORY, InMegabytes([], s.memory), RestorePorts(s));
    } else if ParseRestore(RestoreArgv(s, path)) == Some((path, Carried(s))) {
      ParsedIsPrintable(Restoring, RestoreOptions(s));
      assert false;
    }
  }
}
