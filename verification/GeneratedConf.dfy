/** The configuration files a boot writes, and what the wrapper's own readers find in them. */
module GeneratedConf {
  import opened Wrappers
  import opened Text
  import opened Decimal
  import opened ConfText
  import BootRole

  datatype SentinelConfig = SentinelConfig(base: BootRole.Config, port: nat, masterName: string, quorum: nat,
                                           redisPassword: string, downAfterMs: nat, failoverTimeoutMs: nat,
                                           rebootDownAfterMs: nat)

  function InitialMasterPort(cfg: BootRole.Config): nat {
    if BootRole.IsPrimary(cfg) then cfg.redisPort
    else
      var parts := SplitOn(cfg.replicaOf, ':');
      var port := if |parts| > 1 then ParseUnsigned(parts[1], U16_MAX) else None;
      if port.Some? then port.value else cfg.redisPort
  }

  /** The address the fresh Sentinel monitors. */
  function MasterAddress(cfg: BootRole.Config, master: BootRole.BootMaster): (string, int) {
    match master
    case SelfIsMaster => (cfg.privateDomain, cfg.redisPort)
    case ReplicaOf(host, port) => (host, port)
    case NoLocalState => (BootRole.InitialMasterHost(cfg), InitialMasterPort(cfg))
  }

  function KnownSentinelLine(masterName: string, a: (string, nat)): string {
    SentinelDirective("known-sentinel", Directive(masterName, Directive(a.0, Digits(a.1))))
  }

  function KnownSentinel(masterName: string, entry: string): seq<string> {
    var a := BootRole.HostPort(Trim(entry));
    if a.Some? then [KnownSentinelLine(masterName, a.value)] else []
  }

  function KnownSentinels(masterName: string, entries: seq<string>): seq<string> {
    if entries == [] then []
    else KnownSentinels(masterName, entries[..|entries| - 1]) + KnownSentinel(masterName, entries[|entries| - 1])
  }

  function AuthLines(sentinelPassword: string): seq<string> {
    if sentinelPassword == "" then [] else AuthPair(Quote(sentinelPassword))
  }

  function AuthPair(quoted: string): seq<string> {
    [Directive("requirepass", quoted), SentinelDirective("sentinel-pass", quoted)]
  }

  function PortLines(cfg: SentinelConfig): seq<string> {
    [Directive("port", Digits(cfg.port)), Directive("daemonize", "no"), Directive("logfile", "\"\""),
     Directive("loglevel", "notice")]
  }

  function AnnounceLines(cfg: SentinelConfig): seq<string> {
    [SentinelDirective("resolve-hostnames", "yes"), SentinelDirective("announce-hostnames", "yes"),
     SentinelDirective("announce-ip", cfg.base.privateDomain), SentinelDirective("announce-port", Digits(cfg.port))]
  }

  function MonitorLine(cfg: SentinelConfig, a: (string, nat)): string {
    SentinelDirective("monitor", Directive(cfg.masterName, Directive(a.0, Directive(Digits(a.1), Digits(cfg.quorum)))))
  }

  function AuthPassLine(cfg: SentinelConfig): string {
    SentinelDirective("auth-pass", Directive(cfg.masterName, Quote(cfg.redisPassword)))
  }

  function RebootLine(cfg: SentinelConfig): string {
    SentinelDirective("master-reboot-down-after-period", Directive(cfg.masterName, Digits(cfg.rebootDownAfterMs)))
  }

  function TimingLines(cfg: SentinelConfig): seq<string> {
    [SentinelDirective("down-after-milliseconds", Directive(cfg.masterName, Digits(cfg.downAfterMs))),
     SentinelDirective("failover-timeout", Directive(cfg.masterName, Digits(cfg.failoverTimeoutMs))),
     SentinelDirective("parallel-syncs", Directive(cfg.masterName, "1")),
     RebootLine(cfg)]
  }

  function PeerLines(cfg: SentinelConfig): seq<string> {
    KnownSentinels(cfg.masterName, SplitOn(cfg.base.sentinelHosts, ','))
  }

  function TailLines(cfg: SentinelConfig): seq<string> {
    [AuthPassLine(cfg)] + (TimingLines(cfg) + PeerLines(cfg))
  }

  function SentinelLines(cfg: SentinelConfig, a: (string, nat), sentinelPassword: string): seq<string> {
    PortLines(cfg) + AuthLines(sentinelPassword) + AnnounceLines(cfg) + [MonitorLine(cfg, a)] + TailLines(cfg)
  }

  /** Without a password no line asks for one; with one the same password protects this Sentinel and
    * is what it dials others with. */
  lemma AuthLinesAre(password: string)
    ensures AuthLines(password)
            == if password == "" then []
               else ["requirepass " + Quote(password), "sentinel " + ("sentinel-pass " + Quote(password))]
  {
    assert "requirepass" + " " == "requirepass " && "sentinel-pass" + " " == "sentinel-pass ";
    assert "sentinel" + " " == "sentinel ";
  }

  lemma OneMorePeer(masterName: string, peers: seq<string>, n: nat)
    requires n < |peers|
    ensures KnownSentinels(masterName, peers[..n + 1])
            == KnownSentinels(masterName, peers[..n]) + KnownSentinel(masterName, peers[n])
  {
    assert peers[..n + 1][..n] == peers[..n];
  }

  method AppendKnownSentinels(fixed: seq<string>, masterName: string, peers: seq<string>) returns (lines: seq<string>)
    ensures lines == fixed + KnownSentinels(masterName, peers)
  {
    lines := fixed;
    for i := 0 to |peers|
      invariant lines == fixed + KnownSentinels(masterName, peers[..i])
    {
      OneMorePeer(masterName, peers, i);
      Regroup(fixed, KnownSentinels(masterName, peers[..i]), KnownSentinel(masterName, peers[i]));
      var a := BootRole.HostPort(Trim(peers[i]));
      if a.Some? {
        lines := lines + [KnownSentinelLine(masterName, a.value)];
      }
    }
    assert peers[..|peers|] == peers;
  }

  lemma RegroupLines(head: seq<string>, line: string, timing: seq<string>, peers: seq<string>)
    ensures head + [line] + timing + peers == head + ([line] + (timing + peers))
  {
  }

  method GenerateSentinelConf(cfg: SentinelConfig, master: BootRole.BootMaster, sentinelPassword: string)
    returns (conf: string)
    requires MasterAddress(cfg.base, master).1 >= 0
    ensures conf == Render(SentinelLines(cfg, MasterAddress(cfg.base, master), sentinelPassword))
  {
    var lines := PortLines(cfg);
    if sentinelPassword != "" {
      var quoted := QuoteConfValue(sentinelPassword);
      lines := lines + AuthPair(quoted);
    }
    assert lines == PortLines(cfg) + AuthLines(sentinelPassword);
    lines := lines + AnnounceLines(cfg);
    lines := lines + [MonitorLine(cfg, MasterAddress(cfg.base, master))];
    ghost var head := lines;
    lines := lines + [AuthPassLine(cfg)];
    lines := lines + TimingLines(cfg);
    lines := AppendKnownSentinels(lines, cfg.masterName, SplitOn(cfg.base.sentinelHosts, ','));
    RegroupLines(head, AuthPassLine(cfg), TimingLines(cfg), PeerLines(cfg));
    conf := Render(lines);
  }

  /** Sentinel monitors the very master that redis.conf replicates from; a node that replicates
    * from nobody, as the master its state or the deployment makes it, monitors itself. */
  lemma MonitorsTheSource(cfg: BootRole.Config, master: BootRole.BootMaster)
    ensures var source := BootRole.ReplicateFrom(cfg, master);
            && (source.Some? ==> MasterAddress(cfg, master) == source.value)
            && (source.None? && (master.SelfIsMaster? || cfg.replicaOf == "") ==>
                  MasterAddress(cfg, master) == (cfg.privateDomain, cfg.redisPort))
  {
    var source := BootRole.ReplicateFrom(cfg, master);
    if master.NoLocalState? && source.Some? {
      var n := IndexOf(cfg.replicaOf, ':');
      NumberHasNoColon(cfg.replicaOf[n + 1..]);
    }
  }

  lemma NumberHasNoColon(s: string)
    requires ParseUnsigned(s, U16_MAX).Some?
    ensures SplitOn(s, ':') == [s]
  {
    var digits := if |s| > 1 && s[0] == '+' then s[1..] else s;
    forall i | 0 <= i < |s|
      ensures s[i] != ':'
    {
      assert s[i] == '+' || s[i] in digits;
      assert forall c | c in digits :: IsDigit(c);
      assert s[i] in digits ==> IsDigit(s[i]);
    }
    assert ':' !in s;
    assert IndexOf(s, ':') == |s|;
  }

  // ----- lines the readers pass over -------------------------------------------------

  /** A line none of the three readers takes anything from. */
  predicate Silent(line: string, masterName: string) {
    !NamesMaster(line, masterName) && AuthPassIn(line, masterName).None? && !SetsPassword(line)
  }

  lemma OtherKeyIsSilent(key: string, value: string, masterName: string)
    requires key != "" && NoSpace(key) && Visible(value)
    requires !SameIgnoringCase(key, "sentinel") && !SameIgnoringCase(key, "requirepass")
    ensures Silent(Directive(key, value), masterName)
  {
    FirstFieldOfDirective(key, value);
    WordsOfDirective(key, value);
  }

  lemma OtherOptionIsSilent(option: string, value: string, masterName: string)
    requires option != "" && NoSpace(option) && Visible(value)
    requires !SameIgnoringCase(option, "monitor") && !SameIgnoringCase(option, "auth-pass")
    ensures Silent(SentinelDirective(option, value), masterName)
  {
    var rest := Directive(option, value);
    assert option[0] in option;
    FirstFieldOfDirective(option, value);
    FirstFieldOfDirective("sentinel", rest);
    WordsOfDirective(option, value);
    WordsOfDirective("sentinel", rest);
  }

  /** No `sentinel` directive sets the password. */
  lemma OptionSetsNoPassword(option: string, value: string)
    ensures !SetsPassword(SentinelDirective(option, value))
  {
    WordsOfDirective("sentinel", Directive(option, value));
  }

  ghost predicate AllSilent(lines: seq<string>, masterName: string) {
    forall i | 0 <= i < |lines| :: Silent(lines[i], masterName)
  }

  ghost predicate NoneSetsPassword(lines: seq<string>) {
    forall i | 0 <= i < |lines| :: !SetsPassword(lines[i])
  }

  lemma DigitsArePrintable(n: nat)
    ensures Visible(Digits(n)) && NoSpace(Digits(n)) && '\n' !in Digits(n)
  {
    var d := Digits(n);
    assert d[0] in d && d[|d| - 1] in d;
  }

  lemma FourAreSilent(a: string, b: string, c: string, d: string, masterName: string)
    requires Silent(a, masterName) && Silent(b, masterName) && Silent(c, masterName) && Silent(d, masterName)
    ensures AllSilent([a, b, c, d], masterName)
  {
  }

  lemma PortIsSilent(n: nat, masterName: string)
    ensures Silent(Directive("port", Digits(n)), masterName)
  {
    DigitsArePrintable(n);
    OtherKeyIsSilent("port", Digits(n), masterName);
  }

  lemma DaemonizeIsSilent(masterName: string)
    ensures Silent(Directive("daemonize", "no"), masterName)
  {
    OtherKeyIsSilent("daemonize", "no", masterName);
  }

  lemma LogfileIsSilent(masterName: string)
    ensures Silent(Directive("logfile", "\"\""), masterName)
  {
    OtherKeyIsSilent("logfile", "\"\"", masterName);
  }

  lemma LoglevelIsSilent(masterName: string)
    ensures Silent(Directive("loglevel", "notice"), masterName)
  {
    assert Lower("loglevel"[0]) != Lower("sentinel"[0]);
    OtherKeyIsSilent("loglevel", "notice", masterName);
  }

  lemma PortLinesAreSilent(cfg: SentinelConfig)
    ensures AllSilent(PortLines(cfg), cfg.masterName)
  {
    PortIsSilent(cfg.port, cfg.masterName);
    DaemonizeIsSilent(cfg.masterName);
    LogfileIsSilent(cfg.masterName);
    LoglevelIsSilent(cfg.masterName);
    FourAreSilent(Directive("port", Digits(cfg.port)), Directive("daemonize", "no"), Directive("logfile", "\"\""),
                  Directive("loglevel", "notice"), cfg.masterName);
  }

  lemma ResolveIsSilent(masterName: string)
    ensures Silent(SentinelDirective("resolve-hostnames", "yes"), masterName)
  {
    OtherOptionIsSilent("resolve-hostnames", "yes", masterName);
  }

  lemma AnnounceIsSilent(masterName: string)
    ensures Silent(SentinelDirective("announce-hostnames", "yes"), masterName)
  {
    OtherOptionIsSilent("announce-hostnames", "yes", masterName);
  }

  lemma AnnounceIpIsSilent(domain: string, masterName: string)
    requires domain != "" && NoSpace(domain)
    ensures Silent(SentinelDirective("announce-ip", domain), masterName)
  {
    OtherOptionIsSilent("announce-ip", domain, masterName);
  }

  lemma AnnouncePortIsSilent(n: nat, masterName: string)
    ensures Silent(SentinelDirective("announce-port", Digits(n)), masterName)
  {
    DigitsArePrintable(n);
    OtherOptionIsSilent("announce-port", Digits(n), masterName);
  }

  lemma AnnounceLinesAreSilent(cfg: SentinelConfig)
    requires cfg.base.privateDomain != "" && NoSpace(cfg.base.privateDomain)
    ensures AllSilent(AnnounceLines(cfg), cfg.masterName)
  {
    ResolveIsSilent(cfg.masterName);
    AnnounceIsSilent(cfg.masterName);
    AnnounceIpIsSilent(cfg.base.privateDomain, cfg.masterName);
    AnnouncePortIsSilent(cfg.port, cfg.masterName);
    FourAreSilent(SentinelDirective("resolve-hostnames", "yes"), SentinelDirective("announce-hostnames", "yes"),
                  SentinelDirective("announce-ip", cfg.base.privateDomain),
                  SentinelDirective("announce-port", Digits(cfg.port)), cfg.masterName);
  }

  lemma SentinelPassIsSilent(password: string, masterName: string)
    ensures Silent(SentinelDirective("sentinel-pass", Quote(password)), masterName)
  {
    var q := Quote(password);
    assert q[0] == '"' && q[|q| - 1] == '"';
    OtherOptionIsSilent("sentinel-pass", q, masterName);
  }

  /** The auth lines name no master and carry no `auth-pass`. */
  lemma AuthLinesNameNothing(password: string, masterName: string)
    ensures NoneNamesMaster(AuthLines(password), masterName) && NoneHasAuthPass(AuthLines(password), masterName)
  {
    SentinelPassIsSilent(password, masterName);
    TwoNameNothing(Directive("requirepass", Quote(password)), SentinelDirective("sentinel-pass", Quote(password)),
                   masterName);
  }

  lemma TwoNameNothing(a: string, b: string, masterName: string)
    requires !NamesMaster(a, masterName) && AuthPassIn(a, masterName).None? && Silent(b, masterName)
    ensures NoneNamesMaster([a, b], masterName) && NoneHasAuthPass([a, b], masterName)
  {
  }

  ghost predicate NoneNamesMaster(lines: seq<string>, masterName: string) {
    forall i | 0 <= i < |lines| :: !NamesMaster(lines[i], masterName)
  }

  ghost predicate NoneHasAuthPass(lines: seq<string>, masterName: string) {
    forall i | 0 <= i < |lines| :: AuthPassIn(lines[i], masterName).None?
  }

  // ----- every line comes back as written -------------------------------------------------

  predicate WellFormedNames(cfg: SentinelConfig) {
    && cfg.masterName != "" && NoSpace(cfg.masterName)
    && cfg.base.privateDomain != "" && NoSpace(cfg.base.privateDomain)
    && '\n' !in cfg.base.sentinelHosts
    && '\n' !in cfg.redisPassword
  }

  lemma DirectiveStays(key: string, value: string)
    requires '\n' !in key && Stable(value)
    ensures Stable(Directive(key, value))
  {
  }

  lemma OptionStays(option: string, value: string)
    requires '\n' !in option && Stable(value)
    ensures Stable(SentinelDirective(option, value))
  {
    DirectiveStays(option, value);
    DirectiveStays("sentinel", Directive(option, value));
  }

  lemma NoSpaceStays(s: string)
    requires NoSpace(s)
    ensures Stable(s)
  {
    if s != "" {
      assert s[|s| - 1] in s;
    }
  }

  lemma HeadStays(cfg: SentinelConfig, password: string)
    requires WellFormedNames(cfg) && '\n' !in password
    ensures AllStable(PortLines(cfg)) && AllStable(AuthLines(password)) && AllStable(AnnounceLines(cfg))
  {
    DigitsArePrintable(cfg.port);
    NoSpaceStays(Digits(cfg.port));
    NoSpaceStays(cfg.base.privateDomain);
    DirectiveStays("port", Digits(cfg.port));
    QuoteIsStable(password);
    DirectiveStays("requirepass", Quote(password));
    OptionStays("sentinel-pass", Quote(password));
    OptionStays("announce-ip", cfg.base.privateDomain);
    OptionStays("announce-port", Digits(cfg.port));
  }

  lemma TimingStays(cfg: SentinelConfig)
    requires WellFormedNames(cfg)
    ensures AllStable(TimingLines(cfg))
  {
    RebootStays(cfg);
  }

  lemma RebootStays(cfg: SentinelConfig)
    requires WellFormedNames(cfg)
    ensures Stable(RebootLine(cfg))
  {
  }

  lemma MonitorStays(cfg: SentinelConfig, a: (string, nat))
    requires WellFormedNames(cfg) && NoSpace(a.0)
    ensures Stable(MonitorLine(cfg, a)) && Stable(AuthPassLine(cfg))
  {
    DigitsArePrintable(a.1);
    DigitsArePrintable(cfg.quorum);
    NoSpaceStays(Digits(cfg.quorum));
    NoSpaceStays(a.0);
    NoSpaceStays(cfg.masterName);
    var port := Directive(Digits(a.1), Digits(cfg.quorum));
    DirectiveStays(Digits(a.1), Digits(cfg.quorum));
    DirectiveStays(a.0, port);
    DirectiveStays(cfg.masterName, Directive(a.0, port));
    OptionStays("monitor", Directive(cfg.masterName, Directive(a.0, port)));
    QuoteIsStable(cfg.redisPassword);
    DirectiveStays(cfg.masterName, Quote(cfg.redisPassword));
    OptionStays("auth-pass", Directive(cfg.masterName, Quote(cfg.redisPassword)));
  }

  lemma {:induction false} TrimHasNo(s: string, c: char)
    requires c !in s
    ensures c !in Trim(s)
  {
    TrimStartHasNo(s, c);
    TrimEndHasNo(TrimStart(s), c);
  }

  lemma {:induction false} TrimStartHasNo(s: string, c: char)
    requires c !in s
    ensures c !in TrimStart(s)
  {
    if s != "" && IsSpace(s[0]) {
      TrimStartHasNo(s[1..], c);
    }
  }

  lemma {:induction false} TrimEndHasNo(s: string, c: char)
    requires c !in s
    ensures c !in TrimEnd(s)
  {
    if s != "" && IsSpace(s[|s| - 1]) {
      TrimEndHasNo(s[..|s| - 1], c);
    }
  }

  lemma KnownSentinelStays(masterName: string, entry: string)
    requires NoSpace(masterName) && '\n' !in entry
    ensures AllStable(KnownSentinel(masterName, entry)) && NoneSetsPassword(KnownSentinel(masterName, entry))
  {
    TrimHasNo(entry, '\n');
    var a := BootRole.HostPort(Trim(entry));
    if a.Some? {
      assert forall c | c in a.value.0 :: c in Trim(entry);
      DigitsArePrintable(a.value.1);
      NoSpaceStays(Digits(a.value.1));
      NoSpaceStays(masterName);
      DirectiveStays(a.value.0, Digits(a.value.1));
      DirectiveStays(masterName, Directive(a.value.0, Digits(a.value.1)));
      OptionStays("known-sentinel", Directive(masterName, Directive(a.value.0, Digits(a.value.1))));
      OptionSetsNoPassword("known-sentinel", Directive(masterName, Directive(a.value.0, Digits(a.value.1))));
    }
  }

  lemma {:induction false} KnownSentinelsStay(masterName: string, entries: seq<string>)
    requires NoSpace(masterName) && forall i | 0 <= i < |entries| :: '\n' !in entries[i]
    ensures AllStable(KnownSentinels(masterName, entries)) && NoneSetsPassword(KnownSentinels(masterName, entries))
  {
    if entries != [] {
      KnownSentinelsStay(masterName, entries[..|entries| - 1]);
      KnownSentinelStays(masterName, entries[|entries| - 1]);
    }
  }

  lemma {:induction false} SplitHasNo(s: string, separator: char, c: char)
    requires c !in s
    ensures forall i | 0 <= i < |SplitOn(s, separator)| :: c !in SplitOn(s, separator)[i]
    decreases |s|
  {
    var n := IndexOf(s, separator);
    if n < |s| {
      SplitHasNo(s[n + 1..], separator, c);
    }
  }

  /** The file reads back line by line. */
  lemma ReadsBackAsWritten(cfg: SentinelConfig, a: (string, nat), password: string)
    requires WellFormedNames(cfg) && NoSpace(a.0) && '\n' !in password
    ensures Lines(Render(SentinelLines(cfg, a, password))) == SentinelLines(cfg, a, password)
  {
    HeadStays(cfg, password);
    MonitorStays(cfg, a);
    TimingStays(cfg);
    SplitHasNo(cfg.base.sentinelHosts, ',', '\n');
    KnownSentinelsStay(cfg.masterName, SplitOn(cfg.base.sentinelHosts, ','));
    var lines := SentinelLines(cfg, a, password);
    assert AllStable(lines);
    LinesOfRender(lines);
  }

  // ----- what the readers find ------------------------------------------------------------------

  lemma {:induction false} MonitorFound(before: seq<string>, line: string, after: seq<string>, masterName: string)
    requires NamesMaster(line, masterName)
    requires NoneNamesMaster(before, masterName)
    ensures ParseSentinelMonitor(before + [line] + after, masterName) == ParseSentinelMonitor([line], masterName)
  {
    var lines := before + [line] + after;
    if before == [] {
      assert lines[0] == line;
    } else {
      assert lines[0] == before[0] && lines[1..] == before[1..] + [line] + after;
      MonitorFound(before[1..], line, after, masterName);
    }
  }

  lemma {:induction false} AuthPassFound(before: seq<string>, line: string, after: seq<string>, masterName: string)
    requires AuthPassIn(line, masterName).Some?
    requires NoneHasAuthPass(before, masterName)
    ensures ConfAuthPass(before + [line] + after, masterName) == AuthPassIn(line, masterName)
  {
    var lines := before + [line] + after;
    if before == [] {
      assert lines[0] == line;
    } else {
      assert lines[0] == before[0] && lines[1..] == before[1..] + [line] + after;
      AuthPassFound(before[1..], line, after, masterName);
    }
  }

  lemma WordsOfAddress(name: string, host: string, port: nat, quorum: nat)
    requires name != "" && NoSpace(name) && host != "" && NoSpace(host)
    ensures Words(Directive(name, Directive(host, Directive(Digits(port), Digits(quorum)))))
            == [name, host, Digits(port), Digits(quorum)]
  {
    DigitsArePrintable(port);
    DigitsArePrintable(quorum);
    WordsOfLast(Digits(quorum));
    WordsOfDirective(Digits(port), Digits(quorum));
    WordsOfDirective(host, Directive(Digits(port), Digits(quorum)));
    WordsOfDirective(name, Directive(host, Directive(Digits(port), Digits(quorum))));
  }

  lemma MonitorLineReads(cfg: SentinelConfig, a: (string, nat))
    requires cfg.masterName != "" && NoSpace(cfg.masterName) && a.0 != "" && NoSpace(a.0) && a.1 <= U16_MAX
    ensures NamesMaster(MonitorLine(cfg, a), cfg.masterName)
    ensures ParseSentinelMonitor([MonitorLine(cfg, a)], cfg.masterName) == Some(a)
  {
    WordsOfAddress(cfg.masterName, a.0, a.1, cfg.quorum);
    WordsOfOption("monitor", Directive(cfg.masterName, Directive(a.0, Directive(Digits(a.1), Digits(cfg.quorum)))));
    ParseOfDigits(a.1, U16_MAX);
  }

  lemma MonitorFoundIn(ports: seq<string>, auth: seq<string>, announce: seq<string>, line: string, rest: seq<string>,
                       masterName: string)
    requires AllSilent(ports, masterName) && NoneNamesMaster(auth, masterName) && AllSilent(announce, masterName)
    requires NamesMaster(line, masterName)
    ensures ParseSentinelMonitor(ports + auth + announce + [line] + rest, masterName)
            == ParseSentinelMonitor([line], masterName)
  {
    MonitorFound(ports + auth + announce, line, rest, masterName);
  }

  lemma AuthPassFoundIn(ports: seq<string>, auth: seq<string>, announce: seq<string>, monitor: string, line: string,
                        rest: seq<string>, masterName: string)
    requires AllSilent(ports, masterName) && NoneHasAuthPass(auth, masterName) && AllSilent(announce, masterName)
    requires AuthPassIn(monitor, masterName).None? && AuthPassIn(line, masterName).Some?
    ensures ConfAuthPass(ports + auth + announce + [monitor] + [line] + rest, masterName)
            == AuthPassIn(line, masterName)
  {
    AuthPassFound(ports + auth + announce + [monitor], line, rest, masterName);
  }

  /** The monitor line is the first one that names the master set: the wrapper's own parser
    * gets back the address this boot resolved. */
  lemma MonitorReadsBack(cfg: SentinelConfig, a: (string, nat), password: string)
    requires WellFormedNames(cfg) && a.0 != "" && NoSpace(a.0) && a.1 <= U16_MAX && '\n' !in password
    ensures ParseSentinelMonitor(Lines(Render(SentinelLines(cfg, a, password))), cfg.masterName) == Some(a)
  {
    ReadsBackAsWritten(cfg, a, password);
    PortLinesAreSilent(cfg);
    AuthLinesNameNothing(password, cfg.masterName);
    AnnounceLinesAreSilent(cfg);
    MonitorLineReads(cfg, a);
    MonitorFoundIn(PortLines(cfg), AuthLines(password), AnnounceLines(cfg), MonitorLine(cfg, a), TailLines(cfg),
                   cfg.masterName);
  }

  lemma AuthPassLineReads(cfg: SentinelConfig)
    requires cfg.masterName != "" && NoSpace(cfg.masterName)
    ensures AuthPassIn(AuthPassLine(cfg), cfg.masterName) == Some(cfg.redisPassword)
  {
    var q := Quote(cfg.redisPassword);
    assert q[0] == '"' && q[|q| - 1] == '"' && Visible(q);
    var name := Directive(cfg.masterName, q);
    FirstFieldOfDirective(cfg.masterName, q);
    FirstFieldOfDirective("auth-pass", name);
    FirstFieldOfDirective("sentinel", Directive("auth-pass", name));
    TrimIsIdentity(q);
    UnquoteQuote(cfg.redisPassword);
  }

  lemma MonitorIsNoAuthPass(cfg: SentinelConfig, a: (string, nat))
    requires cfg.masterName != "" && NoSpace(cfg.masterName)
    ensures AuthPassIn(MonitorLine(cfg, a), cfg.masterName).None?
  {
    DigitsArePrintable(cfg.quorum);
    var name := Directive(cfg.masterName, Directive(a.0, Directive(Digits(a.1), Digits(cfg.quorum))));
    FirstFieldOfDirective("monitor", name);
    FirstFieldOfDirective("sentinel", Directive("monitor", name));
  }

  /** The reconcile loop reads the data password back from the fresh file. */
  lemma AuthPassReadsBack(cfg: SentinelConfig, a: (string, nat), password: string)
    requires WellFormedNames(cfg) && a.0 != "" && NoSpace(a.0) && '\n' !in password
    ensures ConfAuthPass(Lines(Render(SentinelLines(cfg, a, password))), cfg.masterName) == Some(cfg.redisPassword)
  {
    ReadsBackAsWritten(cfg, a, password);
    PortLinesAreSilent(cfg);
    AuthLinesNameNothing(password, cfg.masterName);
    AnnounceLinesAreSilent(cfg);
    AuthPassLineReads(cfg);
    MonitorIsNoAuthPass(cfg, a);
    AuthPassFoundIn(PortLines(cfg), AuthLines(password), AnnounceLines(cfg), MonitorLine(cfg, a), AuthPassLine(cfg),
                    TimingLines(cfg) + PeerLines(cfg), cfg.masterName);
    RegroupTail(PortLines(cfg) + AuthLines(password) + AnnounceLines(cfg) + [MonitorLine(cfg, a)], AuthPassLine(cfg),
                TimingLines(cfg), PeerLines(cfg));
  }

  lemma RegroupTail(head: seq<string>, line: string, timing: seq<string>, peers: seq<string>)
    ensures head + [line] + (timing + peers) == head + ([line] + (timing + peers))
  {
  }

  lemma RestSetsNoPassword(cfg: SentinelConfig, a: (string, nat))
    requires WellFormedNames(cfg)
    ensures NoneSetsPassword(PortLines(cfg)) && NoneSetsPassword(AnnounceLines(cfg))
    ensures NoneSetsPassword(TimingLines(cfg))
    ensures !SetsPassword(MonitorLine(cfg, a)) && !SetsPassword(AuthPassLine(cfg))
  {
    PortLinesAreSilent(cfg);
    AnnounceLinesAreSilent(cfg);
    OptionSetsNoPassword("monitor",
                         Directive(cfg.masterName, Directive(a.0, Directive(Digits(a.1), Digits(cfg.quorum)))));
    OptionSetsNoPassword("auth-pass", Directive(cfg.masterName, Quote(cfg.redisPassword)));
    OptionSetsNoPassword("down-after-milliseconds", Directive(cfg.masterName, Digits(cfg.downAfterMs)));
    OptionSetsNoPassword("failover-timeout", Directive(cfg.masterName, Digits(cfg.failoverTimeoutMs)));
    OptionSetsNoPassword("parallel-syncs", Directive(cfg.masterName, "1"));
    OptionSetsNoPassword("master-reboot-down-after-period", Directive(cfg.masterName, Digits(cfg.rebootDownAfterMs)));
  }

  lemma AuthLinesSet(password: string)
    ensures (exists i :: 0 <= i < |AuthLines(password)| && SetsPassword(AuthLines(password)[i]))
            <==> password != "" && !IsSpace(password[0])
  {
    RequirepassLineSets(password);
    OptionSetsNoPassword("sentinel-pass", Quote(password));
    if password != "" {
      assert AuthLines(password)[0] == Directive("requirepass", Quote(password));
    }
  }

  /** A fresh file is taken to require auth exactly when its password is not empty and does
    * not start with whitespace; for a password that does, the file enforces one and every
    * local client is told that it does not. */
  lemma RequiresAuthIff(cfg: SentinelConfig, a: (string, nat), password: string)
    requires WellFormedNames(cfg) && NoSpace(a.0) && '\n' !in password
    ensures ConfRequiresAuth(Lines(Render(SentinelLines(cfg, a, password))))
            <==> password != "" && !IsSpace(password[0])
  {
    ReadsBackAsWritten(cfg, a, password);
    RestSetsNoPassword(cfg, a);
    SplitHasNo(cfg.base.sentinelHosts, ',', '\n');
    KnownSentinelsStay(cfg.masterName, SplitOn(cfg.base.sentinelHosts, ','));
    AuthLinesSet(password);
    OnlyAuthLinesCount(PortLines(cfg), AuthLines(password), AnnounceLines(cfg), MonitorLine(cfg, a), AuthPassLine(cfg),
                       TimingLines(cfg), PeerLines(cfg));
  }

  lemma OnlyAuthLinesCount(ports: seq<string>, auth: seq<string>, announce: seq<string>, monitor: string, pass: string,
                           timing: seq<string>, peers: seq<string>)
    requires NoneSetsPassword(ports) && NoneSetsPassword(announce)
    requires NoneSetsPassword(timing) && NoneSetsPassword(peers)
    requires !SetsPassword(monitor) && !SetsPassword(pass)
    ensures ConfRequiresAuth(ports + auth + announce + [monitor] + ([pass] + (timing + peers)))
            <==> exists i :: 0 <= i < |auth| && SetsPassword(auth[i])
  {
    var rest := announce + [monitor] + ([pass] + (timing + peers));
    assert NoneSetsPassword(rest);
    assert ports + auth + announce + [monitor] + ([pass] + (timing + peers)) == ports + auth + rest;
    OnlyMiddleCounts(ports, auth, rest);
  }

  lemma OnlyMiddleCounts(before: seq<string>, auth: seq<string>, after: seq<string>)
    requires NoneSetsPassword(before) && NoneSetsPassword(after)
    ensures ConfRequiresAuth(before + auth + after) <==> exists i :: 0 <= i < |auth| && SetsPassword(auth[i])
  {
    var lines := before + auth + after;
    if i :| 0 <= i < |auth| && SetsPassword(auth[i]) {
      assert lines[|before| + i] == auth[i];
    }
    if k :| 0 <= k < |lines| && SetsPassword(lines[k]) {
      assert |before| <= k < |before| + |auth|;
      assert SetsPassword(auth[k - |before|]);
    }
  }

  // ----- what Sentinel reads in the file -----------------------------------------------------

  /** Some line of the file consists of these words. */
  ghost predicate Says(lines: seq<string>, words: seq<string>) {
    exists i :: 0 <= i < |lines| && Words(lines[i]) == words
  }

  lemma SaysAnyhow(before: seq<string>, lines: seq<string>, after: seq<string>, words: seq<string>)
    requires Says(lines, words)
    ensures Says(before + lines + after, words)
  {
    var i :| 0 <= i < |lines| && Words(lines[i]) == words;
    assert (before + lines + after)[|before| + i] == lines[i];
  }

  lemma OptionReads(option: string, value: string)
    requires option != "" && NoSpace(option) && value != "" && NoSpace(value)
    ensures Words(SentinelDirective(option, value)) == ["sentinel", option, value]
  {
    WordsOfLast(value);
    WordsOfOption(option, value);
  }

  lemma NumberReads(option: string, name: string, value: nat)
    requires option != "" && NoSpace(option) && name != "" && NoSpace(name)
    ensures Words(SentinelDirective(option, Directive(name, Digits(value))))
            == ["sentinel", option, name, Digits(value)]
    ensures ParseUnsigned(Digits(value), value) == Some(value)
  {
    DigitsArePrintable(value);
    ParseOfDigits(value, value);
    WordsOfLast(Digits(value));
    WordsOfDirective(name, Digits(value));
    WordsOfOption(option, Directive(name, Digits(value)));
  }

  lemma MonitorSays(cfg: SentinelConfig, a: (string, nat))
    requires cfg.masterName != "" && NoSpace(cfg.masterName) && a.0 != "" && NoSpace(a.0)
    ensures Words(MonitorLine(cfg, a))
            == ["sentinel", "monitor"] + [cfg.masterName, a.0, Digits(a.1), Digits(cfg.quorum)]
  {
    WordsOfAddress(cfg.masterName, a.0, a.1, cfg.quorum);
    WordsOfOption("monitor", Directive(cfg.masterName, Directive(a.0, Directive(Digits(a.1), Digits(cfg.quorum)))));
  }

  lemma DownAfterSays(cfg: SentinelConfig)
    requires cfg.masterName != "" && NoSpace(cfg.masterName)
    ensures Says(TimingLines(cfg), ["sentinel", "down-after-milliseconds", cfg.masterName, Digits(cfg.downAfterMs)])
  {
    NumberReads("down-after-milliseconds", cfg.masterName, cfg.downAfterMs);
    assert TimingLines(cfg)[0]
           == SentinelDirective("down-after-milliseconds", Directive(cfg.masterName, Digits(cfg.downAfterMs)));
  }

  lemma FailoverSays(cfg: SentinelConfig)
    requires cfg.masterName != "" && NoSpace(cfg.masterName)
    ensures Says(TimingLines(cfg), ["sentinel", "failover-timeout", cfg.masterName, Digits(cfg.failoverTimeoutMs)])
  {
    NumberReads("failover-timeout", cfg.masterName, cfg.failoverTimeoutMs);
    assert TimingLines(cfg)[1]
           == SentinelDirective("failover-timeout", Directive(cfg.masterName, Digits(cfg.failoverTimeoutMs)));
  }

  lemma RebootSays(cfg: SentinelConfig)
    requires cfg.masterName != "" && NoSpace(cfg.masterName)
    ensures Says(TimingLines(cfg), ["sentinel", "master-reboot-down-after-period", cfg.masterName,
                                    Digits(cfg.rebootDownAfterMs)])
  {
    NumberReads("master-reboot-down-after-period", cfg.masterName, cfg.rebootDownAfterMs);
    assert TimingLines(cfg)[3] == RebootLine(cfg);
  }

  lemma SyncsSay(cfg: SentinelConfig)
    requires cfg.masterName != "" && NoSpace(cfg.masterName)
    ensures Says(TimingLines(cfg), ["sentinel", "parallel-syncs", cfg.masterName, "1"])
  {
    assert Digits(1) == "1";
    NumberReads("parallel-syncs", cfg.masterName, 1);
    assert TimingLines(cfg)[2] == SentinelDirective("parallel-syncs", Directive(cfg.masterName, "1"));
  }

  /** Word by word, the file gives Sentinel the resolved master with the configured quorum, and
    * the configured times for that master. */
  lemma SettingsReadBack(cfg: SentinelConfig, a: (string, nat), password: string)
    requires WellFormedNames(cfg) && a.0 != "" && NoSpace(a.0) && '\n' !in password
    ensures var lines, name := Lines(Render(SentinelLines(cfg, a, password))), cfg.masterName;
            && Says(lines, ["sentinel", "monitor"] + [name, a.0, Digits(a.1), Digits(cfg.quorum)])
            && Says(lines, ["sentinel", "down-after-milliseconds", name, Digits(cfg.downAfterMs)])
            && Says(lines, ["sentinel", "failover-timeout", name, Digits(cfg.failoverTimeoutMs)])
            && Says(lines, ["sentinel", "parallel-syncs", name, "1"])
            && Says(lines, ["sentinel", "master-reboot-down-after-period", name, Digits(cfg.rebootDownAfterMs)])
  {
    ReadsBackAsWritten(cfg, a, password);
    var head, lines := PortLines(cfg) + AuthLines(password) + AnnounceLines(cfg), SentinelLines(cfg, a, password);
    MonitorSays(cfg, a);
    assert lines[|head|] == MonitorLine(cfg, a);
    var before := head + [MonitorLine(cfg, a), AuthPassLine(cfg)];
    assert lines == before + TimingLines(cfg) + PeerLines(cfg);
    TimingSays(cfg, before, PeerLines(cfg));
  }

  lemma TimingSays(cfg: SentinelConfig, before: seq<string>, after: seq<string>)
    requires cfg.masterName != "" && NoSpace(cfg.masterName)
    ensures var lines, name := before + TimingLines(cfg) + after, cfg.masterName;
            && Says(lines, ["sentinel", "down-after-milliseconds", name, Digits(cfg.downAfterMs)])
            && Says(lines, ["sentinel", "failover-timeout", name, Digits(cfg.failoverTimeoutMs)])
            && Says(lines, ["sentinel", "parallel-syncs", name, "1"])
            && Says(lines, ["sentinel", "master-reboot-down-after-period", name, Digits(cfg.rebootDownAfterMs)])
  {
    var name := cfg.masterName;
    DownAfterSays(cfg);
    SaysAnyhow(before, TimingLines(cfg), after,
               ["sentinel", "down-after-milliseconds", name, Digits(cfg.downAfterMs)]);
    FailoverSays(cfg);
    SaysAnyhow(before, TimingLines(cfg), after, ["sentinel", "failover-timeout", name, Digits(cfg.failoverTimeoutMs)]);
    SyncsSay(cfg);
    SaysAnyhow(before, TimingLines(cfg), after, ["sentinel", "parallel-syncs", name, "1"]);
    RebootSays(cfg);
    SaysAnyhow(before, TimingLines(cfg), after,
               ["sentinel", "master-reboot-down-after-period", name, Digits(cfg.rebootDownAfterMs)]);
  }

  lemma AnnounceIpSays(cfg: SentinelConfig)
    requires cfg.base.privateDomain != "" && NoSpace(cfg.base.privateDomain)
    ensures Says(AnnounceLines(cfg), ["sentinel", "announce-ip", cfg.base.privateDomain])
  {
    OptionReads("announce-ip", cfg.base.privateDomain);
    assert AnnounceLines(cfg)[2] == SentinelDirective("announce-ip", cfg.base.privateDomain);
  }

  lemma AnnouncePortSays(cfg: SentinelConfig)
    ensures Says(AnnounceLines(cfg), ["sentinel", "announce-port", Digits(cfg.port)])
  {
    DigitsArePrintable(cfg.port);
    OptionReads("announce-port", Digits(cfg.port));
    assert AnnounceLines(cfg)[3] == SentinelDirective("announce-port", Digits(cfg.port));
  }

  lemma ResolveSays(cfg: SentinelConfig)
    ensures Says(AnnounceLines(cfg), ["sentinel", "resolve-hostnames", "yes"])
  {
    OptionReads("resolve-hostnames", "yes");
    assert AnnounceLines(cfg)[0] == SentinelDirective("resolve-hostnames", "yes");
  }

  lemma AnnounceSays(cfg: SentinelConfig)
    ensures Says(AnnounceLines(cfg), ["sentinel", "announce-hostnames", "yes"])
  {
    OptionReads("announce-hostnames", "yes");
    assert AnnounceLines(cfg)[1] == SentinelDirective("announce-hostnames", "yes");
  }

  lemma PortSays(cfg: SentinelConfig)
    ensures Says(PortLines(cfg), ["port", Digits(cfg.port)])
  {
    DigitsArePrintable(cfg.port);
    WordsOfLast(Digits(cfg.port));
    WordsOfDirective("port", Digits(cfg.port));
    assert PortLines(cfg)[0] == Directive("port", Digits(cfg.port));
  }

  /** What the head of the file says, the file says. */
  lemma HeadIsSaid(cfg: SentinelConfig, a: (string, nat), password: string, words: seq<string>)
    requires WellFormedNames(cfg) && NoSpace(a.0) && '\n' !in password
    requires Says(PortLines(cfg), words) || Says(AnnounceLines(cfg), words)
    ensures Says(Lines(Render(SentinelLines(cfg, a, password))), words)
  {
    ReadsBackAsWritten(cfg, a, password);
    WordsAreSaid(PortLines(cfg), AuthLines(password), AnnounceLines(cfg), MonitorLine(cfg, a), TailLines(cfg), words);
  }

  lemma WordsAreSaid(ports: seq<string>, auth: seq<string>, announce: seq<string>, monitor: string, tail: seq<string>,
                     words: seq<string>)
    requires Says(ports, words) || Says(announce, words)
    ensures Says(ports + auth + announce + [monitor] + tail, words)
  {
    var lines := ports + auth + announce + [monitor] + tail;
    if Says(ports, words) {
      assert lines == [] + ports + (auth + announce + [monitor] + tail);
      SaysAnyhow([], ports, auth + announce + [monitor] + tail, words);
    } else {
      assert lines == (ports + auth) + announce + ([monitor] + tail);
      SaysAnyhow(ports + auth, announce, [monitor] + tail, words);
    }
  }

  /** And it gives Sentinel its port and the address it announces itself by. */
  lemma AnnouncementReadsBack(cfg: SentinelConfig, a: (string, nat), password: string)
    requires WellFormedNames(cfg) && NoSpace(a.0) && '\n' !in password
    ensures var lines := Lines(Render(SentinelLines(cfg, a, password)));
            && Says(lines, ["port", Digits(cfg.port)])
            && Says(lines, ["sentinel", "announce-ip", cfg.base.privateDomain])
            && Says(lines, ["sentinel", "announce-port", Digits(cfg.port)])
  {
    PortSays(cfg);
    HeadIsSaid(cfg, a, password, ["port", Digits(cfg.port)]);
    AnnounceIpSays(cfg);
    HeadIsSaid(cfg, a, password, ["sentinel", "announce-ip", cfg.base.privateDomain]);
    AnnouncePortSays(cfg);
    HeadIsSaid(cfg, a, password, ["sentinel", "announce-port", Digits(cfg.port)]);
  }

  /** And makes it keep peers by their names. */
  lemma HostnamesReadBack(cfg: SentinelConfig, a: (string, nat), password: string)
    requires WellFormedNames(cfg) && NoSpace(a.0) && '\n' !in password
    ensures Says(Lines(Render(SentinelLines(cfg, a, password))), ["sentinel", "resolve-hostnames", "yes"])
    ensures Says(Lines(Render(SentinelLines(cfg, a, password))), ["sentinel", "announce-hostnames", "yes"])
  {
    ResolveSays(cfg);
    HeadIsSaid(cfg, a, password, ["sentinel", "resolve-hostnames", "yes"]);
    AnnounceSays(cfg);
    HeadIsSaid(cfg, a, password, ["sentinel", "announce-hostnames", "yes"]);
  }

  /** The peers as the variable lists them: a line each for the entries that are a host and a
    * port, in order. */
  ghost predicate ArePeers(lines: seq<string>, masterName: string, entries: seq<string>, at: seq<nat>) {
    && |at| == |lines|
    && (forall k | 0 <= k < |at| :: at[k] < |entries| && IsPeerLine(lines[k], masterName, entries[at[k]]))
    && (forall k, l | 0 <= k < l < |at| :: at[k] < at[l])
    && (forall i | 0 <= i < |entries| && i !in at :: BootRole.HostPort(Trim(entries[i])).None?)
  }

  predicate IsPeerLine(line: string, masterName: string, entry: string) {
    var a := BootRole.HostPort(Trim(entry));
    && a.Some?
    && Words(line) == ["sentinel", "known-sentinel", masterName] + Words(a.value.0) + [Digits(a.value.1)]
  }

  lemma PeerLineReads(masterName: string, entry: string)
    requires masterName != "" && NoSpace(masterName) && BootRole.HostPort(Trim(entry)).Some?
    ensures IsPeerLine(KnownSentinelLine(masterName, BootRole.HostPort(Trim(entry)).value), masterName, entry)
  {
    var a := BootRole.HostPort(Trim(entry)).value;
    DigitsArePrintable(a.1);
    WordsOfLast(Digits(a.1));
    WordsConcat(a.0, ' ', Digits(a.1));
    assert Directive(a.0, Digits(a.1)) == a.0 + [' '] + Digits(a.1);
    WordsOfDirective(masterName, Directive(a.0, Digits(a.1)));
    WordsOfOption("known-sentinel", Directive(masterName, Directive(a.0, Digits(a.1))));
  }

  lemma NoPeerMore(lines: seq<string>, masterName: string, entries: seq<string>, at: seq<nat>, entry: string)
    requires ArePeers(lines, masterName, entries, at) && BootRole.HostPort(Trim(entry)).None?
    ensures ArePeers(lines, masterName, entries + [entry], at)
  {
    assert forall i | 0 <= i < |entries| :: (entries + [entry])[i] == entries[i];
  }

  lemma OnePeerMore(lines: seq<string>, masterName: string, entries: seq<string>, at: seq<nat>, line: string,
                    entry: string)
    requires ArePeers(lines, masterName, entries, at) && IsPeerLine(line, masterName, entry)
    ensures ArePeers(lines + [line], masterName, entries + [entry], at + [|entries|])
  {
    var all, next := entries + [entry], at + [|entries|];
    assert forall i | 0 <= i < |entries| :: all[i] == entries[i];
    assert next[|at|] == |entries| && all[|entries|] == entry;
    forall i | 0 <= i < |all| && i !in next
      ensures BootRole.HostPort(Trim(all[i])).None?
    {
      assert i != |entries| && (i in at ==> i in next);
    }
  }

  lemma {:induction false} PeersReadBack(masterName: string, entries: seq<string>) returns (at: seq<nat>)
    requires masterName != "" && NoSpace(masterName)
    ensures ArePeers(KnownSentinels(masterName, entries), masterName, entries, at)
  {
    at := [];
    if entries != [] {
      var rest, last := entries[..|entries| - 1], entries[|entries| - 1];
      var lines := KnownSentinels(masterName, rest);
      at := PeersReadBack(masterName, rest);
      assert rest + [last] == entries;
      if BootRole.HostPort(Trim(last)).Some? {
        PeerLineReads(masterName, last);
        OnePeerMore(lines, masterName, rest, at, KnownSentinelLine(masterName, BootRole.HostPort(Trim(last)).value),
                    last);
        at := at + [|rest|];
      } else {
        NoPeerMore(lines, masterName, rest, at, last);
      }
    }
  }

  // ----- redis.conf ----------------------------------------------------------------------------------

  /** The data node's file, from its port and password lines and whatever follows. */
  function RedisConf(port: nat, password: string, rest: seq<string>): string {
    Render([Directive("port", Digits(port)), Directive("requirepass", Quote(password))] + rest)
  }

  lemma RenderCons(line: string, rest: seq<string>)
    requires rest != []
    ensures Render([line] + rest) == line + "\n" + Render(rest)
  {
    assert ([line] + rest)[1..] == rest;
  }

  lemma RenderStarts(line: string, rest: seq<string>) returns (tail: string)
    ensures Render([line] + rest) == line + "\n" + tail
  {
    if rest == [] {
      tail := "";
      assert [line] + rest == [line];
    } else {
      tail := Render(rest);
      RenderCons(line, rest);
    }
  }

  lemma PortSetsNoPassword(port: nat)
    ensures Stable(Directive("port", Digits(port))) && RequirepassIn(Directive("port", Digits(port))).None?
  {
    DigitsArePrintable(port);
    NoSpaceStays(Digits(port));
    FirstFieldOfDirective("port", Digits(port));
  }

  /** The next boot reads back the password this boot wrote, whatever the other directives
    * hold: quotes, backslashes, spaces, a leading `#`, anything but a newline. */
  lemma PersistedPasswordReadsBack(port: nat, password: string, rest: seq<string>)
    requires '\n' !in password
    ensures ParseRequirepass(Lines(RedisConf(port, password, rest))) == Some(password)
  {
    var first, second := Directive("port", Digits(port)), Directive("requirepass", Quote(password));
    PortSetsNoPassword(port);
    RequirepassLineReads(password);
    QuoteIsStable(password);
    DirectiveStays("requirepass", Quote(password));
    var tail := RenderStarts(second, rest);
    RenderCons(first, [second] + rest);
    assert [first] + ([second] + rest) == [first, second] + rest;
    LinesCons(first, second + "\n" + tail);
    LinesCons(second, tail);
  }

}
