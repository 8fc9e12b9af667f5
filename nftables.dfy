/** The firewall wrapper (lib/nftables.ts): the commands the gateway sends
    to `nft`, how each command's outcome is read as an NftablesResult, and
    the authorized set of (mobile address, Chromecast address) pairs those
    commands change. The shell is an oracle: each command either completes
    with some stdout and stderr or throws with a message. */
module Nftables {
  import opened JsRuntime

  // ---------------------------------------------------------------------
  // Configuration
  // ---------------------------------------------------------------------

  /** The environment-derived settings of lib/nftables.ts. */
  datatype Config = Config(
    table: string, namespace: string, setName: string,
    mobileNetwork: string, chromecastNetwork: string,
    serverIp: string, serverPort: string)

  /** `process.env[name] || fallback`: an unset or empty variable falls back. */
  function Setting(env: map<string, string>, name: string, fallback: string): (r: string)
    ensures name in env && env[name] != [] ==> r == env[name]
    ensures name !in env || env[name] == [] ==> r == fallback
    ensures fallback != [] ==> r != []
  {
    if name in env && env[name] != [] then env[name] else fallback
  }

  /** Every setting has a non-empty default, so no command is ever built
      around an empty table, namespace, set, network, address or port. */
  function ConfigFrom(env: map<string, string>): (cfg: Config)
    ensures cfg.table != [] && cfg.namespace != [] && cfg.setName != []
    ensures cfg.mobileNetwork != [] && cfg.chromecastNetwork != []
    ensures cfg.serverIp != [] && cfg.serverPort != []
    ensures "SERVER_HOST" in env && env["SERVER_HOST"] != [] ==> cfg.serverIp == env["SERVER_HOST"]
  {
    Config(
      Setting(env, "NFT_TABLE", "inet"),
      Setting(env, "NFT_NAMESPACE", "chromecast"),
      Setting(env, "NFT_SET", "authorized_sessions"),
      Setting(env, "MOBILE_NETWORK", "192.168.10.0/24"),
      Setting(env, "CHROMECAST_NETWORK", "192.168.20.0/24"),
      Setting(env, "SERVER_HOST", "192.168.70.215"),
      Setting(env, "SERVER_PORT", "3000"))
  }

  /** With nothing set in the environment the gateway uses its built-in
      networks, server address and nftables names. */
  lemma DefaultConfig()
    ensures ConfigFrom(map[]) == Config("inet", "chromecast", "authorized_sessions",
      "192.168.10.0/24", "192.168.20.0/24", "192.168.70.215", "3000")
  {
  }

  // ---------------------------------------------------------------------
  // Commands
  // ---------------------------------------------------------------------

  /** `sudo nft <verb> <table> <namespace>`. */
  function Nft(cfg: Config, verb: string): string {
    "sudo nft " + verb + " " + cfg.table + " " + cfg.namespace
  }

  /** How many commands nftInit runs. */
  const InitCount := 13

  /** The k-th command of nftInit, counting from 0. */
  function InitCommand(cfg: Config, k: nat): string
    requires k < InitCount
  {
    if k == 0 then Nft(cfg, "add table")
    else if k == 1 then
      Nft(cfg, "add set") + " " + cfg.setName + " '{ type ipv4_addr . ipv4_addr ; flags timeout ; }'"
    else if k == 2 then
      Nft(cfg, "add chain") + " forward '{ type filter hook forward priority filter ; policy drop ; }'"
    else if k == 3 then
      Nft(cfg, "add chain") + " input '{ type filter hook input priority filter ; policy drop ; }'"
    else if k == 4 then
      Nft(cfg, "add chain") + " output '{ type filter hook output priority filter ; policy accept ; }'"
    else if k == 5 then Nft(cfg, "add rule") + " forward ct state established,related accept"
    else if k == 6 then
      Nft(cfg, "add rule") + " forward ip saddr " + cfg.mobileNetwork + " ip daddr " + cfg.serverIp
        + " tcp dport " + cfg.serverPort + " accept"
    else if k == 7 then
      Nft(cfg, "add rule") + " forward ip saddr " + cfg.serverIp + " ip daddr " + cfg.mobileNetwork
        + " ct state established,related accept"
    else if k == 8 then Nft(cfg, "add rule") + " forward ip saddr . ip daddr @" + cfg.setName + " accept"
    else if k == 9 then Nft(cfg, "add rule") + " input iif lo accept"
    else if k == 10 then Nft(cfg, "add rule") + " input ct state established,related accept"
    else if k == 11 then Nft(cfg, "add rule") + " input tcp dport { 22, " + cfg.serverPort + " } accept"
    else Nft(cfg, "add rule") + " input ip protocol icmp accept"
  }

  /** The thirteen commands of nftInit, in the order they are run. */
  function InitCommands(cfg: Config): (cmds: seq<string>)
    ensures |cmds| == InitCount
    ensures forall k :: 0 <= k < InitCount ==> cmds[k] == InitCommand(cfg, k)
  {
    seq(InitCount, k requires 0 <= k < InitCount => InitCommand(cfg, k))
  }

  /** `{ mobileIp . chromecastIp timeout <n>s }`. */
  function AddCommand(cfg: Config, mobileIp: string, chromecastIp: string, timeoutSec: int): string {
    Nft(cfg, "add element") + " " + cfg.setName + " '{ " + mobileIp + " . " + chromecastIp
      + " timeout " + IntString(timeoutSec) + "s }'"
  }

  /** `{ mobileIp . chromecastIp }`: the same element key, without a timeout. */
  function DeleteCommand(cfg: Config, mobileIp: string, chromecastIp: string): string {
    Nft(cfg, "delete element") + " " + cfg.setName + " '{ " + mobileIp + " . " + chromecastIp + " }'"
  }

  function ListCommand(cfg: Config): string {
    Nft(cfg, "list set") + " " + cfg.setName
  }

  // ---------------------------------------------------------------------
  // Outcomes and their classification
  // ---------------------------------------------------------------------

  /** What running one command yields: normal completion with its output
      streams, or a thrown error (non-zero exit, missing binary, ...). */
  datatype CommandOutcome = Completed(stdout: string, stderr: string) | Threw(message: string)

  /** NftablesResult. */
  datatype NftResult = NftResult(success: bool, output: Option<string>, error: Option<string>)

  function Succeeded(output: string): NftResult {
    NftResult(true, Some(output), None)
  }

  function Failed(error: string): NftResult {
    NftResult(false, None, Some(error))
  }

  const DeleteTolerated: string := "No such file or directory"

  /** How nftAddPair and nftListPairs read an outcome: any stderr is a
      failure carrying it; a throw is a failure carrying its message. */
  function ClassifyStrict(o: CommandOutcome): (r: NftResult)
    ensures r.success <==> o.Completed? && o.stderr == []
    ensures r.success ==> r.output == Some(o.stdout) && r.error == None
    ensures o.Threw? ==> r == Failed(o.message)
    ensures o.Completed? && o.stderr != [] ==> r == Failed(o.stderr)
  {
    match o
    case Threw(message) => Failed(message)
    case Completed(stdout, stderr) => if stderr != [] then Failed(stderr) else Succeeded(stdout)
  }

  /** How nftDeletePair reads an outcome: stderr mentioning a missing
      element is tolerated, but only on normal completion. */
  function ClassifyDelete(o: CommandOutcome): (r: NftResult)
    ensures r.success <==>
      o.Completed? && (o.stderr == [] || exists i :: OccursAt(o.stderr, DeleteTolerated, i))
    ensures r.success ==> r.output == Some(o.stdout) && r.error == None
    ensures o.Threw? ==> r == Failed(o.message)
  {
    match o
    case Threw(message) => Failed(message)
    case Completed(stdout, stderr) =>
      IncludesIff(stderr, DeleteTolerated);
      if stderr != [] && !Includes(stderr, DeleteTolerated) then Failed(stderr)
      else Succeeded(stdout)
  }

  /** A thrown error is a failure even when its message mentions a missing
      element: the tolerance looks only at stderr of a completed command. */
  lemma ThrownDeleteFails(message: string)
    ensures !ClassifyDelete(Threw(message)).success
    ensures ClassifyDelete(Completed("", message)).success <==>
      message == [] || exists i :: OccursAt(message, DeleteTolerated, i)
  {
  }

  /** Deleting is never stricter than adding or listing: an outcome
      accepted for an add is accepted for a delete. */
  lemma DeleteAtLeastAsLenient(o: CommandOutcome)
    ensures ClassifyStrict(o).success ==> ClassifyDelete(o).success
    ensures ClassifyStrict(o).success ==> ClassifyDelete(o) == ClassifyStrict(o)
  {
  }

  /** The index of the first outcome that threw, if any. */
  function FirstThrow(outcomes: seq<CommandOutcome>): (r: Option<nat>)
    ensures r.None? <==> forall i :: 0 <= i < |outcomes| ==> outcomes[i].Completed?
    ensures r.Some? ==> r.value < |outcomes| && outcomes[r.value].Threw?
    ensures r.Some? ==> forall i :: 0 <= i < r.value ==> outcomes[i].Completed?
  {
    if outcomes == [] then None
    else if outcomes[0].Threw? then Some(0)
    else match FirstThrow(outcomes[1..])
      case None => None
      case Some(k) => Some(k + 1)
  }

  const InitMessage: string := "NFTables rules initialized successfully"

  /** nftInit's result: success exactly when no command threw; stderr of
      completed commands is never looked at. */
  function InitResult(outcomes: seq<CommandOutcome>): (r: NftResult)
    ensures r.success <==> forall i :: 0 <= i < |outcomes| ==> outcomes[i].Completed?
    ensures r.success ==> r == Succeeded(InitMessage)
    ensures !r.success ==> r == Failed(outcomes[FirstThrow(outcomes).value].message)
  {
    match FirstThrow(outcomes)
    case None => Succeeded(InitMessage)
    case Some(k) => Failed(outcomes[k].message)
  }

  /** How many of nftInit's commands are run: up to and including the first
      that throws. */
  function InitRunLength(outcomes: seq<CommandOutcome>): (n: nat)
    ensures n <= |outcomes|
    ensures FirstThrow(outcomes).None? ==> n == |outcomes|
    ensures FirstThrow(outcomes).Some? ==> n == FirstThrow(outcomes).value + 1
  {
    match FirstThrow(outcomes)
    case None => |outcomes|
    case Some(k) => k + 1
  }

  // ---------------------------------------------------------------------
  // The authorized set
  // ---------------------------------------------------------------------

  /** An element of the set: the `ipv4_addr . ipv4_addr` key. */
  datatype Pair = Pair(mobileIp: string, chromecastIp: string)

  /** The firewall as the gateway drives it: the authorized set, with the
      timeout each element was added with, and every command sent to it so
      far. A command that completes takes effect in the kernel; one that
      throws changes nothing. */
  class Firewall {
    const config: Config
    var pairs: map<Pair, int>
    var issued: seq<string>

    constructor(config: Config)
      ensures this.config == config && pairs == map[] && issued == []
    {
      this.config := config;
      pairs := map[];
      issued := [];
    }

    /** nftInit: run the commands in order, stopping at the first that
        throws. The authorized set is not touched. */
    method Init(outcomes: seq<CommandOutcome>) returns (r: NftResult)
      requires |outcomes| == InitCount
      modifies this
      ensures pairs == old(pairs)
      ensures issued == old(issued) + InitCommands(config)[..InitRunLength(outcomes)]
      ensures r == InitResult(outcomes)
    {
      var cmds := InitCommands(config);
      var i := 0;
      while i < |cmds|
        invariant 0 <= i <= |cmds|
        invariant forall j :: 0 <= j < i ==> outcomes[j].Completed?
        invariant pairs == old(pairs)
        invariant issued == old(issued) + cmds[..i]
      {
        issued := issued + [cmds[i]];
        assert cmds[..i + 1] == cmds[..i] + [cmds[i]];
        if outcomes[i].Threw? {
          StopsAt(outcomes, i);
          return Failed(outcomes[i].message);
        }
        i := i + 1;
      }
      assert cmds[..i] == cmds;
      RunsThrough(outcomes);
      return Succeeded(InitMessage);
    }

    /** nftAddPair: add the element with its timeout. */
    method AddPair(mobileIp: string, chromecastIp: string, timeoutSec: int, outcome: CommandOutcome)
      returns (r: NftResult)
      modifies this
      ensures issued == old(issued) + [AddCommand(config, mobileIp, chromecastIp, timeoutSec)]
      ensures pairs == AfterAdd(old(pairs), Pair(mobileIp, chromecastIp), timeoutSec, outcome)
      ensures r == ClassifyStrict(outcome)
    {
      issued := issued + [AddCommand(config, mobileIp, chromecastIp, timeoutSec)];
      if outcome.Completed? {
        pairs := pairs[Pair(mobileIp, chromecastIp) := timeoutSec];
      }
      r := ClassifyStrict(outcome);
    }

    /** nftDeletePair: remove the element. */
    method DeletePair(mobileIp: string, chromecastIp: string, outcome: CommandOutcome)
      returns (r: NftResult)
      modifies this
      ensures issued == old(issued) + [DeleteCommand(config, mobileIp, chromecastIp)]
      ensures pairs == AfterDelete(old(pairs), Pair(mobileIp, chromecastIp), outcome)
      ensures r == ClassifyDelete(outcome)
    {
      issued := issued + [DeleteCommand(config, mobileIp, chromecastIp)];
      if outcome.Completed? {
        pairs := pairs - {Pair(mobileIp, chromecastIp)};
      }
      r := ClassifyDelete(outcome);
    }

    /** nftListPairs: read the set; nothing changes. */
    method ListPairs(outcome: CommandOutcome) returns (r: NftResult)
      modifies this
      ensures pairs == old(pairs)
      ensures issued == old(issued) + [ListCommand(config)]
      ensures r == ClassifyStrict(outcome)
    {
      issued := issued + [ListCommand(config)];
      r := ClassifyStrict(outcome);
    }
  }

  /** The first throw at index i, when every earlier command completed. */
  lemma {:induction false} FirstThrowAt(outcomes: seq<CommandOutcome>, i: nat)
    requires i < |outcomes| && outcomes[i].Threw?
    requires forall j :: 0 <= j < i ==> outcomes[j].Completed?
    ensures FirstThrow(outcomes) == Some(i)
  {
    if i > 0 {
      FirstThrowAt(outcomes[1..], i - 1);
    }
  }

  /** A run whose first throw is at index i reports that throw and has
      issued i + 1 commands. */
  lemma StopsAt(outcomes: seq<CommandOutcome>, i: nat)
    requires i < |outcomes| && outcomes[i].Threw?
    requires forall j :: 0 <= j < i ==> outcomes[j].Completed?
    ensures InitResult(outcomes) == Failed(outcomes[i].message)
    ensures InitRunLength(outcomes) == i + 1
  {
    FirstThrowAt(outcomes, i);
  }

  /** A run in which nothing throws succeeds and issues every command. */
  lemma RunsThrough(outcomes: seq<CommandOutcome>)
    requires forall j :: 0 <= j < |outcomes| ==> outcomes[j].Completed?
    ensures InitResult(outcomes) == Succeeded(InitMessage)
    ensures InitRunLength(outcomes) == |outcomes|
  {
  }

  /** The set after an add command: a completed one writes the element
      with its timeout, a thrown one changes nothing. */
  function AfterAdd(pairs: map<Pair, int>, p: Pair, t: int, o: CommandOutcome): map<Pair, int> {
    if o.Completed? then pairs[p := t] else pairs
  }

  /** The set after a delete command: a completed one removes the element,
      a thrown one changes nothing. */
  function AfterDelete(pairs: map<Pair, int>, p: Pair, o: CommandOutcome): map<Pair, int> {
    if o.Completed? then pairs - {p} else pairs
  }

  /** AddPair followed by DeletePair of the same element: a completed
      delete leaves the set as it was without that element, timeouts
      included, whatever the add did; otherwise the element is there with
      the new timeout exactly when the add completed, or with its old one. */
  lemma AddThenDelete(pairs: map<Pair, int>, p: Pair, t: int, added: CommandOutcome, deleted: CommandOutcome)
    ensures deleted.Completed? ==> AfterDelete(AfterAdd(pairs, p, t, added), p, deleted) == pairs - {p}
    ensures var r := AfterDelete(AfterAdd(pairs, p, t, added), p, deleted);
      !deleted.Completed? ==>
        (p in r <==> added.Completed? || p in pairs)
        && (added.Completed? ==> r[p] == t)
        && (!added.Completed? && p in pairs ==> r[p] == pairs[p])
        && forall q :: q != p ==> (q in r <==> q in pairs) && (q in r ==> r[q] == pairs[q])
  {
    if deleted.Completed? && added.Completed? {
      assert pairs[p := t] - {p} == pairs - {p};
    }
  }
}
