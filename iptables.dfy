/**
 * Firewall rule bookkeeping: installing the forwarding and masquerading rules
 * between the VPN interface and the main interface, removing them again, and
 * choosing a free subnet and interface name for a new VPN interface.
 *
 * The host's rule set is a sequence of (table, rule) pairs held by a
 * `RuleTable` object. Each run of the `iptables` executable is a `Command`;
 * how its process ends is decided by the environment (an `Exec` oracle): it
 * may fail to start, exit with a failure status whatever the rules are, or
 * complete, in which case `-C` succeeds exactly when the rule is present, `-A`
 * appends the rule, and `-D` removes the first matching rule or fails when
 * there is none.
 */
module Iptables {
  import opened Common

  /** One firewall rule: the table it lives in and its rule specification. */
  datatype IpTablesRule = IpTablesRule(table: string, rule: string)

  /** One run of `iptables -t <table>` with `-C` (check), `-A` (append) or `-D` (delete). */
  datatype Command = CheckCmd(r: IpTablesRule) | AppendCmd(r: IpTablesRule) | DeleteCmd(r: IpTablesRule)

  /** How the process for a command ends, as far as the rule set cannot tell. */
  datatype ProcessOutcome =
    | SpawnError  // the process could not be started or waited for
    | ExitFailed  // the process ran and exited with a failure status
    | Completed   // the process did what the command asks of the rule set

  /** The environment's answer for every command. */
  type Exec = Command -> ProcessOutcome

  /** How a rule operation failed. */
  datatype RuleError =
    | SpawnFailed  // the process could not be started or waited for
    | ExitFailure  // the process ran and exited with a failure status

  /** The result of a rule operation together with the rule set it leaves. */
  datatype Outcome = Outcome(result: Result<(), RuleError>, table: seq<IpTablesRule>)

  /** The position of the first occurrence of `x` in `t`. */
  function FirstIndex(t: seq<IpTablesRule>, x: IpTablesRule): (i: nat)
    requires x in t
    ensures i < |t| && t[i] == x && x !in t[..i]
  {
    if t[0] == x then 0
    else
      assert t[1..][..FirstIndex(t[1..], x)] == t[1..FirstIndex(t[1..], x) + 1];
      assert t[..FirstIndex(t[1..], x) + 1] == [t[0]] + t[1..FirstIndex(t[1..], x) + 1];
      FirstIndex(t[1..], x) + 1
  }

  /** `t` without its first occurrence of `x`. */
  function RemoveFirst(t: seq<IpTablesRule>, x: IpTablesRule): (r: seq<IpTablesRule>)
    requires x in t
    ensures multiset(r) == multiset(t) - multiset{x}
  {
    assert t == [t[0]] + t[1..];
    if t[0] == x then t[1..] else [t[0]] + RemoveFirst(t[1..], x)
  }

  /**
   * `RemoveFirst` takes out exactly the first occurrence: the rules before it
   * and the rules after it stay, in chain order.
   */
  lemma {:induction false} RemoveFirstKeepsOrder(t: seq<IpTablesRule>, x: IpTablesRule)
    requires x in t
    ensures RemoveFirst(t, x) == t[..FirstIndex(t, x)] + t[FirstIndex(t, x) + 1..]
  {
    if t[0] == x {
      assert FirstIndex(t, x) == 0 && t[..0] == [];
    } else {
      var u := t[1..];
      var i := FirstIndex(u, x);
      assert FirstIndex(t, x) == i + 1;
      RemoveFirstKeepsOrder(u, x);
      SplitBehindHead(t, i);
    }
  }

  /** Cutting position `i` out of the tail of `t` and putting the head back is cutting position `i + 1` out of `t`. */
  lemma SplitBehindHead(t: seq<IpTablesRule>, i: nat)
    requires i + 1 < |t|
    ensures [t[0]] + (t[1..][..i] + t[1..][i + 1..]) == t[..i + 1] + t[i + 2..]
  {
    assert t[..i + 1] == [t[0]] + t[1..][..i];
    assert t[i + 2..] == t[1..][i + 1..];
  }

  // Specification of the operations on rule-set values.

  /** `iptables_remove_rule`: `-D` the rule. */
  function RemoveRuleOutcome(t: seq<IpTablesRule>, rule: IpTablesRule, exec: Exec): (o: Outcome)
    ensures o.result.Ok? <==> exec(DeleteCmd(rule)) == Completed && rule in t
    ensures o.result == Err(SpawnFailed) <==> exec(DeleteCmd(rule)) == SpawnError
    ensures o.result.Ok? ==> multiset(o.table) == multiset(t) - multiset{rule}
    ensures o.result.Err? ==> o.table == t
  {
    match exec(DeleteCmd(rule))
    case SpawnError => Outcome(Err(SpawnFailed), t)
    case ExitFailed => Outcome(Err(ExitFailure), t)
    case Completed =>
      if rule in t then Outcome(Ok(()), RemoveFirst(t, rule)) else Outcome(Err(ExitFailure), t)
  }

  /** `iptables_add_rule`: `-C` the rule and `-A` it only when the check finds nothing. */
  function AddRuleOutcome(t: seq<IpTablesRule>, rule: IpTablesRule, exec: Exec): (o: Outcome)
    ensures exec(CheckCmd(rule)) == SpawnError ==> o == Outcome(Err(SpawnFailed), t)
    ensures exec(CheckCmd(rule)) == Completed && rule in t ==> o == Outcome(Ok(()), t)
    ensures o.result.Ok? ==> rule in o.table && exec(CheckCmd(rule)) != SpawnError
    ensures o.result.Ok? ==> o.table == t || o.table == t + [rule]
    ensures o.result.Err? ==> o.table == t
    ensures o.result.Ok? <==>
              && exec(CheckCmd(rule)) != SpawnError
              && ((exec(CheckCmd(rule)) == Completed && rule in t) || exec(AppendCmd(rule)) == Completed)
    ensures o.result.Ok? && !(exec(CheckCmd(rule)) == Completed && rule in t) ==> o.table == t + [rule]
  {
    match exec(CheckCmd(rule))
    case SpawnError => Outcome(Err(SpawnFailed), t)
    case _ =>
      if exec(CheckCmd(rule)) == Completed && rule in t then Outcome(Ok(()), t)
      else
        match exec(AppendCmd(rule))
        case SpawnError => Outcome(Err(SpawnFailed), t)
        case ExitFailed => Outcome(Err(ExitFailure), t)
        case Completed => Outcome(Ok(()), t + [rule])
  }

  /** Adds `rules` in order, stopping at the first failure (the `?` in the add loop). */
  function AddAllOutcome(t: seq<IpTablesRule>, rules: seq<IpTablesRule>, exec: Exec): Outcome
    decreases |rules|
  {
    if rules == [] then Outcome(Ok(()), t)
    else
      var first := AddRuleOutcome(t, rules[0], exec);
      if first.result.Err? then first else AddAllOutcome(first.table, rules[1..], exec)
  }

  /** `iptables_cleanup`: removes `rules` in order, stopping at the first failure. */
  function CleanupOutcome(t: seq<IpTablesRule>, rules: seq<IpTablesRule>, exec: Exec): Outcome
    decreases |rules|
  {
    if rules == [] then Outcome(Ok(()), t)
    else
      var first := RemoveRuleOutcome(t, rules[0], exec);
      if first.result.Err? then first else CleanupOutcome(first.table, rules[1..], exec)
  }

  /** The two `filter` table `FORWARD` rules that `iptables_route_to_interface` returns. */
  function RouteRules(mainInterface: string, vpnInterface: string): (rules: seq<IpTablesRule>)
    ensures |rules| == 2
    ensures forall i :: 0 <= i < |rules| ==>
              rules[i].table == "filter" && |rules[i].rule| > 8 && rules[i].rule[..8] == "FORWARD "
  {
    [ IpTablesRule("filter", "FORWARD -i " + vpnInterface + " -o eth0 -j ACCEPT"),
      IpTablesRule("filter", "FORWARD -i " + mainInterface + " -o " + vpnInterface
                             + " -m state --state RELATED,ESTABLISHED -j ACCEPT") ]
  }

  /** The `nat` table rule masquerading traffic leaving the main interface. */
  function MasqueradeRule(mainInterface: string): IpTablesRule {
    IpTablesRule("nat", "POSTROUTING -o " + mainInterface + " -j MASQUERADE")
  }

  /** Every rule `iptables_route_to_interface` adds, in the order it adds them. */
  function RouteAddOrder(mainInterface: string, vpnInterface: string): seq<IpTablesRule> {
    RouteRules(mainInterface, vpnInterface) + [MasqueradeRule(mainInterface)]
  }

  // The host's rule set and the operations that change it.

  class RuleTable {
    /** The rules installed on the host, in chain order. */
    var rules: seq<IpTablesRule>

    constructor (init: seq<IpTablesRule>)
      ensures rules == init
    {
      rules := init;
    }

    /**
     * Runs one `iptables` command: `Err` when its process cannot be run,
     * otherwise whether it exited successfully.
     */
    method Run(cmd: Command, exec: Exec) returns (r: Result<bool, RuleError>)
      modifies this
      ensures exec(cmd) == SpawnError ==> r == Err(SpawnFailed) && rules == old(rules)
      ensures exec(cmd) == ExitFailed ==> r == Ok(false) && rules == old(rules)
      ensures exec(cmd) == Completed && cmd.CheckCmd? ==> r == Ok(cmd.r in old(rules)) && rules == old(rules)
      ensures exec(cmd) == Completed && cmd.AppendCmd? ==> r == Ok(true) && rules == old(rules) + [cmd.r]
      ensures exec(cmd) == Completed && cmd.DeleteCmd? ==>
                && r == Ok(cmd.r in old(rules))
                && rules == if cmd.r in old(rules) then RemoveFirst(old(rules), cmd.r) else old(rules)
    {
      match exec(cmd) {
        case SpawnError => return Err(SpawnFailed);
        case ExitFailed => return Ok(false);
        case Completed =>
      }
      match cmd {
        case CheckCmd(rule) =>
          r := Ok(rule in rules);
        case AppendCmd(rule) =>
          rules := rules + [rule];
          r := Ok(true);
        case DeleteCmd(rule) =>
          if rule in rules {
            rules := RemoveFirst(rules, rule);
            r := Ok(true);
          } else {
            r := Ok(false);
          }
      }
    }
  }

  /** `iptables_remove_rule`. */
  method RemoveRule(host: RuleTable, rule: IpTablesRule, exec: Exec) returns (r: Result<(), RuleError>)
    modifies host
    ensures var o := RemoveRuleOutcome(old(host.rules), rule, exec); r == o.result && host.rules == o.table
  {
    var deleted := host.Run(DeleteCmd(rule), exec);
    match deleted {
      case Ok(true) => return Ok(());
      case Ok(false) => return Err(ExitFailure);
      case Err(e) => return Err(e);
    }
  }

  /** `iptables_add_rule`: check first, append only when the check fails. */
  method AddRule(host: RuleTable, rule: IpTablesRule, exec: Exec) returns (r: Result<(), RuleError>)
    modifies host
    ensures var o := AddRuleOutcome(old(host.rules), rule, exec); r == o.result && host.rules == o.table
  {
    var checked := host.Run(CheckCmd(rule), exec);
    match checked {
      case Ok(true) => return Ok(());
      case Ok(false) =>
      case Err(e) => return Err(e);
    }
    var appended := host.Run(AppendCmd(rule), exec);
    match appended {
      case Ok(true) => return Ok(());
      case Ok(false) => return Err(ExitFailure);
      case Err(e) => return Err(e);
    }
  }

  /** `iptables_cleanup`: removes the rules in order and stops at the first failure. */
  method Cleanup(host: RuleTable, rules: seq<IpTablesRule>, exec: Exec) returns (r: Result<(), RuleError>)
    modifies host
    ensures var o := CleanupOutcome(old(host.rules), rules, exec); r == o.result && host.rules == o.table
  {
    var i := 0;
    while i < |rules|
      invariant 0 <= i <= |rules|
      invariant CleanupOutcome(old(host.rules), rules, exec) == CleanupOutcome(host.rules, rules[i..], exec)
    {
      assert rules[i..][1..] == rules[i + 1..];
      var removed := RemoveRule(host, rules[i], exec);
      if removed.Err? {
        return removed;
      }
      i := i + 1;
    }
    return Ok(());
  }

  /**
   * `iptables_route_to_interface`: adds the two forwarding rules and then the
   * masquerading rule, stopping at the first failure, and returns only the two
   * forwarding rules for later cleanup.
   */
  method RouteToInterface(host: RuleTable, mainInterface: string, vpnInterface: string, exec: Exec)
    returns (r: Result<seq<IpTablesRule>, RuleError>)
    modifies host
    ensures var o := AddAllOutcome(old(host.rules), RouteAddOrder(mainInterface, vpnInterface), exec);
            && host.rules == o.table
            && (r.Ok? <==> o.result.Ok?)
            && (r.Ok? ==> r.value == RouteRules(mainInterface, vpnInterface))
            && (r.Err? ==> o.result == Err(r.error))
  {
    var rulesToDeleteLater := RouteRules(mainInterface, vpnInterface);
    var rulesToAdd := [MasqueradeRule(mainInterface)];
    var all := rulesToDeleteLater + rulesToAdd;
    var i := 0;
    while i < |all|
      invariant 0 <= i <= |all|
      invariant AddAllOutcome(old(host.rules), all, exec) == AddAllOutcome(host.rules, all[i..], exec)
    {
      assert all[i..][1..] == all[i + 1..];
      var added := AddRule(host, all[i], exec);
      if added.Err? {
        return Err(added.error);
      }
      i := i + 1;
    }
    return Ok(rulesToDeleteLater);
  }

  // Properties of the rule bookkeeping.

  /** Adding rules never removes a rule, and after a successful run every added rule is installed. */
  lemma {:induction false} AddAllInstalls(t: seq<IpTablesRule>, rules: seq<IpTablesRule>, exec: Exec)
    ensures forall x :: x in t ==> x in AddAllOutcome(t, rules, exec).table
    ensures AddAllOutcome(t, rules, exec).result.Ok? ==>
              forall x :: x in rules ==> x in AddAllOutcome(t, rules, exec).table
    ensures AddAllOutcome(t, rules, exec).result.Ok? ==> forall x :: x in rules ==> exec(CheckCmd(x)) != SpawnError
    decreases |rules|
  {
    if rules != [] {
      var first := AddRuleOutcome(t, rules[0], exec);
      if first.result.Ok? {
        AddAllInstalls(first.table, rules[1..], exec);
        assert forall x :: x in rules ==> x == rules[0] || x in rules[1..];
      }
    }
  }

  /** When every rule is already installed and its check completes, adding them changes nothing. */
  lemma {:induction false} AddAllPresent(t: seq<IpTablesRule>, rules: seq<IpTablesRule>, exec: Exec)
    requires forall x :: x in rules ==> x in t && exec(CheckCmd(x)) == Completed
    ensures AddAllOutcome(t, rules, exec) == Outcome(Ok(()), t)
    decreases |rules|
  {
    if rules != [] {
      assert rules[0] in rules;
      assert forall x :: x in rules[1..] ==> x in rules;
      AddAllPresent(t, rules[1..], exec);
    }
  }

  /**
   * Check-before-add makes installation idempotent: when the checks complete,
   * running the same additions again after a successful run succeeds and
   * installs nothing new.
   */
  lemma AddAllIdempotent(t: seq<IpTablesRule>, rules: seq<IpTablesRule>, exec: Exec)
    requires AddAllOutcome(t, rules, exec).result.Ok?
    requires forall x :: x in rules ==> exec(CheckCmd(x)) == Completed
    ensures var once := AddAllOutcome(t, rules, exec).table;
            AddAllOutcome(once, rules, exec) == Outcome(Ok(()), once)
  {
    AddAllInstalls(t, rules, exec);
    AddAllPresent(AddAllOutcome(t, rules, exec).table, rules, exec);
  }

  /**
   * The first failing addition aborts: if the first `k` additions succeed and
   * the next one fails, the run reports that failure and the rule set is the
   * one the first `k` additions left; no later rule is attempted.
   */
  lemma {:induction false} AddAllStopsAtFirstFailure(t: seq<IpTablesRule>, rules: seq<IpTablesRule>, exec: Exec, k: nat)
    requires k < |rules|
    requires AddAllOutcome(t, rules[..k], exec).result.Ok?
    requires AddRuleOutcome(AddAllOutcome(t, rules[..k], exec).table, rules[k], exec).result.Err?
    ensures AddAllOutcome(t, rules, exec) ==
              AddRuleOutcome(AddAllOutcome(t, rules[..k], exec).table, rules[k], exec)
    ensures AddAllOutcome(t, rules, exec).table == AddAllOutcome(t, rules[..k], exec).table
    decreases k
  {
    if k > 0 {
      var first := AddRuleOutcome(t, rules[0], exec);
      assert rules[..k][0] == rules[0] && rules[..k][1..] == rules[1..][..k - 1];
      AddAllStopsAtFirstFailure(first.table, rules[1..], exec, k - 1);
    }
  }

  /**
   * The first failing removal aborts the cleanup: if the first `k` removals
   * succeed and the next one fails, the cleanup reports that failure and every
   * rule from position `k` on is left where it was.
   */
  lemma {:induction false} CleanupStopsAtFirstFailure(t: seq<IpTablesRule>, rules: seq<IpTablesRule>, exec: Exec, k: nat)
    requires k < |rules|
    requires CleanupOutcome(t, rules[..k], exec).result.Ok?
    requires RemoveRuleOutcome(CleanupOutcome(t, rules[..k], exec).table, rules[k], exec).result.Err?
    ensures CleanupOutcome(t, rules, exec) ==
              RemoveRuleOutcome(CleanupOutcome(t, rules[..k], exec).table, rules[k], exec)
    ensures CleanupOutcome(t, rules, exec).table == CleanupOutcome(t, rules[..k], exec).table
    decreases k
  {
    if k > 0 {
      var first := RemoveRuleOutcome(t, rules[0], exec);
      assert rules[..k][0] == rules[0] && rules[..k][1..] == rules[1..][..k - 1];
      CleanupStopsAtFirstFailure(first.table, rules[1..], exec, k - 1);
    }
  }

  /** A successful cleanup removes exactly one occurrence of each listed rule and nothing else. */
  lemma {:induction false} CleanupRemovesListed(t: seq<IpTablesRule>, rules: seq<IpTablesRule>, exec: Exec)
    requires CleanupOutcome(t, rules, exec).result.Ok?
    ensures multiset(rules) <= multiset(t)
    ensures multiset(CleanupOutcome(t, rules, exec).table) == multiset(t) - multiset(rules)
    decreases |rules|
  {
    if rules != [] {
      var first := RemoveRuleOutcome(t, rules[0], exec);
      var rest := CleanupOutcome(first.table, rules[1..], exec);
      CleanupFirstStep(t, rules, exec);
      CleanupRemovesListed(first.table, rules[1..], exec);
      MultisetOfCons(rules);
      SubtractInTurn(multiset(t), multiset{rules[0]}, multiset(rules[1..]),
                     multiset(first.table), multiset(rest.table), multiset(rules));
    }
  }

  /** A successful cleanup begins with a successful removal of the first listed rule. */
  lemma CleanupFirstStep(t: seq<IpTablesRule>, rules: seq<IpTablesRule>, exec: Exec)
    requires rules != [] && CleanupOutcome(t, rules, exec).result.Ok?
    ensures var first := RemoveRuleOutcome(t, rules[0], exec);
            && first.result.Ok? && multiset{rules[0]} <= multiset(t)
            && multiset(first.table) == multiset(t) - multiset{rules[0]}
            && CleanupOutcome(t, rules, exec) == CleanupOutcome(first.table, rules[1..], exec)
  {
  }

  /** The multiset of a non-empty sequence is its head added to the multiset of its tail. */
  lemma MultisetOfCons(s: seq<IpTablesRule>)
    requires s != []
    ensures multiset(s) == multiset{s[0]} + multiset(s[1..])
  {
    assert s == [s[0]] + s[1..];
  }

  /** Taking away `b` and then `c` is taking away `b + c`, when each was there to take. */
  lemma SubtractInTurn(a: multiset<IpTablesRule>, b: multiset<IpTablesRule>, c: multiset<IpTablesRule>,
                       afterB: multiset<IpTablesRule>, afterC: multiset<IpTablesRule>, both: multiset<IpTablesRule>)
    requires b <= a && afterB == a - b && c <= afterB && afterC == afterB - c && both == b + c
    ensures both <= a && afterC == a - both
  {
    forall x ensures afterC[x] == (a - both)[x] && both[x] <= a[x] {
      assert afterB[x] == a[x] - b[x];
    }
  }

  /** Cleanup never removes a rule it was not given, whether or not it succeeds. */
  lemma {:induction false} CleanupKeepsUnlisted(t: seq<IpTablesRule>, rules: seq<IpTablesRule>, exec: Exec, x: IpTablesRule)
    requires x in t && x !in rules
    ensures x in CleanupOutcome(t, rules, exec).table
    decreases |rules|
  {
    if rules != [] {
      var first := RemoveRuleOutcome(t, rules[0], exec);
      if first.result.Ok? {
        assert x in multiset(first.table);
        CleanupKeepsUnlisted(first.table, rules[1..], exec, x);
      }
    }
  }

  /**
   * The masquerading rule outlives the cleanup: after a successful routing
   * setup, cleaning up the rules it returned leaves the `nat` rule installed.
   */
  lemma MasqueradeSurvivesCleanup(t: seq<IpTablesRule>, mainInterface: string, vpnInterface: string, exec: Exec)
    requires AddAllOutcome(t, RouteAddOrder(mainInterface, vpnInterface), exec).result.Ok?
    ensures var installed := AddAllOutcome(t, RouteAddOrder(mainInterface, vpnInterface), exec).table;
            MasqueradeRule(mainInterface) in
              CleanupOutcome(installed, RouteRules(mainInterface, vpnInterface), exec).table
  {
    var order := RouteAddOrder(mainInterface, vpnInterface);
    AddAllInstalls(t, order, exec);
    assert MasqueradeRule(mainInterface) in order;
    var installed := AddAllOutcome(t, order, exec).table;
    CleanupKeepsUnlisted(installed, RouteRules(mainInterface, vpnInterface), exec, MasqueradeRule(mainInterface));
  }

  /** The first forwarding rule names `eth0` as output, whatever the main interface is. */
  lemma ForwardRuleIgnoresMainInterface(main1: string, main2: string, vpnInterface: string)
    ensures RouteRules(main1, vpnInterface)[0] == RouteRules(main2, vpnInterface)[0]
    ensures main1 != main2 ==> RouteRules(main1, vpnInterface)[1] != RouteRules(main2, vpnInterface)[1]
  {
    var prefix := "FORWARD -i ";
    var suffix := " -o " + vpnInterface + " -m state --state RELATED,ESTABLISHED -j ACCEPT";
    var rule1, rule2 := RouteRules(main1, vpnInterface)[1].rule, RouteRules(main2, vpnInterface)[1].rule;
    assert rule1 == prefix + main1 + suffix && rule2 == prefix + main2 + suffix;
    if rule1 == rule2 {
      FramedTextsEqual(prefix, main1, main2, suffix);
    }
  }

  /** Two texts with the same framing are equal only if what they frame is equal. */
  lemma FramedTextsEqual(prefix: string, a: string, b: string, suffix: string)
    requires prefix + a + suffix == prefix + b + suffix
    ensures a == b
  {
    assert |a| == |b|;
    assert a == (prefix + a + suffix)[|prefix|..|prefix| + |a|];
    assert b == (prefix + b + suffix)[|prefix|..|prefix| + |b|];
  }

  // Choosing a subnet and a name for a new VPN interface.

  /** A network interface of the host, known by its name. */
  datatype NetworkInterface = NetworkInterface(name: string)

  /** An IPv4 address as its four octets. */
  datatype Ipv4Addr = Ipv4Addr(a: byte, b: byte, c: byte, d: byte)

  /** The subnet, mask, node address and interface name chosen for a VPN interface. */
  datatype SubnetIpv4Info = SubnetIpv4Info(subnet: Ipv4Addr, mask: Ipv4Addr, nodeIp: Ipv4Addr, interfaceName: string)

  /** Why no subnet could be chosen. */
  datatype GenerateError = InterfacesUnavailable | NoFreeSubnet

  /** One value drawn from `0..255`, the third octet of a candidate subnet. */
  type Draw = n: int | 0 <= n < 255

  /** How many candidates are drawn before giving up. */
  const MAX_TRIES: nat := 100
  const VPN_INTERFACE_NAME_BASE: string := "vpn_10_94"

  /** The number a string of decimal digits denotes, most significant digit first. */
  function DigitsValue(s: string): nat
    requires forall i :: 0 <= i < |s| ==> '0' <= s[i] <= '9'
  {
    if s == [] then 0 else DigitsValue(s[..|s| - 1]) * 10 + (s[|s| - 1] - '0') as nat
  }

  /** The decimal representation of `n`, without leading zeros (`format!("{n}")`). */
  function Decimal(n: nat): (s: string)
    ensures |s| >= 1 && forall i :: 0 <= i < |s| ==> '0' <= s[i] <= '9'
    ensures n >= 10 ==> s[0] != '0'
    ensures DigitsValue(s) == n
  {
    var digit := ['0' + (n % 10) as char];
    if n < 10 then digit else Decimal(n / 10) + digit
  }

  /** The interface name for candidate `n`: `vpn_10_94_<n>`. */
  function InterfaceName(n: Draw): string {
    VPN_INTERFACE_NAME_BASE + "_" + Decimal(n)
  }

  /** Different candidates get different interface names. */
  lemma {:induction false} InterfaceNameInjective(m: Draw, n: Draw)
    ensures InterfaceName(m) == InterfaceName(n) ==> m == n
  {
    if InterfaceName(m) == InterfaceName(n) {
      var prefix := VPN_INTERFACE_NAME_BASE + "_";
      assert Decimal(m) == InterfaceName(m)[|prefix|..];
      assert Decimal(n) == InterfaceName(n)[|prefix|..];
    }
  }

  /** The subnet `10.94.<n>.0/24`, with `10.94.<n>.<ipSuffix>` as the node address. */
  function SubnetInfo(n: Draw, ipSuffix: byte): SubnetIpv4Info {
    SubnetIpv4Info(Ipv4Addr(10, 94, n as byte, 0), Ipv4Addr(255, 255, 255, 0),
                   Ipv4Addr(10, 94, n as byte, ipSuffix), InterfaceName(n))
  }

  /** Some interface among `nis` is called `name`. */
  predicate HasInterface(nis: seq<NetworkInterface>, name: string) {
    exists i :: 0 <= i < |nis| && nis[i].name == name
  }

  /** `iter().find`: the first interface called `name`, if any. */
  method FindInterface(nis: seq<NetworkInterface>, name: string) returns (found: Option<NetworkInterface>)
    ensures found.Some? <==> HasInterface(nis, name)
    ensures found.Some? ==> found.value.name == name && found.value in nis
  {
    var i := 0;
    while i < |nis|
      invariant 0 <= i <= |nis|
      invariant forall j :: 0 <= j < i ==> nis[j].name != name
    {
      if nis[i].name == name {
        return Some(nis[i]);
      }
      i := i + 1;
    }
    return None;
  }

  /**
   * `generate_interface_subnet_and_name`: draws candidates until one whose
   * interface name is not taken turns up, for at most 100 draws. `interfaces`
   * is what listing the host's interfaces produced and `draw(i)` is the value
   * the random generator yields on attempt `i + 1`.
   */
  method GenerateInterfaceSubnetAndName(ipSuffix: byte, interfaces: Result<seq<NetworkInterface>, IoError>,
                                        draw: nat -> Draw)
    returns (r: Result<SubnetIpv4Info, GenerateError>)
    ensures r == Err(InterfacesUnavailable) <==> interfaces.Err?
    ensures interfaces.Ok? ==>
              (r == Err(NoFreeSubnet) <==>
                 forall i :: 0 <= i < MAX_TRIES ==> HasInterface(interfaces.value, InterfaceName(draw(i))))
    ensures r.Ok? ==> && interfaces.Ok?
                      && exists k :: && 0 <= k < MAX_TRIES && r.value == SubnetInfo(draw(k), ipSuffix)
                                     && !HasInterface(interfaces.value, InterfaceName(draw(k)))
                                     && forall i :: 0 <= i < k ==> HasInterface(interfaces.value, InterfaceName(draw(i)))
    ensures r.Ok? ==> && !HasInterface(interfaces.value, r.value.interfaceName)
                      && r.value.mask == Ipv4Addr(255, 255, 255, 0)
                      && r.value.subnet == Ipv4Addr(10, 94, r.value.subnet.c, 0)
                      && r.value.nodeIp == Ipv4Addr(10, 94, r.value.subnet.c, ipSuffix)
                      && r.value.subnet.c < 255
                      && r.value.interfaceName == InterfaceName(r.value.subnet.c as Draw)
  {
    if interfaces.Err? {
      return Err(InterfacesUnavailable);
    }
    var networkInterfaces := interfaces.value;
    var tries := 0;
    while true
      invariant 0 <= tries <= MAX_TRIES
      invariant forall i :: 0 <= i < tries ==> HasInterface(networkInterfaces, InterfaceName(draw(i)))
      decreases MAX_TRIES - tries
    {
      tries := tries + 1;
      if tries > MAX_TRIES {
        return Err(NoFreeSubnet);
      }
      var number := draw(tries - 1);
      var deviceName := InterfaceName(number);
      var found := FindInterface(networkInterfaces, deviceName);
      if found.Some? {
        continue;
      }
      return Ok(SubnetInfo(number, ipSuffix));
    }
  }
}
