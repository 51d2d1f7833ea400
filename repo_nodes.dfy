/**
 * Which machine polls the Tableau repository (PaletteInsightAgent.cs): the
 * repository nodes named by the workgroup configuration, whether this machine
 * is one of them, and whether it is the one the agent should poll from.
 *
 * Name resolution, the local host name, the loopback test and the recovery
 * mode query are foreign calls; a `Host` carries their answers, with `None`
 * where the call throws.
 */
module RepoNodes {
  import opened Wrappers

  /** An IP address, compared by value as `IPAddress.Equals` does. */
  datatype Address = Address(bytes: seq<bv8>)

  /** The repository part of a parsed workgroup.yml: `PgHost0`, `PgHost1` and `Connection.Host`. */
  datatype Workgroup = Workgroup(pgHost0: Option<string>, pgHost1: Option<string>, connectionHost: Option<string>)

  /** What the machine's environment answers to the agent's foreign calls. */
  datatype Host = Host(
    workgroup: Option<Workgroup>,                // the parsed workgroup.yml, None when it could not be read
    resolve: string -> Option<seq<Address>>,     // Dns.GetHostEntry(name).AddressList, None when it throws
    hostName: Option<string>,                    // Dns.GetHostName(), None when it throws
    isLoopback: Address -> bool,                 // IPAddress.IsLoopback
    recoveryMode: Option<bool>)                  // tableauRepo.isInRecoveryMode(), None when it throws
  {
    /** The addresses of this machine, None when looking them up throws. */
    function LocalAddresses(): Option<seq<Address>> {
      if hostName.None? then None else resolve(hostName.value)
    }
  }

  /**
   * `GetTableauRepoNodes`: `PgHost0` then `PgHost1`, each when set; the
   * connection host only when neither is; nothing without a workgroup.
   */
  method GetTableauRepoNodes(workgroup: Option<Workgroup>) returns (repoNodes: seq<string>)
    ensures workgroup.None? ==> repoNodes == []
    ensures workgroup.Some? ==> repoNodes == Nodes(workgroup.value)
  {
    repoNodes := [];
    if workgroup.None? {
      return;
    }
    var w := workgroup.value;
    if w.pgHost0.Some? {
      repoNodes := repoNodes + [w.pgHost0.value];
    }
    if w.pgHost1.Some? {
      repoNodes := repoNodes + [w.pgHost1.value];
    }
    if |repoNodes| == 0 && w.connectionHost.Some? {
      repoNodes := repoNodes + [w.connectionHost.value];
    }
  }

  /**
   * A repository node name designates this machine: it resolves, the local
   * addresses resolve, and one of its addresses is a loopback address or one
   * of the local addresses.
   */
  predicate DesignatesThisMachine(host: Host, node: string) {
    host.resolve(node).Some? && host.LocalAddresses().Some? &&
    exists a :: a in host.resolve(node).value && (host.isLoopback(a) || a in host.LocalAddresses().value)
  }

  /**
   * `IsTableauRepoNode(repoNodes)`: true as soon as one node designates this
   * machine; a node whose lookup throws is skipped and the next one tried.
   */
  method IsTableauRepoNode(host: Host, repoNodes: seq<string>) returns (isRepoNode: bool)
    ensures isRepoNode <==> exists k :: 0 <= k < |repoNodes| && DesignatesThisMachine(host, repoNodes[k])
  {
    if |repoNodes| == 0 {
      return false;
    }
    for i := 0 to |repoNodes|
      invariant forall k :: 0 <= k < i ==> !DesignatesThisMachine(host, repoNodes[k])
    {
      var node := repoNodes[i];
      var repoHolder := host.resolve(node);
      var localhost := host.LocalAddresses();
      if repoHolder.None? || localhost.None? {
        // The lookup threw: log it and go on with the next node.
        continue;
      }
      var found := MatchesLocal(host, repoHolder.value, localhost.value);
      if found {
        return true;
      }
    }
    return false;
  }

  /** The two inner loops of `IsTableauRepoNode`: one of the node's addresses is loopback or local. */
  method MatchesLocal(host: Host, repoAddresses: seq<Address>, localAddresses: seq<Address>) returns (found: bool)
    ensures found <==> exists a :: a in repoAddresses && (host.isLoopback(a) || a in localAddresses)
  {
    for j := 0 to |repoAddresses|
      invariant forall m :: 0 <= m < j ==> !host.isLoopback(repoAddresses[m]) && repoAddresses[m] !in localAddresses
    {
      var repoAddress := repoAddresses[j];
      if host.isLoopback(repoAddress) {
        return true;
      }
      for l := 0 to |localAddresses|
        invariant forall n :: 0 <= n < l ==> repoAddress != localAddresses[n]
      {
        if repoAddress == localAddresses[l] {
          return true;
        }
      }
    }
    return false;
  }

  /**
   * The decision of `IsTargetTableauRepoResident` on a repository node: the
   * passive node when passive is preferred, the active node when active is
   * preferred, and the active node when passive is preferred but it is the
   * only repository node.
   */
  function IsTarget(isPassive: bool, preferPassive: bool, repoNodeCount: nat): (target: bool)
    ensures target <==>
      (isPassive && preferPassive) || (!isPassive && !preferPassive) || (!isPassive && preferPassive && repoNodeCount < 2)
  {
    if isPassive && preferPassive then true
    else if !isPassive then
      if !preferPassive then true
      else repoNodeCount < 2
    else false
  }

  /**
   * A passive node is never the target when active is preferred, even when
   * it is the only repository node; an active node is always the target when
   * it is the only one.
   */
  lemma SoleNodeDecision(isPassive: bool, preferPassive: bool)
    ensures isPassive && !preferPassive ==> !IsTarget(isPassive, preferPassive, 1)
    ensures !isPassive ==> IsTarget(isPassive, preferPassive, 1)
    ensures IsTarget(isPassive, preferPassive, 2) <==> isPassive == preferPassive
  {
  }

  /**
   * `IsTargetTableauRepoResident`: this machine is a repository node and the
   * decision above picks it; a failing recovery-mode query gives false.
   */
  method IsTargetTableauRepoResident(host: Host, preferPassive: bool) returns (resident: bool)
    ensures resident == IsTargetResident(host, preferPassive)
  {
    var repoNodes := GetTableauRepoNodes(host.workgroup);
    var isRepoNode := IsTableauRepoNode(host, repoNodes);
    if !isRepoNode {
      return false;
    }
    if host.recoveryMode.None? {
      // The query threw: log it, this is not the target.
      return false;
    }
    var isPassive := host.recoveryMode.value;
    if isPassive && preferPassive {
      return true;
    }
    if !isPassive {
      if !preferPassive {
        return true;
      }
      if |repoNodes| < 2 {
        return true;
      }
    }
    return false;
  }

  /**
   * This machine should poll the repository: the workgroup names it as a
   * repository node, the recovery-mode query answers, and the decision picks it.
   */
  predicate IsTargetResident(host: Host, preferPassive: bool) {
    host.workgroup.Some? &&
    (exists node :: node in Nodes(host.workgroup.value) && DesignatesThisMachine(host, node)) &&
    host.recoveryMode.Some? &&
    IsTarget(host.recoveryMode.value, preferPassive, |Nodes(host.workgroup.value)|)
  }

  /**
   * With a single configured node that is this machine, the machine polls
   * unless it is a passive node while the active one is preferred.
   */
  lemma SoleNodeResident(host: Host, preferPassive: bool, node: string)
    requires host.workgroup == Some(Workgroup(Some(node), None, None))
    requires DesignatesThisMachine(host, node) && host.recoveryMode.Some?
    ensures IsTargetResident(host, preferPassive) <==> !(host.recoveryMode.value && !preferPassive)
  {
    assert Nodes(host.workgroup.value) == [node];
  }

  /** A machine that no configured node designates never polls, whatever the preference. */
  lemma NonRepoNodeNeverResident(host: Host, preferPassive: bool)
    requires host.workgroup.Some?
    requires forall node :: node in Nodes(host.workgroup.value) ==> !DesignatesThisMachine(host, node)
    ensures !IsTargetResident(host, preferPassive)
  {
  }

  /**
   * The node list `GetTableauRepoNodes` builds from a workgroup: at most two
   * names, `PgHost0` first and `PgHost1` last when set, and the connection
   * host only as the fallback when neither is set.
   */
  function Nodes(w: Workgroup): (nodes: seq<string>)
    ensures |nodes| <= 2
    ensures |nodes| == (if w.pgHost0.Some? then 1 else 0) + (if w.pgHost1.Some? then 1 else 0) +
      (if w.pgHost0.None? && w.pgHost1.None? && w.connectionHost.Some? then 1 else 0)
    ensures w.pgHost0.Some? ==> |nodes| >= 1 && nodes[0] == w.pgHost0.value
    ensures w.pgHost1.Some? ==> |nodes| >= 1 && nodes[|nodes| - 1] == w.pgHost1.value
    ensures w.pgHost0.Some? || w.pgHost1.Some? ==>
      forall n :: n in nodes ==> Some(n) == w.pgHost0 || Some(n) == w.pgHost1
    ensures w.pgHost0.None? && w.pgHost1.None? ==> nodes == ToSeq(w.connectionHost)
  {
    ToSeq(w.pgHost0) + ToSeq(w.pgHost1) + (if w.pgHost0.None? && w.pgHost1.None? then ToSeq(w.connectionHost) else [])
  }
}
