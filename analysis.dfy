/**
 * The decision procedure of pkg/k8s/podconnection.go (PodConnectionAnalysis):
 * an egress pass over the rules of the policies selecting the source pod,
 * then an ingress pass over those selecting the destination pod, each
 * stopping at the first rule whose peers admit the pod, then the
 * default-allow fallback.
 *
 * The functional specification flattens each pass into the ordered list of
 * (policy, rule) candidates and scans it for the first decisive rule; the
 * method keeps the code's nested loops and flags and is proved against it.
 */
module Reachability {
  import opened Wrappers
  import opened Labels
  import opened Api
  import opened NetworkPolicies
  import opened PodConnections

  /** The PodConnection record the analysis returns. */
  datatype PodConnection = PodConnection(
    src: Pod,
    dst: Pod,
    protocol: string,
    port: string,
    reachable: bool,
    reachableOnPort: bool,
    ruleAllows: Option<Provenance>,
    policyAllows: Option<NetworkPolicy>,
    srcPolicies: seq<NetworkPolicy>,
    dstPolicies: seq<NetworkPolicy>)

  /** One variant per place the code wraps and returns an error. */
  datatype AnalysisError =
    | SrcPodNotFound
    | DstPodNotFound
    | SrcPoliciesFailed
    | DstPoliciesFailed
    | EgressPeerFailed
    | EgressPortFailed
    | IngressPeerFailed
    | IngressPortFailed

  /**
   * What every rule evaluation of one pass shares. The pod tested is the
   * source pod in BOTH passes (the code passes srcPod to the egress check
   * too, although an egress rule's peers describe destinations), with the
   * labels of the source pod's namespace; policyNs is the namespace of the
   * pod whose policies are scanned.
   */
  datatype Context = Context(src: Pod, nsLabels: Labels, policyNs: string, protocol: string, port: string)

  function EgressContext(src: Pod, nsLabels: Labels, protocol: string, port: string): Context {
    Context(src, nsLabels, src.namespace, protocol, port)
  }

  function IngressContext(src: Pod, dst: Pod, nsLabels: Labels, protocol: string, port: string): Context {
    Context(src, nsLabels, dst.namespace, protocol, port)
  }

  /** A rule together with the policy it belongs to. */
  datatype Candidate = Candidate(policy: NetworkPolicy, rule: Rule)

  function PolicyCandidates(policy: NetworkPolicy, t: PolicyType): (r: seq<Candidate>)
    ensures AppliesTo(policy, t) ==> |r| == |RulesOf(policy, t)|
    ensures !AppliesTo(policy, t) ==> r == []
    ensures forall k | 0 <= k < |r| :: r[k] == Candidate(policy, RulesOf(policy, t)[k])
  {
    if AppliesTo(policy, t) then
      seq(|RulesOf(policy, t)|, k requires 0 <= k < |RulesOf(policy, t)| => Candidate(policy, RulesOf(policy, t)[k]))
    else []
  }

  /** The rules a pass visits, in the order it visits them. */
  function Candidates(policies: seq<NetworkPolicy>, t: PolicyType): seq<Candidate> {
    if policies == [] then []
    else Candidates(policies[..|policies| - 1], t) + PolicyCandidates(policies[|policies| - 1], t)
  }

  /**
   * Where a scan ends: a selector that does not convert, a protocol/port
   * request given by halves, a rule whose peers admit the pod, or the end
   * of the list carrying the port result of the last rule evaluated.
   */
  datatype ScanResult =
    | PeerError
    | PortError
    | Matched(policy: NetworkPolicy, rule: Provenance, onPort: bool)
    | Exhausted(lastOnPort: bool)

  /**
   * One rule: the peer check first, then the port check (which runs, and
   * can fail, whether or not the peers matched).
   */
  function EvaluateRule(ctx: Context, c: Candidate): ScanResult {
    match IsPodInNetworkPolicyPeer(ctx.src, ctx.nsLabels, c.rule.peers, ctx.policyNs)
    case Err(_) => PeerError
    case Ok(peer) =>
      match IsProtocolPortInNetworkPolicyPorts(ctx.protocol, ctx.port, c.rule.ports)
      case Err(_) => PortError
      case Ok(onPort) => if peer.Some? then Matched(c.policy, peer.value, onPort) else Exhausted(onPort)
  }

  /** Evaluates candidates in order until one is decisive. */
  function ScanRules(cands: seq<Candidate>, ctx: Context, onPort: bool): ScanResult
    decreases |cands|
  {
    if cands == [] then Exhausted(onPort)
    else
      var first := EvaluateRule(ctx, cands[0]);
      if first.Exhausted? then ScanRules(cands[1..], ctx, first.lastOnPort) else first
  }

  function Allowed(pc: PodConnection, m: ScanResult): PodConnection
    requires m.Matched?
  {
    pc.(reachable := true, ruleAllows := Some(m.rule), reachableOnPort := m.onPort, policyAllows := Some(m.policy))
  }

  /**
   * How the two passes conclude. A pass that fails fails the analysis and a
   * pass that matched allows the connection; the ingress pass is consulted
   * only when the egress pass was exhausted. When both were exhausted the
   * connection is allowed by default, or blocked carrying the port result
   * of the last rule evaluated.
   */
  function Verdict(pc: PodConnection, egress: ScanResult, ingress: ScanResult, defaultAllow: bool): Result<PodConnection, AnalysisError> {
    match egress
    case PeerError => Err(EgressPeerFailed)
    case PortError => Err(EgressPortFailed)
    case Matched(_, _, _) => Ok(Allowed(pc, egress))
    case Exhausted(_) =>
      match ingress
      case PeerError => Err(IngressPeerFailed)
      case PortError => Err(IngressPortFailed)
      case Matched(_, _, _) => Ok(Allowed(pc, ingress))
      case Exhausted(lastOnPort) =>
        if defaultAllow then Ok(pc.(reachable := true, reachableOnPort := true))
        else Ok(pc.(reachableOnPort := lastOnPort))
  }

  /**
   * The decision once both pods and their selected policies are known: the
   * egress pass starts with no port result, the ingress pass starts from
   * the egress pass's last port result.
   */
  function Decide(src: Pod, dst: Pod, nsLabels: Labels, protocol: string, port: string,
                  srcApplied: seq<NetworkPolicy>, dstApplied: seq<NetworkPolicy>): Result<PodConnection, AnalysisError>
  {
    var pc := PodConnection(src, dst, protocol, port, false, false, None, None, srcApplied, dstApplied);
    var egress := ScanRules(Candidates(srcApplied, Egress), EgressContext(src, nsLabels, protocol, port), false);
    var ingress := ScanRules(Candidates(dstApplied, Ingress), IngressContext(src, dst, nsLabels, protocol, port),
                             egress.Exhausted? && egress.lastOnPort);
    Verdict(pc, egress, ingress, !HasApplicable(srcApplied, Egress) && !HasApplicable(dstApplied, Ingress))
  }

  /** The whole analysis: resolve both pods, select their policies, decide. */
  function Analysis(c: Cluster, srcPodName: string, srcNsName: string, dstPodName: string, dstNsName: string,
                    protocol: string, port: string): Result<PodConnection, AnalysisError>
    requires NamespacesResolvable(c)
  {
    var srcKey, dstKey := PodKey(srcNsName, srcPodName), PodKey(dstNsName, dstPodName);
    if srcKey !in c.pods then Err(SrcPodNotFound)
    else if dstKey !in c.pods then Err(DstPodNotFound)
    else
      var src, dst := c.pods[srcKey], c.pods[dstKey];
      var srcSelected := PoliciesPerPod(c, src);
      if srcSelected.Err? then Err(SrcPoliciesFailed)
      else
        var dstSelected := PoliciesPerPod(c, dst);
        if dstSelected.Err? then Err(DstPoliciesFailed)
        else Decide(src, dst, c.namespaces[src.namespace], protocol, port, srcSelected.value, dstSelected.value)
  }

  // ---------------------------------------------------------------------
  // Scan lemmas used by the method
  // ---------------------------------------------------------------------

  /** Scanning a concatenation scans the first part, then the second from where it ended. */
  lemma {:induction false} ScanAppend(a: seq<Candidate>, b: seq<Candidate>, ctx: Context, onPort: bool)
    ensures ScanRules(a + b, ctx, onPort) ==
            (var s := ScanRules(a, ctx, onPort); if s.Exhausted? then ScanRules(b, ctx, s.lastOnPort) else s)
    decreases |a|
  {
    if a == [] {
      assert a + b == b;
    } else {
      assert (a + b)[0] == a[0];
      assert (a + b)[1..] == a[1..] + b;
      var first := EvaluateRule(ctx, a[0]);
      if first.Exhausted? {
        ScanAppend(a[1..], b, ctx, first.lastOnPort);
      }
    }
  }

  lemma {:induction false} CandidatesAppend(a: seq<NetworkPolicy>, b: seq<NetworkPolicy>, t: PolicyType)
    ensures Candidates(a + b, t) == Candidates(a, t) + Candidates(b, t)
    decreases |b|
  {
    if b == [] {
      assert a + b == a;
    } else {
      var init, last := b[..|b| - 1], b[|b| - 1];
      assert (a + b)[..|a + b| - 1] == a + init;
      assert (a + b)[|a + b| - 1] == last;
      CandidatesAppend(a, init, t);
      var x, y, z := Candidates(a, t), Candidates(init, t), PolicyCandidates(last, t);
      assert Candidates(a + b, t) == (x + y) + z;
      assert Candidates(b, t) == y + z;
      ConcatAssociates(x, y, z);
    }
  }

  lemma ConcatAssociates<T>(x: seq<T>, y: seq<T>, z: seq<T>)
    ensures (x + y) + z == x + (y + z)
  {
  }

  lemma CandidatesStep(policies: seq<NetworkPolicy>, i: nat, t: PolicyType)
    requires i < |policies|
    ensures Candidates(policies[..i + 1], t) == Candidates(policies[..i], t) + PolicyCandidates(policies[i], t)
  {
    assert policies[..i + 1][..i] == policies[..i];
  }

  /** The scan over the first j rules of policy i, after the policies before it. */
  function ScanPrefix(policies: seq<NetworkPolicy>, t: PolicyType, i: nat, j: nat): seq<Candidate>
    requires i < |policies| && j <= |PolicyCandidates(policies[i], t)|
  {
    Candidates(policies[..i], t) + PolicyCandidates(policies[i], t)[..j]
  }

  lemma ScanPrefixEnds(policies: seq<NetworkPolicy>, t: PolicyType, i: nat)
    requires i < |policies|
    ensures ScanPrefix(policies, t, i, 0) == Candidates(policies[..i], t)
    ensures ScanPrefix(policies, t, i, |PolicyCandidates(policies[i], t)|) == Candidates(policies[..i + 1], t)
  {
    var pcs := PolicyCandidates(policies[i], t);
    assert pcs[..0] == [] && pcs[..|pcs|] == pcs;
    CandidatesStep(policies, i, t);
  }

  /** A non-matching rule extends the exhausted prefix by one. */
  lemma ScanContinues(policies: seq<NetworkPolicy>, t: PolicyType, i: nat, j: nat, ctx: Context, onPort: bool)
    requires i < |policies| && j < |PolicyCandidates(policies[i], t)|
    requires ScanRules(ScanPrefix(policies, t, i, j), ctx, onPort).Exhausted?
    requires EvaluateRule(ctx, PolicyCandidates(policies[i], t)[j]).Exhausted?
    ensures ScanRules(ScanPrefix(policies, t, i, j + 1), ctx, onPort) == EvaluateRule(ctx, PolicyCandidates(policies[i], t)[j])
  {
    var pcs := PolicyCandidates(policies[i], t);
    assert ScanPrefix(policies, t, i, j + 1) == ScanPrefix(policies, t, i, j) + [pcs[j]];
    ScanAppend(ScanPrefix(policies, t, i, j), [pcs[j]], ctx, onPort);
  }

  /** The candidates of a pass around rule j of policy i. */
  lemma CandidatesSplit(policies: seq<NetworkPolicy>, t: PolicyType, i: nat, j: nat)
    requires i < |policies| && j < |PolicyCandidates(policies[i], t)|
    ensures Candidates(policies, t) ==
            (ScanPrefix(policies, t, i, j) + [PolicyCandidates(policies[i], t)[j]])
            + (PolicyCandidates(policies[i], t)[j + 1..] + Candidates(policies[i + 1..], t))
  {
    var pcs := PolicyCandidates(policies[i], t);
    var before, after := Candidates(policies[..i], t), Candidates(policies[i + 1..], t);
    assert policies == policies[..i + 1] + policies[i + 1..];
    CandidatesAppend(policies[..i + 1], policies[i + 1..], t);
    CandidatesStep(policies, i, t);
    assert Candidates(policies, t) == (before + pcs) + after;
    SplitAt(before, pcs, after, j);
  }

  lemma SplitAt<T>(before: seq<T>, mid: seq<T>, after: seq<T>, j: nat)
    requires j < |mid|
    ensures (before + mid) + after == (before + mid[..j] + [mid[j]]) + (mid[j + 1..] + after)
  {
    assert mid == mid[..j] + [mid[j]] + mid[j + 1..];
  }

  /** A decisive rule after an exhausted prefix decides the whole pass. */
  lemma ScanStops(policies: seq<NetworkPolicy>, t: PolicyType, i: nat, j: nat, ctx: Context, onPort: bool)
    requires i < |policies| && j < |PolicyCandidates(policies[i], t)|
    requires ScanRules(ScanPrefix(policies, t, i, j), ctx, onPort).Exhausted?
    requires !EvaluateRule(ctx, PolicyCandidates(policies[i], t)[j]).Exhausted?
    ensures ScanRules(Candidates(policies, t), ctx, onPort) == EvaluateRule(ctx, PolicyCandidates(policies[i], t)[j])
  {
    var pcs := PolicyCandidates(policies[i], t);
    var prefix := ScanPrefix(policies, t, i, j);
    CandidatesSplit(policies, t, i, j);
    ScanAppend(prefix + [pcs[j]], pcs[j + 1..] + Candidates(policies[i + 1..], t), ctx, onPort);
    ScanAppend(prefix, [pcs[j]], ctx, onPort);
    assert ScanRules([pcs[j]], ctx, ScanRules(prefix, ctx, onPort).lastOnPort) == EvaluateRule(ctx, pcs[j]);
  }

  // ---------------------------------------------------------------------
  // The method
  // ---------------------------------------------------------------------

  /** A policy that does not govern t adds no candidate. */
  lemma SkippedPolicy(policies: seq<NetworkPolicy>, t: PolicyType, i: nat)
    requires i < |policies| && !AppliesTo(policies[i], t)
    ensures Candidates(policies[..i + 1], t) == Candidates(policies[..i], t)
  {
    CandidatesStep(policies, i, t);
  }

  /** Rule j of a governing policy is its j-th candidate. */
  lemma RuleCandidate(policies: seq<NetworkPolicy>, t: PolicyType, i: nat, j: nat)
    requires i < |policies| && AppliesTo(policies[i], t) && j < |RulesOf(policies[i], t)|
    ensures j < |PolicyCandidates(policies[i], t)|
    ensures PolicyCandidates(policies[i], t)[j] == Candidate(policies[i], RulesOf(policies[i], t)[j])
  {
  }

  /**
   * One rule of a pass (lines 69-82 for egress, 93-106 for ingress): the
   * peer check writes reachable and ruleAllows, the port check writes
   * reachableOnPort, and a matching peer credits the policy.
   */
  method ApplyRule(pc: PodConnection, nsLabels: Labels, policy: NetworkPolicy, rule: Rule, policyNs: string)
    returns (verdict: ScanResult, pc': PodConnection)
    requires !pc.reachable && pc.ruleAllows.None? && pc.policyAllows.None?
    ensures verdict == EvaluateRule(Context(pc.src, nsLabels, policyNs, pc.protocol, pc.port), Candidate(policy, rule))
    ensures verdict.Exhausted? ==> pc' == pc.(reachableOnPort := verdict.lastOnPort)
    ensures verdict.Matched? ==> pc' == Allowed(pc, verdict)
  {
    pc' := pc;
    var peer := IsPodInNetworkPolicyPeer(pc.src, nsLabels, rule.peers, policyNs);
    if peer.Err? {
      return PeerError, pc';
    }
    pc' := pc'.(reachable := peer.value.Some?, ruleAllows := peer.value);
    var onPort := IsProtocolPortInNetworkPolicyPorts(pc.protocol, pc.port, rule.ports);
    if onPort.Err? {
      return PortError, pc';
    }
    pc' := pc'.(reachableOnPort := onPort.value);
    if pc'.reachable {
      pc' := pc'.(policyAllows := Some(policy));
      return Matched(policy, peer.value.value, onPort.value), pc';
    }
    verdict := Exhausted(onPort.value);
  }

  /**
   * The rules of policy i, which governs direction t, in order (lines 68-83
   * for egress, 92-107 for ingress), after the policies before it left the
   * scan undecided. The first rule that is decisive stops the pass.
   */
  method EvaluatePolicyRules(pc: PodConnection, nsLabels: Labels, policies: seq<NetworkPolicy>, t: PolicyType, policyNs: string,
                             i: nat, ghost start: bool)
    returns (result: ScanResult, pc': PodConnection)
    requires i < |policies| && AppliesTo(policies[i], t)
    requires !pc.reachable && pc.ruleAllows.None? && pc.policyAllows.None?
    requires ScanRules(Candidates(policies[..i], t), Context(pc.src, nsLabels, policyNs, pc.protocol, pc.port), start)
             == Exhausted(pc.reachableOnPort)
    ensures result.Exhausted? ==>
              && result == ScanRules(Candidates(policies[..i + 1], t), Context(pc.src, nsLabels, policyNs, pc.protocol, pc.port), start)
              && pc' == pc.(reachableOnPort := result.lastOnPort)
    ensures !result.Exhausted? ==>
              result == ScanRules(Candidates(policies, t), Context(pc.src, nsLabels, policyNs, pc.protocol, pc.port), start)
    ensures result.Matched? ==> pc' == Allowed(pc, result)
  {
    ghost var ctx := Context(pc.src, nsLabels, policyNs, pc.protocol, pc.port);
    var policy := policies[i];
    var rules := RulesOf(policy, t);
    ScanPrefixEnds(policies, t, i);
    pc' := pc;
    var j := 0;
    while j < |rules|
      invariant 0 <= j <= |rules|
      invariant pc' == pc.(reachableOnPort := pc'.reachableOnPort)
      invariant ScanRules(ScanPrefix(policies, t, i, j), ctx, start) == Exhausted(pc'.reachableOnPort)
    {
      RuleCandidate(policies, t, i, j);
      var verdict;
      verdict, pc' := ApplyRule(pc', nsLabels, policy, rules[j], policyNs);
      if !verdict.Exhausted? {
        ScanStops(policies, t, i, j, ctx, start);
        return verdict, pc';
      }
      ScanContinues(policies, t, i, j, ctx, start);
      j := j + 1;
    }
    result := Exhausted(pc'.reachableOnPort);
  }

  /**
   * The body of a pass's loop for policy i (lines 65-84 for egress, 89-108
   * for ingress): a policy that does not govern direction t is passed
   * over; one that does has its rules evaluated.
   */
  method EvaluatePolicy(pc: PodConnection, nsLabels: Labels, policies: seq<NetworkPolicy>, t: PolicyType, policyNs: string,
                        i: nat, ghost start: bool)
    returns (result: ScanResult, pc': PodConnection, applies: bool)
    requires i < |policies|
    requires !pc.reachable && pc.ruleAllows.None? && pc.policyAllows.None?
    requires ScanRules(Candidates(policies[..i], t), Context(pc.src, nsLabels, policyNs, pc.protocol, pc.port), start)
             == Exhausted(pc.reachableOnPort)
    ensures applies == AppliesTo(policies[i], t)
    ensures !applies ==> result == Exhausted(pc.reachableOnPort)
    ensures result.Exhausted? ==>
              && result == ScanRules(Candidates(policies[..i + 1], t), Context(pc.src, nsLabels, policyNs, pc.protocol, pc.port), start)
              && pc' == pc.(reachableOnPort := result.lastOnPort)
    ensures !result.Exhausted? ==>
              result == ScanRules(Candidates(policies, t), Context(pc.src, nsLabels, policyNs, pc.protocol, pc.port), start)
    ensures result.Matched? ==> pc' == Allowed(pc, result)
  {
    applies := AppliesTo(policies[i], t);
    if applies {
      result, pc' := EvaluatePolicyRules(pc, nsLabels, policies, t, policyNs, i, start);
    } else {
      SkippedPolicy(policies, t, i);
      result, pc' := Exhausted(pc.reachableOnPort), pc;
    }
  }

  /**
   * One pass of PodConnectionAnalysis (lines 63-85 for egress, 87-109 for
   * ingress): every selected policy in order, noting that a policy exists
   * and whether one governs direction t. The scan starts from the record's
   * current port result.
   */
  method EvaluatePass(pc: PodConnection, nsLabels: Labels, policies: seq<NetworkPolicy>, t: PolicyType, policyNs: string)
    returns (result: ScanResult, pc': PodConnection, hasPolicy: bool, hasDirection: bool)
    requires !pc.reachable && pc.ruleAllows.None? && pc.policyAllows.None?
    ensures result == ScanRules(Candidates(policies, t), Context(pc.src, nsLabels, policyNs, pc.protocol, pc.port), pc.reachableOnPort)
    ensures hasPolicy == (|policies| > 0)
    ensures hasDirection == HasApplicable(policies, t)
    ensures result.Exhausted? ==> pc' == pc.(reachableOnPort := result.lastOnPort)
    ensures result.Matched? ==> pc' == Allowed(pc, result)
  {
    ghost var ctx := Context(pc.src, nsLabels, policyNs, pc.protocol, pc.port);
    ghost var start := pc.reachableOnPort;
    pc' := pc;
    hasPolicy, hasDirection := false, false;
    var i := 0;
    while i < |policies|
      invariant 0 <= i <= |policies|
      invariant hasPolicy == (i > 0)
      invariant hasDirection == HasApplicable(policies[..i], t)
      invariant pc' == pc.(reachableOnPort := pc'.reachableOnPort)
      invariant ScanRules(Candidates(policies[..i], t), ctx, start) == Exhausted(pc'.reachableOnPort)
    {
      hasPolicy := true;
      HasApplicableStep(policies, i, t);
      assert Context(pc'.src, nsLabels, policyNs, pc'.protocol, pc'.port) == ctx;
      var policyResult, applies;
      policyResult, pc', applies := EvaluatePolicy(pc', nsLabels, policies, t, policyNs, i, start);
      hasDirection := hasDirection || applies;
      if !policyResult.Exhausted? {
        assert AppliesTo(policies[i], t);
        return policyResult, pc', hasPolicy, hasDirection;
      }
      assert ScanRules(Candidates(policies[..i + 1], t), ctx, start) == Exhausted(pc'.reachableOnPort);
      i := i + 1;
    }
    assert policies[..i] == policies;
    result := Exhausted(pc'.reachableOnPort);
  }

  /**
   * PodConnectionAnalysis: resolves both pods, lists the policies selecting
   * each, runs the egress pass (source pod's policies) and then the ingress
   * pass (destination pod's policies), and falls back to allowing the
   * connection when neither side has a policy governing its direction.
   */
  method PodConnectionAnalysis(c: Cluster, srcPodName: string, srcNsName: string, dstPodName: string, dstNsName: string,
                               protocol: string, port: string) returns (r: Result<PodConnection, AnalysisError>)
    requires NamespacesResolvable(c)
    ensures r == Analysis(c, srcPodName, srcNsName, dstPodName, dstNsName, protocol, port)
  {
    var srcKey := PodKey(srcNsName, srcPodName);
    if srcKey !in c.pods {
      return Err(SrcPodNotFound);
    }
    var srcPod := c.pods[srcKey];
    var dstKey := PodKey(dstNsName, dstPodName);
    if dstKey !in c.pods {
      return Err(DstPodNotFound);
    }
    var dstPod := c.pods[dstKey];

    var srcSelected := ListPoliciesPerPod(c, srcPod);
    if srcSelected.Err? {
      return Err(SrcPoliciesFailed);
    }
    var dstSelected := ListPoliciesPerPod(c, dstPod);
    if dstSelected.Err? {
      return Err(DstPoliciesFailed);
    }
    var srcApplied, dstApplied := srcSelected.value, dstSelected.value;

    // The peer check looks up the namespace of the pod it tests, always the source pod.
    var nsLabels := c.namespaces[srcPod.namespace];
    var pc := PodConnection(srcPod, dstPod, protocol, port, false, false, None, None, srcApplied, dstApplied);

    // Egress: the source pod is tested against the To peers of the source's policies.
    var egress, afterEgress, srcHasPolicy, srcHasEgress := EvaluatePass(pc, nsLabels, srcApplied, Egress, srcPod.namespace);
    if egress.PeerError? {
      return Err(EgressPeerFailed);
    } else if egress.PortError? {
      return Err(EgressPortFailed);
    } else if egress.Matched? {
      return Ok(afterEgress);
    }
    pc := afterEgress;

    // Ingress: the source pod is tested against the From peers of the destination's policies.
    var ingress, afterIngress, dstHasPolicy, dstHasIngress := EvaluatePass(pc, nsLabels, dstApplied, Ingress, dstPod.namespace);
    if ingress.PeerError? {
      return Err(IngressPeerFailed);
    } else if ingress.PortError? {
      return Err(IngressPortFailed);
    } else if ingress.Matched? {
      return Ok(afterIngress);
    }
    pc := afterIngress;

    // No rule admitted the pod: allow by default when neither side has a
    // policy governing the direction it was checked in.
    if (!srcHasPolicy || !srcHasEgress) && (!dstHasPolicy || !dstHasIngress) {
      pc := pc.(reachable := true, reachableOnPort := true);
    }
    return Ok(pc);
  }
}
