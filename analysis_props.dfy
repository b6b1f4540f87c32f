/**
 * What the decision procedure promises, proved about its specification
 * (Reachability.Decide / Reachability.Analysis, which PodConnectionAnalysis is
 * proved to compute).
 */
module AnalysisProperties {
  import opened Wrappers
  import opened Labels
  import opened Api
  import opened NetworkPolicies
  import opened PodConnections
  import opened Reachability

  // ---------------------------------------------------------------------
  // Scans and candidates
  // ---------------------------------------------------------------------

  /** Candidate k is the first decisive rule and it admits the pod. */
  predicate FirstMatchAt(cands: seq<Candidate>, ctx: Context, k: nat) {
    && k < |cands|
    && (forall j | 0 <= j < k :: EvaluateRule(ctx, cands[j]).Exhausted?)
    && EvaluateRule(ctx, cands[k]).Matched?
  }

  /** The first decisive candidate decides the scan. */
  lemma {:induction false} ScanFirstDecisive(cands: seq<Candidate>, ctx: Context, onPort: bool, k: nat)
    requires k < |cands|
    requires forall j | 0 <= j < k :: EvaluateRule(ctx, cands[j]).Exhausted?
    requires !EvaluateRule(ctx, cands[k]).Exhausted?
    ensures ScanRules(cands, ctx, onPort) == EvaluateRule(ctx, cands[k])
    decreases k
  {
    if k > 0 {
      var first := EvaluateRule(ctx, cands[0]);
      assert first.Exhausted?;
      assert forall j | 0 <= j < k - 1 :: cands[1..][j] == cands[j + 1];
      ScanFirstDecisive(cands[1..], ctx, first.lastOnPort, k - 1);
    }
  }

  /** When no candidate is decisive the scan is exhausted, with the last rule's port result. */
  lemma {:induction false} ScanAllExhausted(cands: seq<Candidate>, ctx: Context, onPort: bool)
    requires forall j | 0 <= j < |cands| :: EvaluateRule(ctx, cands[j]).Exhausted?
    ensures cands == [] ==> ScanRules(cands, ctx, onPort) == Exhausted(onPort)
    ensures cands != [] ==> ScanRules(cands, ctx, onPort) == EvaluateRule(ctx, cands[|cands| - 1])
    decreases |cands|
  {
    if cands != [] {
      var first := EvaluateRule(ctx, cands[0]);
      assert forall j | 0 <= j < |cands| - 1 :: cands[1..][j] == cands[j + 1];
      ScanAllExhausted(cands[1..], ctx, first.lastOnPort);
    }
  }

  /** A scan that stops was stopped by some candidate, all earlier ones being exhausted. */
  lemma {:induction false} ScanStoppedBy(cands: seq<Candidate>, ctx: Context, onPort: bool)
    requires !ScanRules(cands, ctx, onPort).Exhausted?
    ensures exists k | 0 <= k < |cands| ::
              && ScanRules(cands, ctx, onPort) == EvaluateRule(ctx, cands[k])
              && forall j | 0 <= j < k :: EvaluateRule(ctx, cands[j]).Exhausted?
    decreases |cands|
  {
    var first := EvaluateRule(ctx, cands[0]);
    if first.Exhausted? {
      ScanStoppedBy(cands[1..], ctx, first.lastOnPort);
      var k :| 0 <= k < |cands[1..]| && ScanRules(cands[1..], ctx, first.lastOnPort) == EvaluateRule(ctx, cands[1..][k])
               && forall j | 0 <= j < k :: EvaluateRule(ctx, cands[1..][j]).Exhausted?;
      assert forall j | 0 <= j < k + 1 :: EvaluateRule(ctx, cands[j]).Exhausted? by {
        forall j | 0 <= j < k + 1 ensures EvaluateRule(ctx, cands[j]).Exhausted? {
          if j > 0 {
            assert cands[j] == cands[1..][j - 1];
          }
        }
      }
      assert cands[k + 1] == cands[1..][k];
    } else {
      assert ScanRules(cands, ctx, onPort) == EvaluateRule(ctx, cands[0]);
    }
  }

  /** A matched scan names the policy of one of its candidates. */
  lemma MatchedPolicyIsCandidate(cands: seq<Candidate>, ctx: Context, onPort: bool)
    requires ScanRules(cands, ctx, onPort).Matched?
    ensures exists k | 0 <= k < |cands| :: cands[k].policy == ScanRules(cands, ctx, onPort).policy
  {
    ScanStoppedBy(cands, ctx, onPort);
  }

  /** Every candidate of a pass is a rule, for that direction, of a selected applicable policy. */
  lemma {:induction false} CandidateMembership(policies: seq<NetworkPolicy>, t: PolicyType, k: nat)
    requires k < |Candidates(policies, t)|
    ensures var c := Candidates(policies, t)[k];
            c.policy in policies && AppliesTo(c.policy, t) && c.rule in RulesOf(c.policy, t)
    decreases |policies|
  {
    var n := |policies| - 1;
    var before := Candidates(policies[..n], t);
    if k < |before| {
      CandidateMembership(policies[..n], t, k);
      assert Candidates(policies, t)[k] == before[k];
    } else {
      var pcs := PolicyCandidates(policies[n], t);
      assert Candidates(policies, t)[k] == pcs[k - |before|];
    }
  }

  /** With no policy governing t a pass evaluates no rule. */
  lemma {:induction false} NoApplicableNoCandidates(policies: seq<NetworkPolicy>, t: PolicyType)
    requires !HasApplicable(policies, t)
    ensures Candidates(policies, t) == []
    decreases |policies|
  {
    if policies != [] {
      var n := |policies| - 1;
      assert !AppliesTo(policies[n], t);
      assert !HasApplicable(policies[..n], t) by {
        forall i | 0 <= i < n ensures !AppliesTo(policies[..n][i], t) {
          assert policies[..n][i] == policies[i];
        }
      }
      NoApplicableNoCandidates(policies[..n], t);
    }
  }

  function RulesOfCandidates(cands: seq<Candidate>): seq<Rule> {
    seq(|cands|, k requires 0 <= k < |cands| => cands[k].rule)
  }

  /**
   * A pass evaluates exactly the rule list ingressSetGenerator /
   * egressSetGenerator aggregate for the same policies, in the same order.
   */
  lemma {:induction false} PassEvaluatesAggregatedRules(policies: seq<NetworkPolicy>, t: PolicyType)
    ensures RulesOfCandidates(Candidates(policies, t)) == RuleSet(policies, t)
    decreases |policies|
  {
    if policies != [] {
      var n := |policies| - 1;
      PassEvaluatesAggregatedRules(policies[..n], t);
      var before := Candidates(policies[..n], t);
      var pcs := PolicyCandidates(policies[n], t);
      assert RulesOfCandidates(before + pcs) == RulesOfCandidates(before) + RulesOfCandidates(pcs);
      if AppliesTo(policies[n], t) {
        assert RulesOfCandidates(pcs) == RulesOf(policies[n], t);
      } else {
        assert RulesOfCandidates(pcs) == [];
      }
    }
  }

  // ---------------------------------------------------------------------
  // The decision
  // ---------------------------------------------------------------------

  /**
   * The first egress rule whose peers admit the source pod decides: the
   * connection is reachable, policyAllows is that rule's policy (a
   * selected policy governing egress), ruleAllows its provenance and
   * reachableOnPort its port result.
   */
  lemma EgressFirstMatchWins(src: Pod, dst: Pod, nsLabels: Labels, protocol: string, port: string,
                             srcApplied: seq<NetworkPolicy>, dstApplied: seq<NetworkPolicy>, k: nat)
    requires FirstMatchAt(Candidates(srcApplied, Egress), EgressContext(src, nsLabels, protocol, port), k)
    ensures Decide(src, dst, nsLabels, protocol, port, srcApplied, dstApplied).Ok?
    ensures var pc := Decide(src, dst, nsLabels, protocol, port, srcApplied, dstApplied).value;
            var cand := Candidates(srcApplied, Egress)[k];
            var m := EvaluateRule(EgressContext(src, nsLabels, protocol, port), cand);
            && pc.reachable
            && pc.policyAllows == Some(cand.policy)
            && pc.ruleAllows == Some(m.rule)
            && pc.reachableOnPort == m.onPort
            && cand.policy in srcApplied && IsPolicyApplicableToEgress(cand.policy)
  {
    var cands := Candidates(srcApplied, Egress);
    ScanFirstDecisive(cands, EgressContext(src, nsLabels, protocol, port), false, k);
    CandidateMembership(srcApplied, Egress, k);
  }

  /**
   * When every egress rule lets the pod through undecided, the first
   * ingress rule of the destination's policies whose peers admit the
   * source pod decides, in the same way.
   */
  lemma IngressFirstMatchWins(src: Pod, dst: Pod, nsLabels: Labels, protocol: string, port: string,
                              srcApplied: seq<NetworkPolicy>, dstApplied: seq<NetworkPolicy>, k: nat)
    requires forall j | 0 <= j < |Candidates(srcApplied, Egress)| ::
               EvaluateRule(EgressContext(src, nsLabels, protocol, port), Candidates(srcApplied, Egress)[j]).Exhausted?
    requires FirstMatchAt(Candidates(dstApplied, Ingress), IngressContext(src, dst, nsLabels, protocol, port), k)
    ensures Decide(src, dst, nsLabels, protocol, port, srcApplied, dstApplied).Ok?
    ensures var pc := Decide(src, dst, nsLabels, protocol, port, srcApplied, dstApplied).value;
            var cand := Candidates(dstApplied, Ingress)[k];
            var m := EvaluateRule(IngressContext(src, dst, nsLabels, protocol, port), cand);
            && pc.reachable
            && pc.policyAllows == Some(cand.policy)
            && pc.ruleAllows == Some(m.rule)
            && pc.reachableOnPort == m.onPort
            && cand.policy in dstApplied && IsPolicyApplicableToIngress(cand.policy)
  {
    var egressCtx := EgressContext(src, nsLabels, protocol, port);
    ScanAllExhausted(Candidates(srcApplied, Egress), egressCtx, false);
    var egress := ScanRules(Candidates(srcApplied, Egress), egressCtx, false);
    ScanFirstDecisive(Candidates(dstApplied, Ingress), IngressContext(src, dst, nsLabels, protocol, port), egress.lastOnPort, k);
    CandidateMembership(dstApplied, Ingress, k);
  }

  /**
   * Once an egress rule admits the pod, neither the destination pod nor
   * any ingress rule of the destination's policies can change the verdict.
   */
  lemma EgressMatchIgnoresDestination(src: Pod, dst: Pod, otherDst: Pod, nsLabels: Labels, protocol: string, port: string,
                                      srcApplied: seq<NetworkPolicy>, dstApplied: seq<NetworkPolicy>, otherDstApplied: seq<NetworkPolicy>)
    requires ScanRules(Candidates(srcApplied, Egress), EgressContext(src, nsLabels, protocol, port), false).Matched?
    ensures Decide(src, dst, nsLabels, protocol, port, srcApplied, dstApplied).Ok?
    ensures Decide(src, otherDst, nsLabels, protocol, port, srcApplied, otherDstApplied) ==
            Ok(Decide(src, dst, nsLabels, protocol, port, srcApplied, dstApplied).value.(dst := otherDst, dstPolicies := otherDstApplied))
  {
  }

  /** Policies listed after the one whose egress rule matched cannot change the verdict. */
  lemma LaterEgressPoliciesIgnored(src: Pod, dst: Pod, nsLabels: Labels, protocol: string, port: string,
                                   srcApplied: seq<NetworkPolicy>, later: seq<NetworkPolicy>, dstApplied: seq<NetworkPolicy>)
    requires ScanRules(Candidates(srcApplied, Egress), EgressContext(src, nsLabels, protocol, port), false).Matched?
    ensures Decide(src, dst, nsLabels, protocol, port, srcApplied, dstApplied).Ok?
    ensures Decide(src, dst, nsLabels, protocol, port, srcApplied + later, dstApplied) ==
            Ok(Decide(src, dst, nsLabels, protocol, port, srcApplied, dstApplied).value.(srcPolicies := srcApplied + later))
  {
    CandidatesAppend(srcApplied, later, Egress);
    ScanAppend(Candidates(srcApplied, Egress), Candidates(later, Egress), EgressContext(src, nsLabels, protocol, port), false);
  }

  /**
   * When no rule on either side admits the pod (and nothing fails): the
   * connection is reachable exactly when
   * (!srcHasPolicy || !srcHasEgress) && (!dstHasPolicy || !dstHasIngress),
   * and then reachable on the port as well; no policy or rule is credited.
   */
  lemma NoRuleMatchedDecision(src: Pod, dst: Pod, nsLabels: Labels, protocol: string, port: string,
                              srcApplied: seq<NetworkPolicy>, dstApplied: seq<NetworkPolicy>)
    requires forall j | 0 <= j < |Candidates(srcApplied, Egress)| ::
               EvaluateRule(EgressContext(src, nsLabels, protocol, port), Candidates(srcApplied, Egress)[j]).Exhausted?
    requires forall j | 0 <= j < |Candidates(dstApplied, Ingress)| ::
               EvaluateRule(IngressContext(src, dst, nsLabels, protocol, port), Candidates(dstApplied, Ingress)[j]).Exhausted?
    ensures Decide(src, dst, nsLabels, protocol, port, srcApplied, dstApplied).Ok?
    ensures var pc := Decide(src, dst, nsLabels, protocol, port, srcApplied, dstApplied).value;
            && pc.policyAllows.None?
            && pc.ruleAllows.None?
            && (pc.reachable <==> (|srcApplied| == 0 || !HasApplicable(srcApplied, Egress))
                                  && (|dstApplied| == 0 || !HasApplicable(dstApplied, Ingress)))
            && (pc.reachable ==> pc.reachableOnPort)
  {
    var egressCands, ingressCands := Candidates(srcApplied, Egress), Candidates(dstApplied, Ingress);
    var egressCtx, ingressCtx := EgressContext(src, nsLabels, protocol, port), IngressContext(src, dst, nsLabels, protocol, port);
    ScanAllExhausted(egressCands, egressCtx, false);
    var egress := ScanRules(egressCands, egressCtx, false);
    assert egress.Exhausted?;
    ScanAllExhausted(ingressCands, ingressCtx, egress.lastOnPort);
    var ingress := ScanRules(ingressCands, ingressCtx, egress.lastOnPort);
    assert ingress.Exhausted?;
    var pc := PodConnection(src, dst, protocol, port, false, false, None, None, srcApplied, dstApplied);
    var defaultAllow := !HasApplicable(srcApplied, Egress) && !HasApplicable(dstApplied, Ingress);
    assert Decide(src, dst, nsLabels, protocol, port, srcApplied, dstApplied) == Verdict(pc, egress, ingress, defaultAllow);
    VerdictExhausted(pc, egress, ingress, defaultAllow);
  }

  /** When both passes were exhausted, the default-allow condition alone decides. */
  lemma VerdictExhausted(pc: PodConnection, egress: ScanResult, ingress: ScanResult, defaultAllow: bool)
    requires egress.Exhausted? && ingress.Exhausted?
    ensures Verdict(pc, egress, ingress, defaultAllow).Ok?
    ensures var r := Verdict(pc, egress, ingress, defaultAllow).value;
            && r.reachable == (pc.reachable || defaultAllow)
            && (defaultAllow ==> r.reachableOnPort)
            && r.policyAllows == pc.policyAllows && r.ruleAllows == pc.ruleAllows
  {
  }

  /**
   * The default-allow verdict (reachable with no policy credited) is only
   * ever reached when neither pass evaluated a single rule.
   */
  lemma DefaultAllowEvaluatesNoRule(src: Pod, dst: Pod, nsLabels: Labels, protocol: string, port: string,
                                    srcApplied: seq<NetworkPolicy>, dstApplied: seq<NetworkPolicy>)
    requires Decide(src, dst, nsLabels, protocol, port, srcApplied, dstApplied).Ok?
    requires Decide(src, dst, nsLabels, protocol, port, srcApplied, dstApplied).value.reachable
    requires Decide(src, dst, nsLabels, protocol, port, srcApplied, dstApplied).value.policyAllows.None?
    ensures Candidates(srcApplied, Egress) == [] && Candidates(dstApplied, Ingress) == []
    ensures !HasApplicable(srcApplied, Egress) && !HasApplicable(dstApplied, Ingress)
  {
    NoApplicableNoCandidates(srcApplied, Egress);
    NoApplicableNoCandidates(dstApplied, Ingress);
  }

  /**
   * With no policy governing the source's egress and none governing the
   * destination's ingress, the connection is allowed and reachable on the
   * port, whatever protocol and port were asked for.
   */
  lemma UngovernedPairAllowed(src: Pod, dst: Pod, nsLabels: Labels, protocol: string, port: string,
                              srcApplied: seq<NetworkPolicy>, dstApplied: seq<NetworkPolicy>)
    requires !HasApplicable(srcApplied, Egress) && !HasApplicable(dstApplied, Ingress)
    ensures Decide(src, dst, nsLabels, protocol, port, srcApplied, dstApplied).Ok?
    ensures var pc := Decide(src, dst, nsLabels, protocol, port, srcApplied, dstApplied).value;
            pc.reachable && pc.reachableOnPort && pc.policyAllows.None? && pc.ruleAllows.None?
  {
    NoApplicableNoCandidates(srcApplied, Egress);
    NoApplicableNoCandidates(dstApplied, Ingress);
  }

  /** With a half-given protocol/port pair, the first rule a scan evaluates ends it in an error. */
  lemma HalfPortPairStopsScan(cands: seq<Candidate>, ctx: Context, onPort: bool)
    requires (ctx.protocol == "") != (ctx.port == "")
    ensures ScanRules(cands, ctx, onPort).Exhausted? <==> cands == []
    ensures cands != [] ==> ScanRules(cands, ctx, onPort).PeerError? || ScanRules(cands, ctx, onPort).PortError?
  {
    if cands != [] {
      var ports := cands[0].rule.ports;
      assert IsProtocolPortInNetworkPolicyPorts(ctx.protocol, ctx.port, ports).Err?;
    }
  }

  /**
   * A protocol without a port (or a port without a protocol) fails the
   * analysis as soon as one rule is evaluated, and only then: on the
   * default-allow and the no-rule block paths it goes unnoticed.
   */
  lemma HalfPortPairFailsIffRuleEvaluated(src: Pod, dst: Pod, nsLabels: Labels, protocol: string, port: string,
                                          srcApplied: seq<NetworkPolicy>, dstApplied: seq<NetworkPolicy>)
    requires (protocol == "") != (port == "")
    ensures Decide(src, dst, nsLabels, protocol, port, srcApplied, dstApplied).Err? <==>
            |Candidates(srcApplied, Egress)| + |Candidates(dstApplied, Ingress)| > 0
  {
    var egressCtx := EgressContext(src, nsLabels, protocol, port);
    HalfPortPairStopsScan(Candidates(srcApplied, Egress), egressCtx, false);
    if Candidates(srcApplied, Egress) == [] {
      var ingressCtx := IngressContext(src, dst, nsLabels, protocol, port);
      HalfPortPairStopsScan(Candidates(dstApplied, Ingress), ingressCtx, false);
    }
  }

  /**
   * A credited policy means a rule matched: the connection is reachable and
   * the policy is a selected policy governing the direction of its pass.
   * Conversely a blocked connection credits no policy and no rule.
   */
  lemma GoverningPolicyMatched(src: Pod, dst: Pod, nsLabels: Labels, protocol: string, port: string,
                               srcApplied: seq<NetworkPolicy>, dstApplied: seq<NetworkPolicy>)
    requires Decide(src, dst, nsLabels, protocol, port, srcApplied, dstApplied).Ok?
    ensures var pc := Decide(src, dst, nsLabels, protocol, port, srcApplied, dstApplied).value;
            && (pc.policyAllows.Some? ==>
                  && pc.reachable
                  && ((pc.policyAllows.value in srcApplied && IsPolicyApplicableToEgress(pc.policyAllows.value))
                      || (pc.policyAllows.value in dstApplied && IsPolicyApplicableToIngress(pc.policyAllows.value))))
            && (!pc.reachable ==> pc.policyAllows.None? && pc.ruleAllows.None?)
  {
    var egressCands, ingressCands := Candidates(srcApplied, Egress), Candidates(dstApplied, Ingress);
    var egressCtx, ingressCtx := EgressContext(src, nsLabels, protocol, port), IngressContext(src, dst, nsLabels, protocol, port);
    var egress := ScanRules(egressCands, egressCtx, false);
    var ingress := ScanRules(ingressCands, ingressCtx, egress.Exhausted? && egress.lastOnPort);
    var pc := PodConnection(src, dst, protocol, port, false, false, None, None, srcApplied, dstApplied);
    var defaultAllow := !HasApplicable(srcApplied, Egress) && !HasApplicable(dstApplied, Ingress);
    assert Decide(src, dst, nsLabels, protocol, port, srcApplied, dstApplied) == Verdict(pc, egress, ingress, defaultAllow);
    VerdictCredits(pc, egress, ingress, defaultAllow);
    if egress.Matched? {
      ScanStoppedBy(egressCands, egressCtx, false);
      var k :| 0 <= k < |egressCands| && egress == EvaluateRule(egressCtx, egressCands[k]);
      CandidateMembership(srcApplied, Egress, k);
      MatchedCandidatePolicy(egressCtx, egressCands[k]);
    } else if egress.Exhausted? && ingress.Matched? {
      ScanStoppedBy(ingressCands, ingressCtx, egress.lastOnPort);
      var k :| 0 <= k < |ingressCands| && ingress == EvaluateRule(ingressCtx, ingressCands[k]);
      CandidateMembership(dstApplied, Ingress, k);
      MatchedCandidatePolicy(ingressCtx, ingressCands[k]);
    }
  }

  /** A rule that admits the pod credits the policy it came from. */
  lemma MatchedCandidatePolicy(ctx: Context, c: Candidate)
    requires EvaluateRule(ctx, c).Matched?
    ensures EvaluateRule(ctx, c).policy == c.policy
  {
  }

  /**
   * Only a matched pass credits a policy, and it credits the policy of the
   * matching rule; a verdict that blocks keeps the record's empty credits.
   */
  lemma VerdictCredits(pc: PodConnection, egress: ScanResult, ingress: ScanResult, defaultAllow: bool)
    requires Verdict(pc, egress, ingress, defaultAllow).Ok?
    ensures var r := Verdict(pc, egress, ingress, defaultAllow).value;
            && (r.policyAllows != pc.policyAllows ==>
                  && r.reachable
                  && ((egress.Matched? && r.policyAllows == Some(egress.policy))
                      || (egress.Exhausted? && ingress.Matched? && r.policyAllows == Some(ingress.policy))))
            && (!r.reachable ==> r.policyAllows == pc.policyAllows && r.ruleAllows == pc.ruleAllows)
  {
  }

  /** The record names the two pods and the policies selected for each. */
  lemma DecideKeepsInputs(src: Pod, dst: Pod, nsLabels: Labels, protocol: string, port: string,
                          srcApplied: seq<NetworkPolicy>, dstApplied: seq<NetworkPolicy>)
    requires Decide(src, dst, nsLabels, protocol, port, srcApplied, dstApplied).Ok?
    ensures var pc := Decide(src, dst, nsLabels, protocol, port, srcApplied, dstApplied).value;
            pc.src == src && pc.dst == dst && pc.srcPolicies == srcApplied && pc.dstPolicies == dstApplied
            && pc.protocol == protocol && pc.port == port
  {
    var egress := ScanRules(Candidates(srcApplied, Egress), EgressContext(src, nsLabels, protocol, port), false);
    var ingress := ScanRules(Candidates(dstApplied, Ingress), IngressContext(src, dst, nsLabels, protocol, port),
                             egress.Exhausted? && egress.lastOnPort);
    VerdictKeepsInputs(PodConnection(src, dst, protocol, port, false, false, None, None, srcApplied, dstApplied),
                       egress, ingress, !HasApplicable(srcApplied, Egress) && !HasApplicable(dstApplied, Ingress));
  }

  /** Concluding changes only the verdict fields of the record. */
  lemma VerdictKeepsInputs(pc: PodConnection, egress: ScanResult, ingress: ScanResult, defaultAllow: bool)
    requires Verdict(pc, egress, ingress, defaultAllow).Ok?
    ensures var r := Verdict(pc, egress, ingress, defaultAllow).value;
            r.src == pc.src && r.dst == pc.dst && r.srcPolicies == pc.srcPolicies && r.dstPolicies == pc.dstPolicies
            && r.protocol == pc.protocol && r.port == pc.port
  {
  }


  /**
   * The policies the analysis reports as considered are exactly the
   * policies of each pod's namespace whose pod selector matches that pod.
   */
  lemma ConsideredPoliciesSelectThePods(c: Cluster, srcPodName: string, srcNsName: string, dstPodName: string, dstNsName: string,
                                        protocol: string, port: string)
    requires NamespacesResolvable(c)
    requires Analysis(c, srcPodName, srcNsName, dstPodName, dstNsName, protocol, port).Ok?
    ensures var pc := Analysis(c, srcPodName, srcNsName, dstPodName, dstNsName, protocol, port).value;
            && pc.src == c.pods[PodKey(srcNsName, srcPodName)]
            && pc.dst == c.pods[PodKey(dstNsName, dstPodName)]
            && (forall p :: p in pc.srcPolicies <==>
                  p in PoliciesInNamespace(c, pc.src.namespace) && Matches(p.podSelector, pc.src.labels))
            && (forall p :: p in pc.dstPolicies <==>
                  p in PoliciesInNamespace(c, pc.dst.namespace) && Matches(p.podSelector, pc.dst.labels))
  {
    var src, dst := c.pods[PodKey(srcNsName, srcPodName)], c.pods[PodKey(dstNsName, dstPodName)];
    var srcApplied, dstApplied := PoliciesPerPod(c, src).value, PoliciesPerPod(c, dst).value;
    DecideKeepsInputs(src, dst, c.namespaces[src.namespace], protocol, port, srcApplied, dstApplied);
    SelectPoliciesMembership(PoliciesInNamespace(c, src.namespace), src.labels);
    SelectPoliciesMembership(PoliciesInNamespace(c, dst.namespace), dst.labels);
  }

  /**
   * When policies are stored under their own namespace, every rule a pass
   * evaluates belongs to a policy of the namespace passed to the peer check
   * (the source's for egress, the destination's for ingress): an
   * un-namespaced pod selector is scoped to the rule's own policy.
   */
  lemma RulesCheckedInPolicyNamespace(c: Cluster, pod: Pod, t: PolicyType, k: nat)
    requires PoliciesNamespaced(c)
    requires PoliciesPerPod(c, pod).Ok?
    requires k < |Candidates(PoliciesPerPod(c, pod).value, t)|
    ensures Candidates(PoliciesPerPod(c, pod).value, t)[k].policy.namespace == pod.namespace
  {
    var listed := PoliciesInNamespace(c, pod.namespace);
    var selected := PoliciesPerPod(c, pod).value;
    CandidateMembership(selected, t, k);
    SelectPoliciesMembership(listed, pod.labels);
    var p := Candidates(selected, t)[k].policy;
    assert p in listed;
    var i :| 0 <= i < |listed| && listed[i] == p;
  }
}
