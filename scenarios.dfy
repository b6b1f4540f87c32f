/**
 * Concrete connections worked through the decision: a client pod and a web
 * pod in namespace "default", and policies on the web pod.
 */
module Scenarios {
  import opened Wrappers
  import opened Labels
  import opened Api
  import opened NetworkPolicies
  import opened PodConnections
  import opened Reachability

  function Select(key: string, value: string): LabelSelector {
    LabelSelector(map[key := value], [])
  }

  const client: Pod := Pod("client", "default", map["app" := "client"])
  const web: Pod := Pod("web", "default", map["app" := "web"])
  const defaultLabels: Labels := map["team" := "core"]

  /** The web pod's policy: ingress from app=client pods on TCP/6379. */
  const redisRule: Rule := Rule([NetworkPolicyPeer(Some(Select("app", "client")), None)],
                                [NetworkPolicyPort("TCP", IntOrString(6379, ""))])
  const allowClient: NetworkPolicy :=
    NetworkPolicy("allow-client", "default", Select("app", "web"), Some([Ingress]), [redisRule], None)

  lemma FormatInt6379()
    ensures FormatInt(6379) == "6379"
  {
    assert NatToString(6) == "6";
    assert NatToString(63) == NatToString(6) + [DigitChar(3)];
    assert NatToString(637) == NatToString(63) + [DigitChar(7)];
    assert NatToString(6379) == NatToString(637) + [DigitChar(9)];
  }

  lemma SingleCandidate(policy: NetworkPolicy, t: PolicyType, rule: Rule)
    requires AppliesTo(policy, t) && RulesOf(policy, t) == [rule]
    ensures Candidates([policy], t) == [Candidate(policy, rule)]
  {
    assert [policy][..0] == [];
  }

  /** A: no policy anywhere; the connection is allowed by default, on any port. */
  lemma ScenarioNoPolicies()
    ensures var c := Cluster(map[PodKey("default", "client") := client, PodKey("default", "web") := web],
                             map["default" := defaultLabels], map[]);
            && NamespacesResolvable(c)
            && Analysis(c, "client", "default", "web", "default", "TCP", "6379").Ok?
            && var pc := Analysis(c, "client", "default", "web", "default", "TCP", "6379").value;
               pc.reachable && pc.reachableOnPort && pc.policyAllows.None?
  {
    var c := Cluster(map[PodKey("default", "client") := client, PodKey("default", "web") := web],
                     map["default" := defaultLabels], map[]);
    assert PoliciesPerPod(c, client) == Ok([]);
    assert PoliciesPerPod(c, web) == Ok([]);
  }

  /** B: the web pod admits app=client on TCP/6379; asking for TCP/6379 is allowed by that policy. */
  lemma ScenarioPolicyAllowsPort()
    ensures Decide(client, web, defaultLabels, "TCP", "6379", [], [allowClient]).Ok?
    ensures var pc := Decide(client, web, defaultLabels, "TCP", "6379", [], [allowClient]).value;
            pc.reachable && pc.reachableOnPort && pc.policyAllows == Some(allowClient)
  {
    SingleCandidate(allowClient, Ingress, redisRule);
    FormatInt6379();
    assert PortEntryMatches(redisRule.ports[0], "TCP", "6379");
    assert MatchPeer(client, defaultLabels, redisRule.peers[0], "default") == Ok(Some(PodSelectorOnly(Select("app", "client"))));
  }

  /** C: the same policy, asking for port 9999: the peer matches, so reachable, but not on that port. */
  lemma ScenarioPolicyOtherPort()
    ensures Decide(client, web, defaultLabels, "TCP", "9999", [], [allowClient]).Ok?
    ensures var pc := Decide(client, web, defaultLabels, "TCP", "9999", [], [allowClient]).value;
            pc.reachable && !pc.reachableOnPort && pc.policyAllows == Some(allowClient)
  {
    SingleCandidate(allowClient, Ingress, redisRule);
    FormatInt6379();
    assert "6379"[0] != "9999"[0];
    assert !PortEntryMatches(redisRule.ports[0], "TCP", "9999");
    assert MatchPeer(client, defaultLabels, redisRule.peers[0], "default") == Ok(Some(PodSelectorOnly(Select("app", "client"))));
  }

  /** D: an Ingress policy with no rule blocks everything into the web pod, and is reported. */
  lemma ScenarioDenyAllIngress()
    ensures var denyAll := NetworkPolicy("deny-all", "default", Everything, Some([Ingress]), [], None);
            && Decide(client, web, defaultLabels, "", "", [], [denyAll]).Ok?
            && var pc := Decide(client, web, defaultLabels, "", "", [], [denyAll]).value;
               !pc.reachable && pc.policyAllows.None? && pc.dstPolicies == [denyAll]
  {
    var denyAll := NetworkPolicy("deny-all", "default", Everything, Some([Ingress]), [], None);
    assert [denyAll][..0] == [];
    assert |PolicyCandidates(denyAll, Ingress)| == 0;
    assert Candidates([denyAll], Ingress) == [];
    assert AppliesTo([denyAll][0], Ingress);
  }

  /** E: a namespace-selector-only peer admits an unlabelled pod of a matching namespace. */
  lemma ScenarioNamespaceSelector()
    ensures var frontend := Pod("frontend", "shop", map[]);
            var rule := Rule([NetworkPolicyPeer(None, Some(Select("team", "shop")))], []);
            var policy := NetworkPolicy("from-shop", "default", Everything, Some([Ingress]), [rule], None);
            && Decide(frontend, web, map["team" := "shop"], "", "", [], [policy]).Ok?
            && Decide(frontend, web, map["team" := "shop"], "", "", [], [policy]).value.reachable
  {
    var frontend := Pod("frontend", "shop", map[]);
    var rule := Rule([NetworkPolicyPeer(None, Some(Select("team", "shop")))], []);
    var policy := NetworkPolicy("from-shop", "default", Everything, Some([Ingress]), [rule], None);
    SingleCandidate(policy, Ingress, rule);
    assert MatchPeer(frontend, map["team" := "shop"], rule.peers[0], "default") == Ok(Some(NamespaceSelectorOnly(Select("team", "shop"))));
  }

  /**
   * The egress pass tests the SOURCE pod against the To peers. A web pod
   * whose only egress rule allows traffic to app=client pods cannot reach
   * the client pod: the web pod's own labels are what the rule is tested
   * against. A rule naming the web pod's own labels lets it reach the
   * client pod instead.
   */
  lemma EgressRuleTestsSourcePod()
    ensures var toClient := Rule([NetworkPolicyPeer(Some(Select("app", "client")), None)], []);
            var egressToClient := NetworkPolicy("to-client", "default", Select("app", "web"), Some([Egress]), [], Some([toClient]));
            && Decide(web, client, defaultLabels, "", "", [egressToClient], []).Ok?
            && !Decide(web, client, defaultLabels, "", "", [egressToClient], []).value.reachable
    ensures var toSelf := Rule([NetworkPolicyPeer(Some(Select("app", "web")), None)], []);
            var egressToSelf := NetworkPolicy("to-self", "default", Select("app", "web"), Some([Egress]), [], Some([toSelf]));
            && Decide(web, client, defaultLabels, "", "", [egressToSelf], []).Ok?
            && Decide(web, client, defaultLabels, "", "", [egressToSelf], []).value.policyAllows == Some(egressToSelf)
  {
    var toClient := Rule([NetworkPolicyPeer(Some(Select("app", "client")), None)], []);
    var egressToClient := NetworkPolicy("to-client", "default", Select("app", "web"), Some([Egress]), [], Some([toClient]));
    SingleCandidate(egressToClient, Egress, toClient);
    assert !Matches(Select("app", "client"), web.labels) by {
      assert "app" in Select("app", "client").matchLabels;
    }
    assert MatchPeer(web, defaultLabels, toClient.peers[0], "default") == Ok(None);
    assert HasApplicable([egressToClient], Egress) by {
      assert AppliesTo([egressToClient][0], Egress);
    }
    var toSelf := Rule([NetworkPolicyPeer(Some(Select("app", "web")), None)], []);
    var egressToSelf := NetworkPolicy("to-self", "default", Select("app", "web"), Some([Egress]), [], Some([toSelf]));
    SingleCandidate(egressToSelf, Egress, toSelf);
    assert MatchPeer(web, defaultLabels, toSelf.peers[0], "default") == Ok(Some(PodSelectorOnly(Select("app", "web"))));
  }
}
