/**
 * Which network policies govern a pod, and which of their rules apply in
 * each direction (pkg/k8s/networkpolicy.go).
 */
module NetworkPolicies {
  import opened Wrappers
  import opened Labels
  import opened Api

  // ---------------------------------------------------------------------
  // Policy applicability
  // ---------------------------------------------------------------------

  /** The scan of a PolicyTypes list for one type. */
  function ContainsType(types: seq<PolicyType>, t: PolicyType): (r: bool)
    ensures r <==> t in types
  {
    if types == [] then false else types[0] == t || ContainsType(types[1..], t)
  }

  /** A policy governs ingress unless its PolicyTypes are set and leave Ingress out. */
  function IsPolicyApplicableToIngress(policy: NetworkPolicy): (r: bool)
    ensures policy.policyTypes.None? ==> r
    ensures policy.policyTypes.Some? ==> (r <==> Ingress in policy.policyTypes.value)
  {
    match policy.policyTypes
    case None => true
    case Some(types) => ContainsType(types, Ingress)
  }

  /**
   * Without PolicyTypes a policy governs egress exactly when its Egress
   * section is present (non-nil, possibly empty); with PolicyTypes, exactly
   * when they name Egress, whether or not any egress rule exists.
   */
  function IsPolicyApplicableToEgress(policy: NetworkPolicy): (r: bool)
    ensures policy.policyTypes.None? ==> (r <==> policy.egress.Some?)
    ensures policy.policyTypes.Some? ==> (r <==> Egress in policy.policyTypes.value)
  {
    match policy.policyTypes
    case None => policy.egress.Some?
    case Some(types) => ContainsType(types, Egress)
  }

  function AppliesTo(policy: NetworkPolicy, t: PolicyType): bool {
    if t == Ingress then IsPolicyApplicableToIngress(policy) else IsPolicyApplicableToEgress(policy)
  }

  /** The rules of one direction; ranging over a nil Egress section yields none. */
  function RulesOf(policy: NetworkPolicy, t: PolicyType): seq<Rule> {
    if t == Ingress then policy.ingress else policy.egress.GetOr([])
  }

  predicate HasApplicable(policies: seq<NetworkPolicy>, t: PolicyType) {
    exists i | 0 <= i < |policies| :: AppliesTo(policies[i], t)
  }

  lemma HasApplicableStep(policies: seq<NetworkPolicy>, i: nat, t: PolicyType)
    requires i < |policies|
    ensures HasApplicable(policies[..i + 1], t) <==> HasApplicable(policies[..i], t) || AppliesTo(policies[i], t)
  {
    var prefix := policies[..i + 1];
    if HasApplicable(prefix, t) && !AppliesTo(policies[i], t) {
      var j :| 0 <= j < |prefix| && AppliesTo(prefix[j], t);
      assert j < i && policies[..i][j] == prefix[j];
    }
    if HasApplicable(policies[..i], t) {
      var j :| 0 <= j < i && AppliesTo(policies[..i][j], t);
      assert prefix[j] == policies[..i][j];
    }
    if AppliesTo(policies[i], t) {
      assert prefix[i] == policies[i];
    }
  }

  // ---------------------------------------------------------------------
  // Policy selection: ListPoliciesPerPod
  // ---------------------------------------------------------------------

  /** The policies whose pod selector matches the labels, in list order. */
  function SelectPolicies(policies: seq<NetworkPolicy>, labels: Labels): (r: seq<NetworkPolicy>)
    ensures |r| <= |policies|
  {
    if policies == [] then []
    else
      var last := policies[|policies| - 1];
      SelectPolicies(policies[..|policies| - 1], labels) + (if Matches(last.podSelector, labels) then [last] else [])
  }

  predicate AllPodSelectorsValid(policies: seq<NetworkPolicy>) {
    forall i | 0 <= i < |policies| :: ValidSelector(policies[i].podSelector)
  }

  /** What ListPoliciesPerPod computes for a pod. */
  function PoliciesPerPod(c: Cluster, pod: Pod): Result<seq<NetworkPolicy>, SelectorError> {
    var policies := PoliciesInNamespace(c, pod.namespace);
    if AllPodSelectorsValid(policies) then Ok(SelectPolicies(policies, pod.labels)) else Err(InvalidSelector)
  }

  /**
   * Lists the policies of the pod's namespace and keeps those whose pod
   * selector matches the pod's labels. Fails when any pod selector cannot
   * be converted.
   */
  method ListPoliciesPerPod(c: Cluster, pod: Pod) returns (r: Result<seq<NetworkPolicy>, SelectorError>)
    ensures r == PoliciesPerPod(c, pod)
    ensures r.Err? <==> exists i | 0 <= i < |PoliciesInNamespace(c, pod.namespace)| ::
                          !ValidSelector(PoliciesInNamespace(c, pod.namespace)[i].podSelector)
    ensures r.Ok? ==> forall p :: p in r.value <==>
                        p in PoliciesInNamespace(c, pod.namespace) && Matches(p.podSelector, pod.labels)
  {
    var applied: seq<NetworkPolicy> := [];
    var policies := PoliciesInNamespace(c, pod.namespace);
    var i := 0;
    while i < |policies|
      invariant 0 <= i <= |policies|
      invariant applied == SelectPolicies(policies[..i], pod.labels)
      invariant AllPodSelectorsValid(policies[..i])
    {
      var policy := policies[i];
      if !ValidSelector(policy.podSelector) {
        return Err(InvalidSelector);
      }
      if Matches(policy.podSelector, pod.labels) {
        applied := applied + [policy];
      }
      assert policies[..i + 1][..i] == policies[..i];
      i := i + 1;
    }
    assert policies[..i] == policies;
    SelectPoliciesMembership(policies, pod.labels);
    return Ok(applied);
  }

  /** Exactly the policies whose pod selector matches are selected. */
  lemma {:induction false} SelectPoliciesMembership(policies: seq<NetworkPolicy>, labels: Labels)
    ensures forall p :: p in SelectPolicies(policies, labels) <==> p in policies && Matches(p.podSelector, labels)
    decreases |policies|
  {
    if policies != [] {
      var n := |policies| - 1;
      SelectPoliciesMembership(policies[..n], labels);
      assert policies == policies[..n] + [policies[n]];
    }
  }

  /** Selection distributes over concatenation: relative order is kept. */
  lemma {:induction false} SelectPoliciesAppend(a: seq<NetworkPolicy>, b: seq<NetworkPolicy>, labels: Labels)
    ensures SelectPolicies(a + b, labels) == SelectPolicies(a, labels) + SelectPolicies(b, labels)
    decreases |b|
  {
    if b == [] {
      assert a + b == a;
    } else {
      var last := b[|b| - 1];
      var init := b[..|b| - 1];
      assert (a + b)[..|a + b| - 1] == a + init;
      assert (a + b)[|a + b| - 1] == last;
      SelectPoliciesAppend(a, init, labels);
    }
  }

  // ---------------------------------------------------------------------
  // Rule aggregation: ingressSetGenerator / egressSetGenerator
  // ---------------------------------------------------------------------

  /** The rules, for direction t, of the policies applicable to t, in policy then rule order. */
  function RuleSet(policies: seq<NetworkPolicy>, t: PolicyType): seq<Rule> {
    if policies == [] then []
    else
      var last := policies[|policies| - 1];
      RuleSet(policies[..|policies| - 1], t) + (if AppliesTo(last, t) then RulesOf(last, t) else [])
  }

  /** How many rules the applicable policies hold in direction t. */
  function RuleCount(policies: seq<NetworkPolicy>, t: PolicyType): nat {
    if policies == [] then 0
    else
      var last := policies[|policies| - 1];
      RuleCount(policies[..|policies| - 1], t) + (if AppliesTo(last, t) then |RulesOf(last, t)| else 0)
  }

  datatype GeneratorError = PolicyNotFound | IngressNotSet | EgressNotSet

  function NotSetError(t: PolicyType): GeneratorError {
    if t == Ingress then IngressNotSet else EgressNotSet
  }

  /**
   * The shared body of ingressSetGenerator and egressSetGenerator: appends,
   * policy by policy and rule by rule, the rules of the applicable policies;
   * reports PolicyNotFound for an empty list and the direction's NotSet error
   * when no policy applies. The rule list is returned in every case.
   */
  method SetGenerator(policies: seq<NetworkPolicy>, t: PolicyType) returns (rules: seq<Rule>, err: Option<GeneratorError>)
    ensures rules == RuleSet(policies, t)
    ensures err == Some(PolicyNotFound) <==> |policies| == 0
    ensures err == Some(NotSetError(t)) <==> |policies| > 0 && !HasApplicable(policies, t)
    ensures err.None? <==> HasApplicable(policies, t)
  {
    rules := [];
    var hasPolicy, hasDirection := false, false;
    for i := 0 to |policies|
      invariant rules == RuleSet(policies[..i], t)
      invariant hasPolicy == (i > 0)
      invariant hasDirection == HasApplicable(policies[..i], t)
    {
      var policy := policies[i];
      hasPolicy := true;
      HasApplicableStep(policies, i, t);
      if AppliesTo(policy, t) {
        hasDirection := true;
        var single := RulesOf(policy, t);
        for j := 0 to |single|
          invariant rules == RuleSet(policies[..i], t) + single[..j]
        {
          assert single[..j + 1] == single[..j] + [single[j]];
          rules := rules + [single[j]];
        }
        assert single[..|single|] == single;
      }
      assert policies[..i + 1][..i] == policies[..i];
    }
    assert policies[..|policies|] == policies;
    err := None;
    if !hasPolicy {
      err := Some(PolicyNotFound);
    }
    if hasPolicy && !hasDirection {
      err := Some(NotSetError(t));
    }
  }

  method IngressSetGenerator(policies: seq<NetworkPolicy>) returns (rules: seq<Rule>, err: Option<GeneratorError>)
    ensures rules == RuleSet(policies, Ingress)
    ensures err == Some(PolicyNotFound) <==> |policies| == 0
    ensures err == Some(IngressNotSet) <==> |policies| > 0 && !HasApplicable(policies, Ingress)
    ensures err.None? <==> HasApplicable(policies, Ingress)
  {
    rules, err := SetGenerator(policies, Ingress);
  }

  method EgressSetGenerator(policies: seq<NetworkPolicy>) returns (rules: seq<Rule>, err: Option<GeneratorError>)
    ensures rules == RuleSet(policies, Egress)
    ensures err == Some(PolicyNotFound) <==> |policies| == 0
    ensures err == Some(EgressNotSet) <==> |policies| > 0 && !HasApplicable(policies, Egress)
    ensures err.None? <==> HasApplicable(policies, Egress)
  {
    rules, err := SetGenerator(policies, Egress);
  }

  /** Errors of ListIngressRulesPerPod / ListEgressRulesPerPod. */
  datatype RuleListError = SelectionFailed(selector: SelectorError) | NotGenerated(generator: GeneratorError)

  /**
   * Selection followed by generation. A selection failure yields no rule
   * list at all; a generator error comes with the (possibly empty) list.
   */
  method ListRulesPerPod(c: Cluster, pod: Pod, t: PolicyType) returns (rules: Option<seq<Rule>>, err: Option<RuleListError>)
    ensures PoliciesPerPod(c, pod).Err? ==> rules.None? && err == Some(SelectionFailed(InvalidSelector))
    ensures PoliciesPerPod(c, pod).Ok? ==>
      var matched := PoliciesPerPod(c, pod).value;
      && rules == Some(RuleSet(matched, t))
      && err == (if |matched| == 0 then Some(NotGenerated(PolicyNotFound))
                 else if HasApplicable(matched, t) then None
                 else Some(NotGenerated(NotSetError(t))))
  {
    var matched := ListPoliciesPerPod(c, pod);
    if matched.Err? {
      return None, Some(SelectionFailed(matched.error));
    }
    var generated, genErr := SetGenerator(matched.value, t);
    rules := Some(generated);
    err := if genErr.Some? then Some(NotGenerated(genErr.value)) else None;
  }

  method ListIngressRulesPerPod(c: Cluster, pod: Pod) returns (rules: Option<seq<Rule>>, err: Option<RuleListError>)
    ensures PoliciesPerPod(c, pod).Err? ==> rules.None? && err == Some(SelectionFailed(InvalidSelector))
    ensures PoliciesPerPod(c, pod).Ok? ==>
      var matched := PoliciesPerPod(c, pod).value;
      && rules == Some(RuleSet(matched, Ingress))
      && err == (if |matched| == 0 then Some(NotGenerated(PolicyNotFound))
                 else if HasApplicable(matched, Ingress) then None
                 else Some(NotGenerated(IngressNotSet)))
  {
    rules, err := ListRulesPerPod(c, pod, Ingress);
  }

  method ListEgressRulesPerPod(c: Cluster, pod: Pod) returns (rules: Option<seq<Rule>>, err: Option<RuleListError>)
    ensures PoliciesPerPod(c, pod).Err? ==> rules.None? && err == Some(SelectionFailed(InvalidSelector))
    ensures PoliciesPerPod(c, pod).Ok? ==>
      var matched := PoliciesPerPod(c, pod).value;
      && rules == Some(RuleSet(matched, Egress))
      && err == (if |matched| == 0 then Some(NotGenerated(PolicyNotFound))
                 else if HasApplicable(matched, Egress) then None
                 else Some(NotGenerated(EgressNotSet)))
  {
    rules, err := ListRulesPerPod(c, pod, Egress);
  }

  // ---------------------------------------------------------------------
  // Properties of aggregation
  // ---------------------------------------------------------------------

  /** Aggregation distributes over concatenation of policy lists. */
  lemma {:induction false} RuleSetAppend(a: seq<NetworkPolicy>, b: seq<NetworkPolicy>, t: PolicyType)
    ensures RuleSet(a + b, t) == RuleSet(a, t) + RuleSet(b, t)
    decreases |b|
  {
    if b == [] {
      assert a + b == a;
    } else {
      var init := b[..|b| - 1];
      assert (a + b)[..|a + b| - 1] == a + init;
      assert (a + b)[|a + b| - 1] == b[|b| - 1];
      RuleSetAppend(a, init, t);
    }
  }

  /** The aggregated list is as long as the applicable policies' rule lists together. */
  lemma {:induction false} RuleSetLength(policies: seq<NetworkPolicy>, t: PolicyType)
    ensures |RuleSet(policies, t)| == RuleCount(policies, t)
    decreases |policies|
  {
    if policies != [] {
      RuleSetLength(policies[..|policies| - 1], t);
    }
  }

  /** A policy not applicable to t contributes nothing, wherever it stands. */
  lemma NonApplicableContributesNothing(a: seq<NetworkPolicy>, p: NetworkPolicy, b: seq<NetworkPolicy>, t: PolicyType)
    requires !AppliesTo(p, t)
    ensures RuleSet(a + [p] + b, t) == RuleSet(a + b, t)
  {
    RuleSetAppend(a + [p], b, t);
    RuleSetAppend(a, [p], t);
    RuleSetAppend(a, b, t);
    assert [p][..0] == [];
  }

  /** A rule is aggregated iff some applicable policy holds it in direction t. */
  lemma {:induction false} RuleSetMembership(policies: seq<NetworkPolicy>, t: PolicyType, r: Rule)
    ensures r in RuleSet(policies, t) <==>
            exists i | 0 <= i < |policies| :: AppliesTo(policies[i], t) && r in RulesOf(policies[i], t)
    decreases |policies|
  {
    if policies != [] {
      var n := |policies| - 1;
      var init := policies[..n];
      RuleSetMembership(init, t, r);
      if r in RuleSet(policies, t) {
        if r in RuleSet(init, t) {
          var i :| 0 <= i < |init| && AppliesTo(init[i], t) && r in RulesOf(init[i], t);
          assert policies[i] == init[i];
        } else {
          assert AppliesTo(policies[n], t) && r in RulesOf(policies[n], t);
        }
      }
      if exists i | 0 <= i < |policies| :: AppliesTo(policies[i], t) && r in RulesOf(policies[i], t) {
        var i :| 0 <= i < |policies| && AppliesTo(policies[i], t) && r in RulesOf(policies[i], t);
        if i < n {
          assert init[i] == policies[i];
        }
      }
    }
  }

  /** With no applicable policy the aggregated list is empty. */
  lemma {:induction false} NoApplicableNoRules(policies: seq<NetworkPolicy>, t: PolicyType)
    requires !HasApplicable(policies, t)
    ensures RuleSet(policies, t) == []
    decreases |policies|
  {
    if policies != [] {
      var n := |policies| - 1;
      assert !AppliesTo(policies[n], t);
      assert !HasApplicable(policies[..n], t) by {
        forall i | 0 <= i < n ensures !AppliesTo(policies[..n][i], t) {
          assert policies[..n][i] == policies[i];
        }
      }
      NoApplicableNoRules(policies[..n], t);
    }
  }

  /** PolicyTypes [Egress] with no Egress section still governs egress (deny-all egress), and not ingress. */
  lemma ExplicitEgressWithoutRules(policy: NetworkPolicy)
    requires policy.policyTypes == Some([Egress]) && policy.egress.None?
    ensures IsPolicyApplicableToEgress(policy) && RulesOf(policy, Egress) == []
    ensures !IsPolicyApplicableToIngress(policy)
  {
  }

  /** Without PolicyTypes, a present but empty Egress section makes the policy govern egress. */
  lemma EmptyEgressSectionGovernsEgress(policy: NetworkPolicy)
    requires policy.policyTypes.None? && policy.egress == Some([])
    ensures IsPolicyApplicableToEgress(policy) && IsPolicyApplicableToIngress(policy)
  {
  }
}
