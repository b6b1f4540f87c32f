# Pod reachability under Kubernetes NetworkPolicies

This project models the decision engine in `pkg/k8s` of the `networkpolicies`
tool. The engine takes a source pod, a destination pod, an optional protocol
and port, and the network policies in both pods' namespaces. It decides whether
the source can reach the destination and, if so, which policy and which peer
selector allowed the connection.

The model follows what the Go code does, including where it departs from
upstream NetworkPolicy semantics:

- **Applicability.** A policy with no `PolicyTypes` governs ingress. It governs
  egress only when its `Egress` section is non-nil, even if that section is empty.
  A policy with `PolicyTypes` governs exactly the listed directions. Both nil
  cases are modelled with `Option`.
- **Selection and aggregation.** `ListPoliciesPerPod` keeps, in order, the
  policies of the pod's namespace whose pod selector matches the pod's labels.
  An invalid selector fails the whole call.
  `ingressSetGenerator`/`egressSetGenerator` concatenate the rules of the
  applicable policies and report "no policy" or "direction not set".
- **Peers.** The first peer that admits the pod decides, and the match carries a
  provenance tag.
  - Pod selector only: the pod's namespace must also be the policy's namespace.
  - Namespace selector only: the pod's labels are ignored.
  - Neither selector (an ipBlock peer): the peer is skipped.
  - Empty peer list: admits nobody.
- **Ports.** With no protocol and no port, the check answers true. With only one
  of the two, it fails. Otherwise an entry matches on equal protocol and on either
  the named port or the decimal text of the numeric port. Both fields of
  `IntOrString` are compared, so a named port (numeric value 0) also matches
  port "0".
- **Decision.** The engine runs an egress pass over the source's policies, then
  an ingress pass over the destination's. The first rule whose peers admit the
  pod decides, and its port result becomes `reachableOnPort`. The port check of
  every evaluated rule runs before its peer verdict is used, so a half-given
  protocol/port pair fails as soon as any rule is evaluated. When no rule matches,
  the connection is allowed by default exactly when
  `(!srcHasPolicy || !srcHasEgress) && (!dstHasPolicy || !dstHasIngress)`.
  Otherwise it is blocked, and `reachableOnPort` keeps the port result of the
  last rule evaluated.
- **The egress pass tests the source pod.** `podconnection.go:69` passes the
  source pod, not the destination, to the egress peer check. The peer's
  namespace selector is always tested against the labels of the source pod's
  namespace. The model keeps this behaviour.
  - `Scenarios.EgressRuleTestsSourcePod` exhibits it: an egress rule "to
    app=client" does not let a web pod reach a client pod.
  - A rule naming the web pod's own labels does let it reach the client pod.

`NetworkPolicies.EmptyEgressSectionGovernsEgress` proves the applicability
case that matters most here: with no `PolicyTypes`, a present but empty
egress section governs egress, because the code tests whether the `Egress`
slice is nil (`networkpolicy.go:152-157`), not whether it holds any rule.

Layout:

- `wrappers.dfy`: `Option` and `Result`.
- `labels.dfy`: label selectors as a conjunction of requirements.
- `api.dfy`: the API objects and a cluster snapshot.
- `networkpolicy.dfy`: `pkg/k8s/networkpolicy.go`.
- `podconnection.dfy`: peer and port matching from `pkg/k8s/podconnection.go`.
- `analysis.dfy`: the decision.
  - `Decide` and `Analysis` are the specification; `Verdict` is how
    `Decide` concludes from the two passes.
  - `PodConnectionAnalysis` is the loop-based method proved equal to it.
- `analysis_props.dfy`: properties of the decision.
- `scenarios.dfy`: worked examples.

## Model

| member | source | states |
|---|---|---|
| NetworkPolicies.IsPolicyApplicableToIngress | pkg/k8s/networkpolicy.go:126-143 | nil PolicyTypes gives true; set PolicyTypes gives true iff the list contains Ingress |
| NetworkPolicies.IsPolicyApplicableToEgress | pkg/k8s/networkpolicy.go:146-166 | nil PolicyTypes gives true iff the Egress section is non-nil; set PolicyTypes gives true iff the list contains Egress |
| NetworkPolicies.ContainsType | pkg/k8s/networkpolicy.go:136-142 | the scan of PolicyTypes answers exactly membership of the type |
| NetworkPolicies.ExplicitEgressWithoutRules | pkg/k8s/networkpolicy.go:159-165 | PolicyTypes [Egress] with no egress section governs egress, with no rules, and does not govern ingress |
| NetworkPolicies.EmptyEgressSectionGovernsEgress | pkg/k8s/networkpolicy.go:132-157 | with nil PolicyTypes, an empty but present egress section governs egress, and ingress is governed too |
| NetworkPolicies.ListPoliciesPerPod | pkg/k8s/networkpolicy.go:29-48 | fails iff some policy of the namespace has an invalid pod selector; otherwise a policy is returned iff it is in the pod's namespace and its selector matches the pod's labels, in namespace order |
| NetworkPolicies.SelectPoliciesMembership | pkg/k8s/networkpolicy.go:37-45 | the filter keeps exactly the policies whose selector matches the labels |
| NetworkPolicies.SelectPoliciesAppend | pkg/k8s/networkpolicy.go:37-45 | filtering distributes over concatenation, so relative order is preserved |
| NetworkPolicies.SetGenerator | pkg/k8s/networkpolicy.go:73-123 | returns the in-order concatenation of the rules of the applicable policies; the error is PolicyNotFound iff the list is empty, NotSet iff it is non-empty with no applicable policy, and none iff some policy applies |
| NetworkPolicies.IngressSetGenerator | pkg/k8s/networkpolicy.go:73-96 | ingress rules aggregated in order; ErrPolicyNotFound iff no policy, ErrIngressNotSet iff none governs ingress |
| NetworkPolicies.EgressSetGenerator | pkg/k8s/networkpolicy.go:100-123 | egress rules aggregated in order; ErrPolicyNotFound iff no policy, ErrEgressNotSet iff none governs egress |
| NetworkPolicies.ListRulesPerPod | pkg/k8s/networkpolicy.go:53-69 | a selection failure yields no rule list and that error; otherwise the aggregated rules of the selected policies, with error PolicyNotFound iff none was selected, none iff one governs the direction, and NotSet for that direction otherwise |
| NetworkPolicies.ListIngressRulesPerPod | pkg/k8s/networkpolicy.go:53-59 | a selection failure yields no rule list and that error; otherwise the selected policies' ingress rules, with ErrPolicyNotFound when none was selected, nil when one governs ingress, ErrIngressNotSet otherwise |
| NetworkPolicies.ListEgressRulesPerPod | pkg/k8s/networkpolicy.go:63-69 | a selection failure yields no rule list and that error; otherwise the selected policies' egress rules, with ErrPolicyNotFound when none was selected, nil when one governs egress, ErrEgressNotSet otherwise |
| NetworkPolicies.RuleSetAppend | pkg/k8s/networkpolicy.go:77-85 | the aggregate of a concatenation is the concatenation of the aggregates |
| NetworkPolicies.RuleSetLength | pkg/k8s/networkpolicy.go:73-123 | the aggregate's length is the sum of the rule counts of the applicable policies |
| NetworkPolicies.NonApplicableContributesNothing | pkg/k8s/networkpolicy.go:77-112 | removing a policy not applicable to the direction leaves the aggregate unchanged |
| NetworkPolicies.RuleSetMembership | pkg/k8s/networkpolicy.go:73-123 | a rule is aggregated iff it is a rule of some applicable policy |
| NetworkPolicies.NoApplicableNoRules | pkg/k8s/networkpolicy.go:87-122 | with no applicable policy the aggregate is empty |
| NetworkPolicies.HasApplicableStep | pkg/k8s/networkpolicy.go:76-85 | the hasIngress/hasEgress flag after one more policy is the old flag or that policy's applicability |
| PodConnections.MatchPeer | pkg/k8s/podconnection.go:133-171 | fails iff either selector is invalid; otherwise admits iff the selector case holds (both, pod-only scoped to the policy namespace, namespace-only), with that case's provenance |
| PodConnections.IsPodInNetworkPolicyPeer | pkg/k8s/podconnection.go:127-178 | no match and no error iff every peer gives none; otherwise the result is that of the first peer that matches or fails |
| PodConnections.EmptyPeersMatchNothing | pkg/k8s/podconnection.go:133-177 | an empty peer list admits nobody and gives no provenance |
| PodConnections.SelectorlessPeerSkipped | pkg/k8s/podconnection.go:168-170 | a peer with neither selector is skipped: the result is that of the remaining peers |
| PodConnections.PodSelectorOnlyScopedToPolicyNamespace | pkg/k8s/podconnection.go:154-155 | a pod-selector-only peer never admits a pod from another namespace than the policy's |
| PodConnections.NamespaceOnlyPeersIgnorePodLabels | pkg/k8s/podconnection.go:160-166 | over namespace-selector-only peers the result does not depend on the pod |
| PodConnections.AnyPortEntryMatches | pkg/k8s/podconnection.go:187-192 | true iff some entry matches protocol and port |
| PodConnections.IsProtocolPortInNetworkPolicyPorts | pkg/k8s/podconnection.go:181-198 | both empty gives true; exactly one given is an error; both given gives true iff some entry has that protocol and a StrVal or decimal IntVal equal to the port, false otherwise |
| PodConnections.NatToString | pkg/k8s/podconnection.go:189 | the rendering of a natural is a non-empty string of decimal digits with no leading zero, so "080" never equals a rendered port |
| PodConnections.ParseNatToString | pkg/k8s/podconnection.go:189 | the decimal rendering of a port number reads back as that number |
| PodConnections.FormatIntSign | pkg/k8s/podconnection.go:189 | the rendering starts with '-' iff the number is negative |
| PodConnections.NatToStringInjective | pkg/k8s/podconnection.go:189 | distinct naturals render differently |
| PodConnections.FormatIntInjective | pkg/k8s/podconnection.go:189 | distinct port numbers render differently, so one numeric port matches one port text |
| PodConnections.TcpPortExample | pkg/k8s/podconnection.go:186-197 | TCP/80 matches a TCP 80 entry and not a TCP 81 entry |
| PodConnections.NamedPortAdmitsZero | pkg/k8s/podconnection.go:188-189 | a named-port entry (IntVal 0) matches the port text "0" |
| Reachability.ApplyRule | pkg/k8s/podconnection.go:69-82 | one rule, peer check then port check: the verdict is the specification's EvaluateRule; an unmatched rule only records its port result, a matched one credits the policy and the peer |
| Reachability.EvaluatePolicyRules | pkg/k8s/podconnection.go:68-83 | the loop over one applicable policy's rules continues the scan of the earlier policies: exhausted, it equals the scan through this policy; decisive, it equals the scan of the whole pass |
| Reachability.EvaluatePolicy | pkg/k8s/podconnection.go:65-84 | one policy of the pass: it reports whether the policy governs the direction; a policy that does not leaves the scan and the record unchanged |
| Reachability.EvaluatePass | pkg/k8s/podconnection.go:63-85 | the nested loops compute the scan of the aggregated rules; the policy/direction flags equal "list non-empty" and "some policy applies"; the new record is the matched rule's credit, or the last port result |
| Reachability.PodConnectionAnalysis | pkg/k8s/podconnection.go:32-123 | the method's result equals the specification Analysis: pod lookups, policy selection, egress pass, ingress pass, default-allow |
| AnalysisProperties.ScanFirstDecisive | pkg/k8s/podconnection.go:68-82 | the first rule that matches or fails decides the pass |
| AnalysisProperties.ScanAllExhausted | pkg/k8s/podconnection.go:63-109 | when no rule decides, the pass carries the port result of its last rule |
| AnalysisProperties.ScanStoppedBy | pkg/k8s/podconnection.go:69-82 | a pass that stops was stopped by a rule all of whose predecessors were undecided |
| AnalysisProperties.MatchedPolicyIsCandidate | pkg/k8s/podconnection.go:79-81 | the credited policy is the policy of an evaluated rule |
| AnalysisProperties.CandidateMembership | pkg/k8s/podconnection.go:63-109 | every rule a pass evaluates is a rule, for that direction, of a selected policy that governs the direction |
| AnalysisProperties.NoApplicableNoCandidates | pkg/k8s/podconnection.go:63-109 | with no policy governing the direction, a pass evaluates no rule |
| AnalysisProperties.PassEvaluatesAggregatedRules | pkg/k8s/networkpolicy.go:73-123 | a pass evaluates exactly the rule list the set generators aggregate, in order |
| AnalysisProperties.EgressFirstMatchWins | pkg/k8s/podconnection.go:64-85 | the first egress rule admitting the source decides: reachable, credited to its policy and provenance, reachableOnPort its port result |
| AnalysisProperties.IngressFirstMatchWins | pkg/k8s/podconnection.go:88-109 | after an undecided egress pass, the first ingress rule admitting the source decides in the same way |
| AnalysisProperties.EgressMatchIgnoresDestination | pkg/k8s/podconnection.go:79-81 | an egress match makes the verdict independent of the destination pod and its ingress rules |
| AnalysisProperties.LaterEgressPoliciesIgnored | pkg/k8s/podconnection.go:79-81 | policies listed after the one whose egress rule matched cannot change the verdict |
| AnalysisProperties.NoRuleMatchedDecision | pkg/k8s/podconnection.go:111-122 | with no matching rule: reachable iff (!srcHasPolicy or !srcHasEgress) and (!dstHasPolicy or !dstHasIngress), then also on the port; no policy or rule credited |
| AnalysisProperties.DefaultAllowEvaluatesNoRule | pkg/k8s/podconnection.go:115-119 | a default-allow verdict implies neither pass evaluated a rule |
| AnalysisProperties.UngovernedPairAllowed | pkg/k8s/podconnection.go:111-119 | with no egress policy on the source and no ingress policy on the destination the connection is allowed on any port |
| AnalysisProperties.HalfPortPairStopsScan | pkg/k8s/podconnection.go:63-85 | with a half-given protocol/port pair, a pass ends undecided iff it has no rule; otherwise it fails |
| AnalysisProperties.HalfPortPairFailsIffRuleEvaluated | pkg/k8s/podconnection.go:63-119 | a half-given pair fails the analysis iff at least one rule is evaluated |
| AnalysisProperties.GoverningPolicyMatched | pkg/k8s/podconnection.go:63-122 | a credited policy is selected for the right pod and governs its pass's direction; a blocked verdict credits nothing |
| AnalysisProperties.DecideKeepsInputs | pkg/k8s/podconnection.go:54-61 | the record keeps the pods, the request and both selected policy lists |
| AnalysisProperties.VerdictKeepsInputs | pkg/k8s/podconnection.go:54-61 | whatever concludes the two passes, a successful verdict keeps the pods, the request and both policy lists of the record |
| AnalysisProperties.VerdictExhausted | pkg/k8s/podconnection.go:111-122 | when both passes are exhausted the verdict succeeds, is reachable exactly when default-allow holds, is then also reachable on the port, and credits nothing |
| AnalysisProperties.VerdictCredits | pkg/k8s/podconnection.go:79-106 | only a matched pass credits a policy, the egress match first and else the ingress match; a blocking verdict keeps the empty credits |
| AnalysisProperties.ConsideredPoliciesSelectThePods | pkg/k8s/podconnection.go:44-61 | the policy lists in the record are exactly the selected policies of each pod |
| AnalysisProperties.RulesCheckedInPolicyNamespace | pkg/k8s/podconnection.go:63-109 | every rule a pass evaluates belongs to a policy of the evaluated pod's namespace |
| Scenarios.ScenarioNoPolicies | pkg/k8s/podconnection.go:111-119 | two pods with no policies: allowed on the port, no policy credited |
| Scenarios.ScenarioPolicyAllowsPort | pkg/k8s/podconnection.go:92-105 | an ingress rule from app=client on TCP/6379 allows TCP/6379 and is credited |
| Scenarios.ScenarioPolicyOtherPort | pkg/k8s/podconnection.go:98-105 | the same rule with port 9999: reachable, not on the port, still credited |
| Scenarios.ScenarioDenyAllIngress | pkg/k8s/podconnection.go:87-122 | an Ingress policy with no rules blocks and is listed among the destination's policies |
| Scenarios.ScenarioNamespaceSelector | pkg/k8s/podconnection.go:160-166 | a namespace-selector-only peer admits an unlabelled pod of a matching namespace |
| Scenarios.EgressRuleTestsSourcePod | pkg/k8s/podconnection.go:69 | an egress rule to app=client does not let the web pod reach the client; a rule naming the web pod's own labels does |
| Labels.EverythingMatchesAll | pkg/k8s/podconnection.go:161 | the empty selector is valid and matches every label set |

## Left out

- Client-go calls are replaced by a snapshot `Cluster` of pods, namespace labels and policies per namespace. These are `ListPoliciesInNamespace`, `GetPodByNameInNamespace` and `GetNamespaceByName` (`pkg/k8s/k8sclient.go`, `pod.go`, `namespace.go`).
- A missing pod is a not-found error.
- A namespace with no policies yields the empty list. The ignored listing error at `networkpolicy.go:34` is assumed not to occur.
- Reachability.PodConnectionAnalysis and Reachability.Analysis require that every pod's namespace exists in the snapshot. The code ignores the namespace lookup error at `podconnection.go:130` and would dereference a nil namespace.
- Reachability.PodConnectionAnalysis: the namespace labels are looked up once, for the source pod, and shared by both passes. The code looks them up on every peer check, always for the same source pod, so the value is the same.
- Label selector conversion (`metav1.LabelSelectorAsSelector`) is library code. Only its operator and value-count checks are modelled. Label key and value syntax validation is not.
- Only In, NotIn, Exists and DoesNotExist are modelled. Any other operator is invalid.
- Provenance is a tag naming which selector case matched and carrying the selectors. The text rendered by `Selector.String()` is not modelled.
- Error values are plain variants, one per failure site. The `errors.Wrap` message wording is not modelled.
- The `fmt.Println` at `podconnection.go:169` is not modelled.
- `PrintPodConnection`, `printPolicies` and everything under `cmd/` are output formatting and flag parsing, and are not modelled.
- Nil-pointer panics are assumed away: a port entry always has a protocol and a port value.
- IPBlock peers are not analysed by the code. The model treats a peer with neither selector as skipped, as the code does.
- Integer widths: `IntVal` is an `int32` newtype. `strconv.FormatInt` is modelled as decimal rendering with an optional minus sign.
