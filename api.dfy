/**
 * The objects the analysis reads: pods, namespaces and network policies of
 * the networking.k8s.io/v1 API, reduced to the fields the decision uses, and
 * a snapshot of the cluster that stands in for the API server.
 */
module Api {
  import opened Wrappers
  import opened Labels

  datatype Pod = Pod(name: string, namespace: string, labels: Labels)

  newtype int32 = x: int | -0x8000_0000 <= x < 0x8000_0000

  /**
   * intstr.IntOrString. Both fields are kept: the port check compares the
   * request against StrVal and against the decimal form of IntVal whatever
   * the value's type, so a named port still carries IntVal 0.
   */
  datatype IntOrString = IntOrString(intVal: int32, strVal: string)

  datatype NetworkPolicyPort = NetworkPolicyPort(protocol: string, port: IntOrString)

  /** A nil selector pointer is None; a present but empty one is Some(Everything). */
  datatype NetworkPolicyPeer = NetworkPolicyPeer(podSelector: Option<LabelSelector>, namespaceSelector: Option<LabelSelector>)

  /** An ingress rule (peers = From) or an egress rule (peers = To). */
  datatype Rule = Rule(peers: seq<NetworkPolicyPeer>, ports: seq<NetworkPolicyPort>)

  datatype PolicyType = Ingress | Egress

  /**
   * A NetworkPolicy. PolicyTypes and the Egress section are Options because
   * the code tells a nil slice from an empty one for both.
   */
  datatype NetworkPolicy = NetworkPolicy(
    name: string,
    namespace: string,
    podSelector: LabelSelector,
    policyTypes: Option<seq<PolicyType>>,
    ingress: seq<Rule>,
    egress: Option<seq<Rule>>)

  datatype PodKey = PodKey(namespace: string, name: string)

  /** What the API server holds: pods by key, namespace labels by name, policies by namespace. */
  datatype Cluster = Cluster(
    pods: map<PodKey, Pod>,
    namespaces: map<string, Labels>,
    policies: map<string, seq<NetworkPolicy>>)

  /** Every pod lives in a namespace the cluster knows (the namespace lookup is never nil). */
  predicate NamespacesResolvable(c: Cluster) {
    forall k | k in c.pods :: c.pods[k].namespace in c.namespaces
  }

  /** Policies are listed under the namespace they belong to. */
  predicate PoliciesNamespaced(c: Cluster) {
    forall ns | ns in c.policies ::
      forall i | 0 <= i < |c.policies[ns]| :: c.policies[ns][i].namespace == ns
  }

  /** The list of policies in a namespace; a namespace without policies lists none. */
  function PoliciesInNamespace(c: Cluster, ns: string): seq<NetworkPolicy> {
    if ns in c.policies then c.policies[ns] else []
  }
}
