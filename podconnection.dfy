/**
 * The two matchers of pkg/k8s/podconnection.go: does a pod fall under a
 * rule's peer list (IsPodInNetworkPolicyPeer), and does a requested
 * protocol/port fall under a rule's port list
 * (IsProtocolPortInNetworkPolicyPorts).
 */
module PodConnections {
  import opened Wrappers
  import opened Labels
  import opened Api

  // ---------------------------------------------------------------------
  // Peer matching
  // ---------------------------------------------------------------------

  /**
   * Which selector combination let a pod through, with the selectors
   * themselves; it stands for the text the code builds from them. No
   * match is None (the code's empty string).
   */
  datatype Provenance =
    | PodAndNamespaceSelector(pod: LabelSelector, namespace: LabelSelector)
    | PodSelectorOnly(pod: LabelSelector)
    | NamespaceSelectorOnly(namespace: LabelSelector)

  /**
   * When a peer admits a pod, independently of how the code branches: it
   * has at least one selector, each selector it has matches (the pod
   * selector the pod's labels, the namespace selector the labels of the
   * pod's namespace), and without a namespace selector the pod must be in
   * the namespace of the rule's policy.
   */
  predicate Admits(peer: NetworkPolicyPeer, pod: Pod, nsLabels: Labels, policyNs: string) {
    && (peer.podSelector.Some? || peer.namespaceSelector.Some?)
    && (peer.podSelector.Some? ==> Matches(peer.podSelector.value, pod.labels))
    && (peer.namespaceSelector.Some? ==> Matches(peer.namespaceSelector.value, nsLabels))
    && (peer.namespaceSelector.None? ==> pod.namespace == policyNs)
  }

  /** The provenance naming a peer's selectors. */
  function ProvenanceOf(peer: NetworkPolicyPeer): Provenance
    requires peer.podSelector.Some? || peer.namespaceSelector.Some?
  {
    if peer.podSelector.Some? && peer.namespaceSelector.Some? then
      PodAndNamespaceSelector(peer.podSelector.value, peer.namespaceSelector.value)
    else if peer.podSelector.Some? then PodSelectorOnly(peer.podSelector.value)
    else NamespaceSelectorOnly(peer.namespaceSelector.value)
  }

  /**
   * One iteration of the peer loop: convert both selectors (a nil one
   * converts without error), then branch on which selectors are present.
   * A peer with neither selector is skipped.
   */
  function MatchPeer(pod: Pod, nsLabels: Labels, peer: NetworkPolicyPeer, policyNs: string): (r: Result<Option<Provenance>, SelectorError>)
    ensures r.Err? <==> !ValidOptionalSelector(peer.podSelector) || !ValidOptionalSelector(peer.namespaceSelector)
    ensures r.Ok? ==> (r.value.Some? <==> Admits(peer, pod, nsLabels, policyNs))
    ensures r.Ok? && r.value.Some? ==> r.value.value == ProvenanceOf(peer)
  {
    if !ValidOptionalSelector(peer.podSelector) || !ValidOptionalSelector(peer.namespaceSelector) then
      Err(InvalidSelector)
    else
      match (peer.podSelector, peer.namespaceSelector)
      case (Some(podSel), Some(nsSel)) =>
        if Matches(podSel, pod.labels) && Matches(nsSel, nsLabels) then Ok(Some(PodAndNamespaceSelector(podSel, nsSel)))
        else Ok(None)
      case (Some(podSel), None) =>
        if Matches(podSel, pod.labels) && pod.namespace == policyNs then Ok(Some(PodSelectorOnly(podSel)))
        else Ok(None)
      case (None, Some(nsSel)) =>
        // the pod selector is replaced by "everything": pod labels play no part
        if Matches(nsSel, nsLabels) then Ok(Some(NamespaceSelectorOnly(nsSel)))
        else Ok(None)
      case (None, None) =>
        Ok(None)
  }

  /**
   * IsPodInNetworkPolicyPeer: scans the peers in order; the first peer
   * that admits the pod, or whose selectors cannot be converted, decides.
   * Ok(None) means no peer admits the pod, which is always the answer for
   * an empty peer list. nsLabels are the labels of the pod's namespace,
   * which the code looks up by the pod's namespace name.
   */
  function IsPodInNetworkPolicyPeer(pod: Pod, nsLabels: Labels, peers: seq<NetworkPolicyPeer>, policyNs: string): (r: Result<Option<Provenance>, SelectorError>)
    ensures r == Ok(None) <==>
            forall i | 0 <= i < |peers| :: MatchPeer(pod, nsLabels, peers[i], policyNs) == Ok(None)
    ensures r != Ok(None) ==>
            exists i | 0 <= i < |peers| ::
              && r == MatchPeer(pod, nsLabels, peers[i], policyNs)
              && forall j | 0 <= j < i :: MatchPeer(pod, nsLabels, peers[j], policyNs) == Ok(None)
    decreases |peers|
  {
    if peers == [] then Ok(None)
    else
      var first := MatchPeer(pod, nsLabels, peers[0], policyNs);
      if first != Ok(None) then first
      else
        var rest := IsPodInNetworkPolicyPeer(pod, nsLabels, peers[1..], policyNs);
        assert forall i | 1 <= i < |peers| :: peers[i] == peers[1..][i - 1];
        rest
  }

  // ---------------------------------------------------------------------
  // Port matching
  // ---------------------------------------------------------------------

  function DigitChar(d: nat): (c: char)
    requires d < 10
    ensures '0' <= c <= '9'
  {
    "0123456789"[d]
  }

  /** The decimal digits of a natural number, no leading zero. */
  function NatToString(n: nat): (s: string)
    ensures |s| >= 1
    ensures forall i | 0 <= i < |s| :: '0' <= s[i] <= '9'
    ensures n >= 10 ==> s[0] != '0'
    decreases n
  {
    if n < 10 then [DigitChar(n)] else NatToString(n / 10) + [DigitChar(n % 10)]
  }

  /** strconv.FormatInt(n, 10). */
  function FormatInt(n: int): string {
    if n < 0 then "-" + NatToString(-n) else NatToString(n)
  }

  function DigitValue(c: char): nat
    requires '0' <= c <= '9'
  {
    (c as int) - ('0' as int)
  }

  /** Reads back a string of decimal digits. */
  function ParseNat(s: string): nat
    requires |s| >= 1 && forall i | 0 <= i < |s| :: '0' <= s[i] <= '9'
    decreases |s|
  {
    if |s| == 1 then DigitValue(s[0])
    else ParseNat(s[..|s| - 1]) * 10 + DigitValue(s[|s| - 1])
  }

  lemma {:induction false} ParseNatToString(n: nat)
    ensures ParseNat(NatToString(n)) == n
    decreases n
  {
    var s := NatToString(n);
    if n >= 10 {
      ParseNatToString(n / 10);
      assert s[..|s| - 1] == NatToString(n / 10);
      assert DigitValue(s[|s| - 1]) == n % 10 by {
        assert s[|s| - 1] == DigitChar(n % 10);
        assert "0123456789"[n % 10] as int == '0' as int + n % 10;
      }
    } else {
      assert "0123456789"[n] as int == '0' as int + n;
    }
  }

  /** The sign shows in the first character. */
  lemma FormatIntSign(n: int)
    ensures |FormatInt(n)| >= 1
    ensures FormatInt(n)[0] == '-' <==> n < 0
  {
    if n >= 0 {
      var s := NatToString(n);
      assert '0' <= s[0] <= '9';
    }
  }

  /** Different numbers print differently, so a request port names at most one number. */
  lemma NatToStringInjective(a: nat, b: nat)
    requires NatToString(a) == NatToString(b)
    ensures a == b
  {
    ParseNatToString(a);
    ParseNatToString(b);
  }

  lemma FormatIntInjective(a: int, b: int)
    requires FormatInt(a) == FormatInt(b)
    ensures a == b
  {
    FormatIntSign(a);
    FormatIntSign(b);
    if a < 0 {
      assert FormatInt(a)[1..] == NatToString(-a);
      assert FormatInt(b)[1..] == NatToString(-b);
      NatToStringInjective(-a, -b);
    } else {
      NatToStringInjective(a, b);
    }
  }

  /** One entry of a rule's port list admits the request. */
  predicate PortEntryMatches(entry: NetworkPolicyPort, protocol: string, port: string) {
    entry.protocol == protocol && (entry.port.strVal == port || FormatInt(entry.port.intVal as int) == port)
  }

  /** The search loop over the port list. */
  function AnyPortEntryMatches(ports: seq<NetworkPolicyPort>, protocol: string, port: string): (r: bool)
    ensures r <==> exists i | 0 <= i < |ports| :: PortEntryMatches(ports[i], protocol, port)
    decreases |ports|
  {
    if ports == [] then false
    else if PortEntryMatches(ports[0], protocol, port) then true
    else
      assert forall i | 1 <= i < |ports| :: ports[i] == ports[1..][i - 1];
      AnyPortEntryMatches(ports[1..], protocol, port)
  }

  datatype PortError = ProtocolPortPairRequired

  /**
   * IsProtocolPortInNetworkPolicyPorts: no filtering when neither protocol
   * nor port is given; an error when only one is; otherwise a search for an
   * entry with the same protocol and the same port.
   */
  function IsProtocolPortInNetworkPolicyPorts(protocol: string, port: string, ports: seq<NetworkPolicyPort>): (r: Result<bool, PortError>)
    ensures protocol == "" && port == "" ==> r == Ok(true)
    ensures (protocol == "") != (port == "") ==> r == Err(ProtocolPortPairRequired)
    ensures protocol != "" && port != "" ==>
              r.Ok? && (r.value <==> exists i | 0 <= i < |ports| :: PortEntryMatches(ports[i], protocol, port))
  {
    if protocol == "" && port == "" then Ok(true)
    else if protocol != "" && port != "" then Ok(AnyPortEntryMatches(ports, protocol, port))
    else Err(ProtocolPortPairRequired)
  }

  // ---------------------------------------------------------------------
  // Properties of the matchers
  // ---------------------------------------------------------------------

  /** An empty peer list admits nobody and yields no provenance. */
  lemma EmptyPeersMatchNothing(pod: Pod, nsLabels: Labels, policyNs: string)
    ensures IsPodInNetworkPolicyPeer(pod, nsLabels, [], policyNs) == Ok(None)
  {
  }

  /** A peer with neither selector (an ipBlock peer) is skipped: it never causes a match. */
  lemma {:induction false} SelectorlessPeerSkipped(pod: Pod, nsLabels: Labels, peer: NetworkPolicyPeer, rest: seq<NetworkPolicyPeer>, policyNs: string)
    requires peer.podSelector.None? && peer.namespaceSelector.None?
    ensures IsPodInNetworkPolicyPeer(pod, nsLabels, [peer] + rest, policyNs) == IsPodInNetworkPolicyPeer(pod, nsLabels, rest, policyNs)
  {
    assert ([peer] + rest)[1..] == rest;
  }

  /** A pod-selector-only peer never admits a pod from another namespace, whatever its labels. */
  lemma PodSelectorOnlyScopedToPolicyNamespace(pod: Pod, nsLabels: Labels, peer: NetworkPolicyPeer, policyNs: string)
    requires peer.podSelector.Some? && peer.namespaceSelector.None?
    requires pod.namespace != policyNs
    ensures MatchPeer(pod, nsLabels, peer, policyNs).Ok? ==> MatchPeer(pod, nsLabels, peer, policyNs) == Ok(None)
  {
  }

  /** For namespace-selector-only peers the verdict depends on the namespace labels alone. */
  lemma {:induction false} NamespaceOnlyPeersIgnorePodLabels(pod: Pod, other: Pod, nsLabels: Labels, peers: seq<NetworkPolicyPeer>, policyNs: string)
    requires forall i | 0 <= i < |peers| :: peers[i].podSelector.None? && peers[i].namespaceSelector.Some?
    ensures IsPodInNetworkPolicyPeer(pod, nsLabels, peers, policyNs) == IsPodInNetworkPolicyPeer(other, nsLabels, peers, policyNs)
    decreases |peers|
  {
    if peers != [] {
      assert MatchPeer(pod, nsLabels, peers[0], policyNs) == MatchPeer(other, nsLabels, peers[0], policyNs);
      NamespaceOnlyPeersIgnorePodLabels(pod, other, nsLabels, peers[1..], policyNs);
    }
  }

  /** TCP/80 is admitted by a {TCP, 80} entry and not by a {TCP, 81} entry. */
  lemma TcpPortExample()
    ensures IsProtocolPortInNetworkPolicyPorts("TCP", "80", [NetworkPolicyPort("TCP", IntOrString(80, ""))]) == Ok(true)
    ensures IsProtocolPortInNetworkPolicyPorts("TCP", "80", [NetworkPolicyPort("TCP", IntOrString(81, ""))]) == Ok(false)
  {
    assert FormatInt(80) == "80" by {
      assert NatToString(8) == "8";
      assert NatToString(80) == NatToString(8) + [DigitChar(0)];
    }
    assert FormatInt(81) == "81" by {
      assert NatToString(8) == "8";
      assert NatToString(81) == NatToString(8) + [DigitChar(1)];
    }
    var ok := [NetworkPolicyPort("TCP", IntOrString(80, ""))];
    var other := [NetworkPolicyPort("TCP", IntOrString(81, ""))];
    assert PortEntryMatches(ok[0], "TCP", "80");
    assert !PortEntryMatches(other[0], "TCP", "80");
  }

  /** A named-port entry carries IntVal 0, so it also admits the request port "0". */
  lemma NamedPortAdmitsZero(protocol: string, name: string)
    requires protocol != ""
    ensures IsProtocolPortInNetworkPolicyPorts(protocol, "0", [NetworkPolicyPort(protocol, IntOrString(0, name))]) == Ok(true)
  {
    assert FormatInt(0) == "0";
    assert PortEntryMatches(NetworkPolicyPort(protocol, IntOrString(0, name)), protocol, "0");
  }
}
