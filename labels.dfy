/**
 * Label sets and label selectors as the Kubernetes apimachinery library
 * evaluates them: metav1.LabelSelectorAsSelector turns a selector
 * specification into a selector (or fails), and labels.Selector.Matches
 * tests it against a label set. A selector is the conjunction of its
 * matchLabels equalities and its matchExpressions requirements, so the
 * selector with no requirement matches every label set.
 */
module Labels {
  import opened Wrappers

  type Labels = map<string, string>

  datatype Operator = In | NotIn | Exists | DoesNotExist | Unsupported(name: string)

  datatype Requirement = Requirement(key: string, operator: Operator, values: seq<string>)

  datatype LabelSelector = LabelSelector(matchLabels: map<string, string>, matchExpressions: seq<Requirement>)

  /** The only way converting a selector specification fails. */
  datatype SelectorError = InvalidSelector

  /** The selector with no requirement. */
  const Everything: LabelSelector := LabelSelector(map[], [])

  /**
   * The checks of labels.NewRequirement: a known operator, at least one
   * value for In and NotIn, no value for Exists and DoesNotExist.
   */
  predicate ValidRequirement(r: Requirement) {
    match r.operator
    case In => |r.values| > 0
    case NotIn => |r.values| > 0
    case Exists => |r.values| == 0
    case DoesNotExist => |r.values| == 0
    case Unsupported(_) => false
  }

  /** LabelSelectorAsSelector succeeds exactly on selectors whose expressions are all valid. */
  predicate ValidSelector(s: LabelSelector) {
    forall i | 0 <= i < |s.matchExpressions| :: ValidRequirement(s.matchExpressions[i])
  }

  /** A nil selector pointer converts (to labels.Nothing) without error. */
  predicate ValidOptionalSelector(s: Option<LabelSelector>) {
    s.None? || ValidSelector(s.value)
  }

  predicate RequirementMatches(r: Requirement, labels: Labels) {
    match r.operator
    case In => r.key in labels && labels[r.key] in r.values
    case NotIn => r.key !in labels || labels[r.key] !in r.values
    case Exists => r.key in labels
    case DoesNotExist => r.key !in labels
    case Unsupported(_) => false
  }

  /** labels.Selector.Matches: every requirement holds of the label set. */
  predicate Matches(s: LabelSelector, labels: Labels) {
    && (forall k | k in s.matchLabels :: k in labels && labels[k] == s.matchLabels[k])
    && (forall i | 0 <= i < |s.matchExpressions| :: RequirementMatches(s.matchExpressions[i], labels))
  }

  lemma EverythingMatchesAll(labels: Labels)
    ensures ValidSelector(Everything) && Matches(Everything, labels)
  {
  }
}
