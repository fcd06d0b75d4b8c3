/** The replacement-policy enumeration and its display names. */
module Policies {

  /** The eight policies of the single-file simulator, in declaration order. */
  datatype ReplacementPolicy = LRU | MRU | OPTIMAL | RANDOM | FIFO | PLRU | LFU | ARC

  /** The five policies the split policy header declares; the name switch has a
      case for exactly these. */
  predicate InPolicyHeader(p: ReplacementPolicy)
  {
    p.LRU? || p.MRU? || p.OPTIMAL? || p.FIFO? || p.RANDOM?
  }

  /** getPolicyName: a switch over the header's five policies with an "UNKNOWN" default. */
  function PolicyName(p: ReplacementPolicy): (name: string)
    ensures name == "UNKNOWN" <==> !InPolicyHeader(p)
    ensures name != "" && forall i | 0 <= i < |name| :: 'A' <= name[i] <= 'Z'
  {
    match p
    case LRU => "LRU"
    case MRU => "MRU"
    case OPTIMAL => "OPTIMAL"
    case FIFO => "FIFO"
    case RANDOM => "RANDOM"
    case _ => "UNKNOWN"
  }

  /** The five names are pairwise distinct, so the name identifies the policy. */
  lemma PolicyNameInjective(p: ReplacementPolicy, q: ReplacementPolicy)
    requires InPolicyHeader(p) && InPolicyHeader(q)
    requires PolicyName(p) == PolicyName(q)
    ensures p == q
  {
  }
}
