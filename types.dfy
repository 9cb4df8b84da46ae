/** The library's shared types: the availability verdict, a probe's result and the probe configuration. */
module Types {

  /** The verdict for one domain. Two verdicts are equal when their variants and reasons are. */
  datatype Availability = Available | Taken | Unknown(reason: string)
  {
    /** `Availability::is_available`. */
    predicate IsAvailable() { Available? }

    /** `Availability::is_taken`. */
    predicate IsTaken() { Taken? }

    /** `Availability::is_unknown`: any reason, the empty one included. */
    predicate IsUnknown() { Unknown? }
  }

  /** Exactly one of the three predicates holds of every verdict. */
  lemma ExactlyOneVerdict(a: Availability)
    ensures (if a.IsAvailable() then 1 else 0) + (if a.IsTaken() then 1 else 0)
            + (if a.IsUnknown() then 1 else 0) == 1
  {
  }

  /** Whatever its reason, an Unknown is unknown and never available or taken. */
  lemma UnknownForAnyReason(reason: string)
    ensures Unknown(reason).IsUnknown()
    ensures !Unknown(reason).IsAvailable() && !Unknown(reason).IsTaken()
  {
  }

  /** The derived equality: two Unknown verdicts are equal iff their reasons are. */
  lemma UnknownEquality(a: string, b: string)
    ensures Unknown(a) == Unknown(b) <==> a == b
  {
  }

  /** One probe's outcome. The wall-clock `duration` field is not modelled. */
  datatype ProbeResult = ProbeResult(domain: string, availability: Availability)

  /** Rust's `u32`. */
  type U32 = n: nat | n < 0x1_0000_0000

  /** `ProbeConfig`; the timeout is kept in whole seconds, the unit every caller uses. */
  datatype ProbeConfig = ProbeConfig(
    timeoutSeconds: nat,
    whoisFallback: bool,
    maxRatePerEndpoint: U32,
    maxConcurrentPerEndpoint: U32)

  /** `ProbeConfig::default()`. */
  function DefaultConfig(): (c: ProbeConfig)
    ensures c.timeoutSeconds == 5 && c.whoisFallback
    ensures c.maxRatePerEndpoint == 20 && c.maxConcurrentPerEndpoint == 10
  {
    ProbeConfig(5, true, 20, 10)
  }
}
