// `Guid.NewGuid().ToString()` as a fresh-identifier source: the k-th
// identifier handed out is the decimal rendering of k, so identifiers never
// repeat. The GUID text format is not modelled.
module Guids {
  import opened Text

  function GuidText(k: nat): (s: string)
    ensures |s| > 0
  {
    NatToString(k)
  }

  /** Distinct draws give distinct identifiers. */
  lemma GuidTextInjective(a: nat, b: nat)
    requires GuidText(a) == GuidText(b)
    ensures a == b
  {
    NatToStringInjective(a, b);
  }

  class GuidSource {
    /** How many identifiers have been handed out. */
    var next: nat

    constructor(start: nat)
      ensures next == start
    {
      next := start;
    }

    method NewGuid() returns (g: string)
      modifies this
      ensures g == GuidText(old(next)) && next == old(next) + 1
    {
      g := GuidText(next);
      next := next + 1;
    }
  }
}
