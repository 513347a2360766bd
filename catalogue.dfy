/**
 * The violation kinds the keyword visitors report, and the two catalogues side by side.
 *
 * The best-practices (Z4xx) and consistency (Z3xx) catalogues are not part of this model:
 * their entries appear as kinds without a known code.
 */
module Catalogue {
  import opened Wrappers
  import opened ViolationBase
  import Naming
  import Complexity

  /** The best-practices entries the keyword visitors report. */
  datatype BestPracticesViolation =
    | WrongKeywordViolation
    | RaiseNotImplementedViolation
    | BaseExceptionViolation
    | RedundantForElseViolation
    | RedundantFinallyViolation

  /** The consistency entry the list comprehension visitor reports. */
  datatype ConsistencyViolation = MultipleIfsInComprehensionViolation

  datatype ViolationKind =
    | NamingKind(naming: Naming.NamingViolation)
    | ComplexityKind(complexity: Complexity.ComplexityViolation)
    | BestPracticesKind(bestPractices: BestPracticesViolation)
    | ConsistencyKind(consistency: ConsistencyViolation)

  /** The numeric code of a kind, when its catalogue is part of the model. */
  function Code(k: ViolationKind): (r: Option<nat>)
    ensures r.Some? <==> k.NamingKind? || k.ComplexityKind?
  {
    match k
    case NamingKind(n) => Some(Naming.Code(n))
    case ComplexityKind(c) => Some(Complexity.Code(c))
    case _ => None
  }

  /** The kind registered under a numeric code in either catalogue. */
  function FromCode(code: nat): (r: Option<ViolationKind>)
    ensures r.Some? ==> Code(r.value) == Some(code)
  {
    if code < 200 then
      match Naming.FromCode(code)
      case Some(n) => Some(NamingKind(n))
      case None => None
    else
      match Complexity.FromCode(code)
      case Some(c) => Some(ComplexityKind(c))
      case None => None
  }

  /** Every naming code is below 200 and every complexity code at or above it. */
  lemma NamingBelowComplexity(n: Naming.NamingViolation, c: Complexity.ComplexityViolation)
    ensures Naming.Code(n) < 200 <= Complexity.Code(c)
    ensures Naming.Code(n) != Complexity.Code(c)
  {
  }

  /** A kind with a code is found again by that code. */
  lemma {:induction false} FromCodeFindsKind(k: ViolationKind)
    requires Code(k).Some?
    ensures FromCode(Code(k).value) == Some(k)
  {
    match k
    case NamingKind(n) => Naming.FromCodeFindsEntry(n);
    case ComplexityKind(c) => Complexity.FromCodeFindsEntry(c);
  }

  /** No two kinds of the two catalogues share a code, within or across them. */
  lemma CodesUnique(a: ViolationKind, b: ViolationKind)
    requires Code(a).Some? && Code(b).Some?
    ensures Code(a) == Code(b) <==> a == b
  {
    FromCodeFindsKind(a);
    FromCodeFindsKind(b);
  }

  /** Two kinds with codes are shown to the user differently. */
  lemma DisplayedCodesDiffer(a: ViolationKind, b: ViolationKind)
    requires Code(a).Some? && Code(b).Some? && a != b
    ensures DisplayCode(Code(a).value) != DisplayCode(Code(b).value)
  {
    CodesUnique(a, b);
    DisplayCodeInjective(Code(a).value, Code(b).value);
  }
}
