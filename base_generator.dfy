/**
 * The generator interface every avatar generator inherits: it records the
 * feature size and the entropy the generator requires, compares that
 * requirement with what a preprocessor provides, and produces no avatar.
 */
module BaseGenerators {
  import opened Wrappers
  import opened Errors

  /** Generator configuration; `entropy` stays unset (None) until a concrete generator assigns it. */
  datatype BaseGenerator = BaseGenerator(size: int, entropy: Option<int>)

  /** The base constructor: stores `size` unchanged and leaves the entropy unset. */
  function NewBaseGenerator(size: int): (g: BaseGenerator)
    ensures g.size == size
    ensures g.entropy.None?
  {
    BaseGenerator(size, None)
  }

  /**
   * The entropy gate. Comparing the provided entropy with an unset
   * requirement is a Python TypeError; otherwise the answer is whether the
   * provision reaches the requirement.
   */
  function CheckEntropy(g: BaseGenerator, provided: int): (r: Result<bool, Error>)
    ensures r.Failure? <==> g.entropy.None?
    ensures r.Failure? ==> r.error == TypeError
  {
    match g.entropy
    case None => Failure(TypeError)
    case Some(required) => Success(provided >= required)
  }

  /** With a requirement set, the gate passes exactly when provided >= required. */
  lemma GatePassesIff(g: BaseGenerator, provided: int)
    requires g.entropy.Some?
    ensures CheckEntropy(g, provided).Success?
    ensures CheckEntropy(g, provided).value <==> provided >= g.entropy.value
  {
  }

  /** The boundary is inclusive: the requirement itself passes, one bit less fails. */
  lemma GateBoundary(g: BaseGenerator)
    requires g.entropy.Some?
    ensures CheckEntropy(g, g.entropy.value) == Success(true)
    ensures CheckEntropy(g, g.entropy.value - 1) == Success(false)
  {
  }

  /** A 128-bit provision against a 129-bit requirement fails, against 128 it passes. */
  lemma GateExamples(size: int)
    ensures CheckEntropy(BaseGenerator(size, Some(129)), 128) == Success(false)
    ensures CheckEntropy(BaseGenerator(size, Some(128)), 128) == Success(true)
  {
  }

  /** The gate is monotone in the provided entropy. */
  lemma GateMonotone(g: BaseGenerator, provided: int, more: int)
    requires CheckEntropy(g, provided) == Success(true)
    requires provided <= more
    ensures CheckEntropy(g, more) == Success(true)
  {
  }

  /** The interface's `generate` yields no avatar, whatever it is given. */
  function Generate(g: BaseGenerator, data: string, avatarSize: int): (avatar: Option<seq<bv8>>)
    ensures avatar.None?
  {
    None
  }
}
