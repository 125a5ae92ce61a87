/**
 * ValidationResult, the inner class that ChimeraExpression and HyperscanExpression
 * each declare with the same fields and methods: the error message of each engine's
 * compiler, None when that engine accepted the pattern.
 */
module Validation {
  import opened Wrappers
  import opened Domain
  import opened HyperscanUtils

  datatype ValidationResult = ValidationResult(hyperscanError: Option<string>, chimeraError: Option<string>)
  {
    /** isValidHyperscan(): the Hyperscan compiler reported no error. */
    predicate IsValidHyperscan() {
      hyperscanError.None?
    }

    /** isValidChimera(): the Chimera compiler reported no error. */
    predicate IsValidChimera() {
      chimeraError.None?
    }

    /** isValid(): at least one of the two engines accepts the pattern. */
    predicate IsValid() {
      IsValidChimera() || IsValidHyperscan()
    }

    /** getHyperscanErrorMessage(): present exactly when the pattern is not valid for Hyperscan. */
    function GetHyperscanErrorMessage(): (m: Option<string>)
      ensures m.Some? <==> !IsValidHyperscan()
      ensures m.Some? ==> m.value == hyperscanError.value
    {
      hyperscanError
    }

    /** getChimeraErrorMessage(): present exactly when the pattern is not valid for Chimera. */
    function GetChimeraErrorMessage(): (m: Option<string>)
      ensures m.Some? <==> !IsValidChimera()
      ensures m.Some? ==> m.value == chimeraError.value
    {
      chimeraError
    }
  }

  /** A result is invalid exactly when both engines report an error message. */
  lemma InvalidOnlyWithBothMessages(v: ValidationResult)
    ensures !v.IsValid() <==> v.GetHyperscanErrorMessage().Some? && v.GetChimeraErrorMessage().Some?
  {
  }

  /**
   * hyperscanValidate(), the same in both expression classes: asks the Hyperscan
   * compiler for the expression's info and keeps the message of the error record
   * it returns on a non-zero code.
   */
  function ExpressionInfoError(engine: Engine, pattern: string, flags: seq<BitFlag>): (m: Option<string>)
    ensures m.None? <==> engine.hsExpressionInfo(pattern, OrBits(flags)).code == 0
    ensures m.Some? ==> m.value == engine.hsExpressionInfo(pattern, OrBits(flags)).error.message
  {
    var reply := engine.hsExpressionInfo(pattern, OrBits(flags));
    if reply.code != 0 then Some(reply.error.message) else None
  }
}
