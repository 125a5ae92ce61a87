/**
 * HyperscanExpression: an immutable pattern descriptor for the plain Hyperscan
 * engine. Its validation consults only the Hyperscan compiler.
 */
module HyperscanExpressions {
  import opened Wrappers
  import opened Domain
  import opened HyperscanUtils
  import opened Validation

  /**
   * The six constructors, as for ChimeraExpression: a null pattern is rejected, then a
   * null single flag (by EnumSet.of); a missing flag argument leaves the flags empty, a
   * missing context leaves it null.
   */
  function New(expression: Option<string>, flags: FlagArgument, context: Option<Context>): (r: Result<HyperscanExpression, Error>)
    ensures r.Err? <==> expression.None? || IsNullFlag(flags)
    ensures expression.None? ==> r.error == NullPointerException(Some(NULL_EXPRESSION))
    ensures expression.Some? && IsNullFlag(flags) ==> r.error == NullPointerException(None)
    ensures r.Ok? ==> r.value.pattern == expression.value && r.value.context == context
    ensures r.Ok? && flags.NoFlags? ==> r.value.flags == []
    ensures r.Ok? && flags.FlagSet? ==> r.value.flags == flags.members
    ensures r.Ok? && flags.SingleFlag? ==> r.value.flags == [flags.flag.value]
  {
    if expression.None? then Err(NullPointerException(Some(NULL_EXPRESSION)))
    else if IsNullFlag(flags) then Err(NullPointerException(None))  // EnumSet.of(null)
    else Ok(HyperscanExpression(expression.value, StoredFlags(flags), context))
  }

  /**
   * validate(): the Hyperscan compiler's message and a null Chimera message, so the
   * result is always valid for Chimera and hence valid.
   */
  function Validate(engine: Engine, expression: HyperscanExpression): (v: ValidationResult)
    ensures v.IsValidChimera() && v.IsValid()
    ensures v.GetChimeraErrorMessage().None?
    ensures v.IsValidHyperscan() <==> engine.hsExpressionInfo(expression.pattern, OrBits(expression.flags)).code == 0
    ensures !v.IsValidHyperscan() ==>
              v.GetHyperscanErrorMessage() == Some(engine.hsExpressionInfo(expression.pattern, OrBits(expression.flags)).error.message)
  {
    ValidationResult(ExpressionInfoError(engine, expression.pattern, expression.flags), None)
  }
}
