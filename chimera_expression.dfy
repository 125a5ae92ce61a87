/**
 * ChimeraExpression: an immutable pattern descriptor for the Chimera engine, its
 * constructors' null check, and its validation against both compilers.
 */
module ChimeraExpressions {
  import opened Wrappers
  import opened Domain
  import opened HyperscanUtils
  import opened Validation
  import opened ChimeraDatabases

  /**
   * The six constructors: (expression), (expression, context), (expression, flags),
   * (expression, flag), (expression, flags, context) and (expression, flag, context).
   * A missing flag argument leaves the flags empty and a missing context leaves it null;
   * the null check on the pattern comes first, then EnumSet.of rejects a null single flag.
   */
  function New(expression: Option<string>, flags: FlagArgument, context: Option<Context>): (r: Result<ChimeraExpression, Error>)
    ensures r.Err? <==> expression.None? || IsNullFlag(flags)
    ensures expression.None? ==> r.error == NullPointerException(Some(NULL_EXPRESSION))
    ensures expression.Some? && IsNullFlag(flags) ==> r.error == NullPointerException(None)
    ensures r.Ok? ==> r.value.pattern == expression.value && r.value.context == context
    ensures r.Ok? && flags.NoFlags? ==> r.value.flags == []
    ensures r.Ok? && flags.FlagSet? ==> r.value.flags == flags.members
    ensures r.Ok? && flags.SingleFlag? ==> r.value.flags == [flags.flag.value]
  {
    if expression.None? then Err(NullPointerException(Some(NULL_EXPRESSION)))
    else if IsNullFlag(flags) then Err(NullPointerException(None))  // EnumSet.of(null)
    else Ok(ChimeraExpression(expression.value, StoredFlags(flags), context))
  }

  /**
   * What chimeraValidate() yields: no message when the expression compiles, the
   * message of the HyperscanException compile throws otherwise; any other exception
   * of compile escapes.
   */
  function ChimeraValidation(engine: Engine, expression: ChimeraExpression): Result<Option<string>, Error>
  {
    var reply := engine.chCompile(expression.pattern, OrBits(expression.flags), HS_MODE_BLOCK);
    var handled := HandleErrors(reply.code, reply.error, [expression]);
    if handled.outcome.Pass? then Ok(None)
    else if handled.outcome.error.IsHyperscanException() then Ok(Some(handled.outcome.error.Message()))
    else Err(handled.outcome.error)
  }

  /** chimeraValidate(): compiles the expression in a try-with-resources block and reports the outcome. */
  method ChimeraValidate(engine: Engine, expression: ChimeraExpression) returns (r: Result<Option<string>, Error>)
    ensures r == ChimeraValidation(engine, expression)
  {
    var compiled := ChimeraDatabase.Compile(engine, expression);
    if compiled.Err? {
      if compiled.error.IsHyperscanException() {
        return Ok(Some(compiled.error.Message()));
      }
      return Err(compiled.error);
    }
    var db := compiled.value;
    db.Close();
    return Ok(None);
  }

  /** validate(): the Hyperscan compiler's message and the Chimera compiler's message. */
  method Validate(engine: Engine, expression: ChimeraExpression) returns (r: Result<ValidationResult, Error>)
    ensures r.Ok? <==> ChimeraValidation(engine, expression).Ok?
    ensures r.Err? ==> r.error == ChimeraValidation(engine, expression).error
    ensures r.Ok? ==> r.value == ValidationResult(ExpressionInfoError(engine, expression.pattern, expression.flags),
                                                  ChimeraValidation(engine, expression).value)
  {
    var hyperscanError := ExpressionInfoError(engine, expression.pattern, expression.flags);
    var chimeraError := ChimeraValidate(engine, expression);
    if chimeraError.Err? {
      return Err(chimeraError.error);
    }
    return Ok(ValidationResult(hyperscanError, chimeraError.value));
  }

  /**
   * The Chimera verdict follows the compile code: valid exactly on code 0; on a
   * compile error charged to the expression itself the message is the compiler's;
   * on any other failure it is the wrapper's "Failed to handle error". Validation
   * itself fails only when the compiler charges the error to an index past the
   * single expression.
   */
  lemma ChimeraVerdict(engine: Engine, expression: ChimeraExpression)
    ensures var reply := engine.chCompile(expression.pattern, OrBits(expression.flags), HS_MODE_BLOCK);
            var v := ChimeraValidation(engine, expression);
            && (v.Err? <==> reply.code == HS_COMPILE_ERROR && reply.error.expression > 0)
            && (v.Err? ==> v.error == IndexOutOfBoundsException)
            && (v.Ok? ==> (v.value.None? <==> reply.code == 0))
            && (v.Ok? && reply.code == HS_COMPILE_ERROR ==> v.value == Some(reply.error.message))
            && (reply.code != 0 && reply.code != HS_COMPILE_ERROR ==> v.value == Some(FAILED_TO_HANDLE_ERROR))
  {
  }

  /** An expression valid for neither engine reports both messages (the invalid back-reference case). */
  lemma InvalidForBoth(engine: Engine, expression: ChimeraExpression, v: ValidationResult)
    requires engine.hsExpressionInfo(expression.pattern, OrBits(expression.flags)).code != 0
    requires var reply := engine.chCompile(expression.pattern, OrBits(expression.flags), HS_MODE_BLOCK);
             reply.code == HS_COMPILE_ERROR && reply.error.expression <= 0
    requires v == ValidationResult(ExpressionInfoError(engine, expression.pattern, expression.flags),
                                   ChimeraValidation(engine, expression).value)
    ensures !v.IsValid() && !v.IsValidHyperscan() && !v.IsValidChimera()
    ensures v.GetHyperscanErrorMessage() == Some(engine.hsExpressionInfo(expression.pattern, OrBits(expression.flags)).error.message)
    ensures v.GetChimeraErrorMessage() == Some(engine.chCompile(expression.pattern, OrBits(expression.flags), HS_MODE_BLOCK).error.message)
  {
    ChimeraVerdict(engine, expression);
  }
}
