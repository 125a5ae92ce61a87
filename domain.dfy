/**
 * The entities shared by the wrapper: native handles and the replies of the native
 * engine (the oracle every native call is routed through), flag enum constants,
 * expression descriptors, and the exceptions the wrapper throws.
 */
module Domain {
  import opened Wrappers

  /** An opaque native pointer (database, scratch space or compile-error record). */
  datatype Handle = Handle(address: nat)

  /** The opaque user object an expression may carry as its context. */
  datatype Context = Context(reference: nat)

  /**
   * A constant of some Java enum placed in an EnumSet: its name, whether its enum
   * class implements HyperscanBitFlag, and what its getBits() returns (None for null).
   */
  datatype EnumConstant = EnumConstant(name: string, isBitFlag: bool, bits: Option<bv32>)

  /** A constant of a flag enum (ChimeraExpressionFlag or HyperscanExpressionFlag). */
  type BitFlag = c: EnumConstant | c.isBitFlag witness EnumConstant("", true, None)

  /** Name of the wrapper-level flag asking the scanner to copy out the matched text. */
  const EXTRACT_MATCHED: string := "EXTRACT_MATCHED"

  /** EnumSet.contains(EXTRACT_MATCHED) on the flags of an expression. */
  predicate HasExtractMatched(flags: seq<BitFlag>) {
    exists i | 0 <= i < |flags| :: flags[i].name == EXTRACT_MATCHED
  }

  /**
   * A pattern for the Chimera engine. `flags` lists the EnumSet in its iteration
   * order; `context` is None when the Java field is null.
   */
  datatype ChimeraExpression = ChimeraExpression(pattern: string, flags: seq<BitFlag>, context: Option<Context>)

  /** A pattern for the plain Hyperscan engine; same shape as ChimeraExpression. */
  datatype HyperscanExpression = HyperscanExpression(pattern: string, flags: seq<BitFlag>, context: Option<Context>)

  /** The Expression interface: what a Match records as the expression that produced it. */
  datatype Expression = Chimera(chimera: ChimeraExpression) | Hyperscan(hyperscan: HyperscanExpression)

  /**
   * The flag argument of an expression constructor: none (the overloads without
   * flags), an EnumSet, or a single constant (wrapped by EnumSet.of), None when null.
   */
  datatype FlagArgument = NoFlags | FlagSet(members: seq<BitFlag>) | SingleFlag(flag: Option<BitFlag>)

  /** A null single flag, which EnumSet.of rejects. */
  predicate IsNullFlag(arg: FlagArgument) {
    arg.SingleFlag? && arg.flag.None?
  }

  /** The flags a constructor stores for its flag argument: an empty set, the set, or {flag}. */
  function StoredFlags(arg: FlagArgument): seq<BitFlag>
    requires !IsNullFlag(arg)
  {
    match arg
    case NoFlags => []
    case FlagSet(members) => members
    case SingleFlag(flag) => [flag.value]
  }

  /** Message of the NullPointerException both expression classes throw for a null pattern. */
  const NULL_EXPRESSION: string := "Null value for expression is not allowed"

  /**
   * The exceptions the wrapper raises. HyperscanException carries its message and
   * optional cause; the wrapper only ever chains, as a cause, the exception
   * hsErrorIntToException makes of an engine code, so the cause is recorded as that
   * code (HyperscanUtils.Cause rebuilds the exception). CompileErrorException (a
   * HyperscanException) carries the expression it is attributed to; the rest are
   * Java runtime exceptions. The message of a NullPointerException that the JVM
   * raises itself (rather than one the wrapper throws) is left unspecified: None.
   */
  datatype Error =
    | HyperscanException(message: string, causeCode: Option<int>)
    | CompileErrorException(message: string, failedExpression: ChimeraExpression)
    | IllegalStateException(message: string)
    | NullPointerException(detail: Option<string>)
    | InvalidParameterException
    | ArrayIndexOutOfBoundsException
    | IndexOutOfBoundsException
    | StringIndexOutOfBoundsException
    | NegativeArraySizeException
  {
    /** True for the exceptions a `catch (HyperscanException e)` clause catches. */
    predicate IsHyperscanException() {
      HyperscanException? || CompileErrorException?
    }

    /** getMessage() of a HyperscanException or CompileErrorException. */
    function Message(): string
      requires IsHyperscanException()
    {
      message
    }
  }

  /** A compile-error record of the engine: its address, message and the failing pattern's index or -1. */
  datatype CompileErrorRecord = CompileErrorRecord(address: Handle, message: string, expression: int)

  /** Result code of a compile call, the database it wrote and the error record it wrote. */
  datatype CompileReply = CompileReply(code: int, database: Handle, error: CompileErrorRecord)

  /** Result code of hs_expression_info and the error record it wrote. */
  datatype InfoReply = InfoReply(code: int, error: CompileErrorRecord)

  /** Result code of ch_alloc_scratch and the scratch pointer it wrote. */
  datatype AllocReply = AllocReply(code: int, scratch: Handle)

  /** One callback invocation of a scan: pattern id and byte offsets (from, to). */
  datatype MatchEvent = MatchEvent(id: int, from: int, to: int)

  /** Result code of ch_scan and the callback invocations it made, in order. */
  datatype ScanReply = ScanReply(code: int, events: seq<MatchEvent>)

  /**
   * The native engine, seen only through what each call returns. A None pointer
   * argument is a NULL pointer.
   */
  datatype Engine = Engine(
    chCompile: (string, bv32, int) -> CompileReply,
    chCompileMulti: (seq<string>, seq<bv32>, seq<int>, int, int) -> CompileReply,
    hsExpressionInfo: (string, bv32) -> InfoReply,
    chDatabaseSize: Handle -> nat,
    chAllocScratch: (Option<Handle>, Option<Handle>) -> AllocReply,
    hsScratchSize: Handle -> nat,
    chScratchSize: Handle -> nat,
    chScan: (Option<Handle>, string, int, Option<Handle>) -> ScanReply
  )
}
