/**
 * ChimeraDatabase: compiling one or several Chimera expressions into a native
 * database, attributing compile errors to the expression that caused them, and the
 * lifetime of the database handle, which is freed at most once.
 */
module ChimeraDatabases {
  import opened Wrappers
  import opened Domain
  import opened HyperscanUtils

  /** The engine's block mode (HS_MODE_BLOCK). */
  const HS_MODE_BLOCK: int := 1048576

  /** The engine's result code for a pattern that does not compile (HS_COMPILE_ERROR). */
  const HS_COMPILE_ERROR: int := -4

  const FAILED_TO_HANDLE_ERROR: string := "Failed to handle error"

  const DATABASE_DEALLOCATED: string := "Database has alredy been deallocated"

  // ---------------------------------------------------------------------------
  // Error handling

  /** What handleErrors does: the exception it throws (if any) and the compile-error records it frees. */
  datatype Handled = Handled(outcome: Outcome<Error>, freed: seq<Handle>)

  /** The expression a compile error is charged to: the record's index, or the first expression for -1. */
  function AttributedIndex(record: CompileErrorRecord): (i: int)
    ensures 0 <= i
    ensures record.expression > -1 ==> i == record.expression
    ensures record.expression <= -1 ==> i == 0
  {
    if record.expression > -1 then record.expression else 0
  }

  /**
   * handleErrors: a zero code passes; HS_COMPILE_ERROR throws CompileErrorException
   * naming the attributed expression (IndexOutOfBoundsException when there is none)
   * and frees the record in a finally block; any other code throws a
   * HyperscanException whose cause is the translated code.
   */
  function HandleErrors(chError: int, compileError: CompileErrorRecord, expressions: seq<ChimeraExpression>): (h: Handled)
    ensures h.outcome.Pass? <==> chError == 0
    ensures chError == HS_COMPILE_ERROR ==> h.freed == [compileError.address]
    ensures chError != HS_COMPILE_ERROR ==> h.freed == []
    ensures chError == HS_COMPILE_ERROR && AttributedIndex(compileError) < |expressions| ==>
              h.outcome == Fail(CompileErrorException(compileError.message, expressions[AttributedIndex(compileError)]))
    ensures chError == HS_COMPILE_ERROR && AttributedIndex(compileError) >= |expressions| ==>
              h.outcome == Fail(IndexOutOfBoundsException)
    ensures chError != 0 && chError != HS_COMPILE_ERROR ==>
              h.outcome == Fail(HyperscanException(FAILED_TO_HANDLE_ERROR, Some(chError)))
    ensures h.outcome.Fail? ==>
              (h.outcome.error.IsHyperscanException() <==>
               chError != HS_COMPILE_ERROR || AttributedIndex(compileError) < |expressions|)
  {
    if chError == 0 then
      Handled(Pass, [])
    else if chError == HS_COMPILE_ERROR then
      var i := AttributedIndex(compileError);
      var thrown := if i < |expressions| then CompileErrorException(compileError.message, expressions[i])
                    else IndexOutOfBoundsException;
      Handled(Fail(thrown), [compileError.address])
    else
      Handled(Fail(HyperscanException(FAILED_TO_HANDLE_ERROR, Some(chError))), [])
  }

  // ---------------------------------------------------------------------------
  // Batch preparation

  /** The patterns of the expressions, in iteration order. */
  function Patterns(expressions: seq<ChimeraExpression>): (p: seq<string>)
    ensures |p| == |expressions|
    ensures forall i | 0 <= i < |p| :: p[i] == expressions[i].pattern
  {
    seq(|expressions|, i requires 0 <= i < |expressions| => expressions[i].pattern)
  }

  /** The encoded flags of the expressions, in iteration order. */
  function FlagValues(expressions: seq<ChimeraExpression>): (f: seq<bv32>)
    ensures |f| == |expressions|
    ensures forall i | 0 <= i < |f| :: f[i] == OrBits(expressions[i].flags)
  {
    seq(|expressions|, i requires 0 <= i < |expressions| => OrBits(expressions[i].flags))
  }

  /** The ids 0 .. n-1. */
  function Ids(n: nat): (ids: seq<int>)
    ensures |ids| == n
    ensures forall i | 0 <= i < n :: ids[i] == i
  {
    seq(n, i => i)
  }

  /** bitEnumSetToInt on the flags of an expression, which are all HyperscanBitFlag constants. */
  method EncodeFlags(flags: seq<BitFlag>) returns (bits: bv32)
    ensures bits == OrBits(flags)
  {
    var r := BitEnumSetToInt(flags);
    assert forall i | 0 <= i < |flags| :: flags[i].isBitFlag;
    bits := r.value;
  }

  // ---------------------------------------------------------------------------
  // The database

  class ChimeraDatabase {
    /** The native database; None once it has been freed (the Java field set to null). */
    var database: Option<Handle>
    const expressions: seq<ChimeraExpression>
    /** The handle the compiler returned. */
    ghost const compiled: Handle
    /** The handles passed to hs_free_database, in order. */
    ghost var freed: seq<Handle>

    /** The compiled handle is held and not freed, or released and freed exactly once. */
    ghost predicate Valid()
      reads this
    {
      (database == Some(compiled) && freed == []) || (database.None? && freed == [compiled])
    }

    constructor (chDatabase: Handle, expressions: seq<ChimeraExpression>)
      ensures this.database == Some(chDatabase) && this.expressions == expressions
      ensures compiled == chDatabase && freed == []
      ensures Valid()
    {
      this.database := Some(chDatabase);
      this.expressions := expressions;
      this.compiled := chDatabase;
      this.freed := [];
    }

    /** compile(ChimeraExpression): compiles one expression and keeps it as a one-element list. */
    static method Compile(engine: Engine, expression: ChimeraExpression) returns (r: Result<ChimeraDatabase, Error>)
      ensures var reply := engine.chCompile(expression.pattern, OrBits(expression.flags), HS_MODE_BLOCK);
              var handled := HandleErrors(reply.code, reply.error, [expression]);
              && (r.Ok? <==> reply.code == 0)
              && (r.Err? ==> r.error == handled.outcome.error)
              && (r.Ok? ==> fresh(r.value) && r.value.Valid() && r.value.database == Some(reply.database)
                            && r.value.expressions == [expression])
    {
      var bits := EncodeFlags(expression.flags);
      var reply := engine.chCompile(expression.pattern, bits, HS_MODE_BLOCK);
      var expressions := [expression];
      var handled := HandleErrors(reply.code, reply.error, expressions);
      if handled.outcome.Fail? {
        return Err(handled.outcome.error);
      }
      var db := new ChimeraDatabase(reply.database, expressions);
      return Ok(db);
    }

    /**
     * compile(Collection<ChimeraExpression>): compiles the expressions as one batch
     * with ids 0 .. n-1 and keeps them in iteration order.
     */
    static method CompileMulti(engine: Engine, expressions: seq<ChimeraExpression>) returns (r: Result<ChimeraDatabase, Error>)
      ensures var reply := engine.chCompileMulti(Patterns(expressions), FlagValues(expressions), Ids(|expressions|),
                                                 |expressions|, HS_MODE_BLOCK);
              var handled := HandleErrors(reply.code, reply.error, expressions);
              && (r.Ok? <==> reply.code == 0)
              && (r.Err? ==> r.error == handled.outcome.error)
              && (r.Ok? ==> fresh(r.value) && r.value.Valid() && r.value.database == Some(reply.database)
                            && r.value.expressions == expressions)
    {
      var patterns, flags, ids := CifyExpressions(expressions);
      var size := patterns.Length;
      assert patterns[..] == Patterns(expressions);
      assert flags[..] == FlagValues(expressions);
      assert ids[..] == Ids(|expressions|);
      var reply := engine.chCompileMulti(patterns[..], flags[..], ids[..], size, HS_MODE_BLOCK);
      var compiledExpressions := expressions;
      var handled := HandleErrors(reply.code, reply.error, compiledExpressions);
      if handled.outcome.Fail? {
        return Err(handled.outcome.error);
      }
      var db := new ChimeraDatabase(reply.database, compiledExpressions);
      return Ok(db);
    }

    /**
     * cifyExpressions: the parallel arrays handed to the batch compiler, filled by one
     * pass over the expressions with a running index.
     */
    static method CifyExpressions(expressions: seq<ChimeraExpression>)
      returns (patterns: array<string>, flags: array<bv32>, ids: array<int>)
      ensures fresh(patterns) && fresh(flags) && fresh(ids)
      ensures patterns.Length == flags.Length == ids.Length == |expressions|
      ensures forall i | 0 <= i < |expressions| ::
                patterns[i] == expressions[i].pattern && flags[i] == OrBits(expressions[i].flags) && ids[i] == i
    {
      var expressionsSize := |expressions|;
      patterns := new string[expressionsSize](_ => "");
      flags := new bv32[expressionsSize](_ => 0);
      ids := new int[expressionsSize](_ => 0);
      var indexCounter := 0;
      while indexCounter < expressionsSize
        invariant 0 <= indexCounter <= expressionsSize
        invariant forall i | 0 <= i < indexCounter ::
                    patterns[i] == expressions[i].pattern && flags[i] == OrBits(expressions[i].flags) && ids[i] == i
      {
        var expression := expressions[indexCounter];
        patterns[indexCounter] := expression.pattern;
        flags[indexCounter] := EncodeFlags(expression.flags);
        ids[indexCounter] := indexCounter;
        indexCounter := indexCounter + 1;
      }
    }

    /** getPointer(): the compiled handle until it is freed, None (null) afterwards. */
    function GetPointer(): (p: Option<Handle>)
      requires Valid()
      reads this
      ensures p.Some? <==> freed == []
      ensures p.Some? ==> p.value == compiled
    {
      database
    }

    /** getSize(): the database size, or IllegalStateException once the handle is released. */
    function GetSize(engine: Engine): (r: Result<nat, Error>)
      reads this
      ensures r.Err? <==> database.None?
      ensures r.Err? ==> r.error == IllegalStateException(DATABASE_DEALLOCATED)
      ensures r.Ok? ==> r.value == engine.chDatabaseSize(database.value)
    {
      if database.None? then Err(IllegalStateException(DATABASE_DEALLOCATED))
      else Ok(engine.chDatabaseSize(database.value))
    }

    /** getExpression(id): positional lookup in the compiled list. */
    function GetExpression(id: int): (r: Result<ChimeraExpression, Error>)
      ensures r.Ok? <==> 0 <= id < |expressions|
      ensures r.Ok? ==> r.value == expressions[id]
      ensures r.Err? ==> r.error == IndexOutOfBoundsException
    {
      if 0 <= id < |expressions| then Ok(expressions[id]) else Err(IndexOutOfBoundsException)
    }

    /** finalize(): frees the handle if it is still held and forgets it. */
    method Finalize()
      requires Valid()
      modifies this
      ensures Valid()
      ensures database.None?
      ensures old(database).Some? ==> freed == old(freed) + [old(database).value]
      ensures old(database).None? ==> freed == old(freed)
    {
      if database.Some? {
        freed := freed + [database.value];  // hs_free_database
        database := None;
      }
    }

    /** close(): the same as finalize(), so closing again frees nothing. */
    method Close()
      requires Valid()
      modifies this
      ensures Valid()
      ensures database.None?
      ensures old(database).Some? ==> freed == old(freed) + [old(database).value]
      ensures old(database).None? ==> freed == old(freed)
    {
      Finalize();
    }
  }

  /** Once released, a database reports IllegalStateException for its size and has freed its handle exactly once. */
  lemma ReleasedDatabase(db: ChimeraDatabase, engine: Engine)
    requires db.Valid() && db.database.None?
    ensures db.GetSize(engine) == Err(IllegalStateException(DATABASE_DEALLOCATED))
    ensures db.freed == [db.compiled]
  {
  }
}
