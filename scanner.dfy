/**
 * Scanner: owns a scratch space, collects the engine's match callbacks, and turns
 * each (id, from, to) triple of UTF-8 byte offsets into a Match positioned in the
 * Java String.
 */
module Scanners {
  import opened Wrappers
  import opened Domain
  import opened Utf
  import opened HyperscanUtils
  import opened Matches
  import opened ChimeraDatabases

  const SCRATCH_DEALLOCATED: string := "Scratch space has alredy been deallocated"

  const FAILED_TO_ALLOC_SCRATCH: string := "Failed to allocScratch."

  const FAILED_TO_SCAN: string := "Failed to scan."

  /** The `(int)` cast of a Java long: the low 32 bits read as a two's-complement int. */
  function LongToInt(x: int): (r: int)
    ensures -0x8000_0000 <= r < 0x8000_0000
    ensures -0x8000_0000 <= x < 0x8000_0000 ==> r == x
    ensures (x - r) % 0x1_0000_0000 == 0
  {
    if -0x8000_0000 <= x < 0x8000_0000 then x else (x + 0x8000_0000) % 0x1_0000_0000 - 0x8000_0000
  }

  // ---------------------------------------------------------------------------
  // End index of a match

  /**
   * Which end index a Match gets: the one scan writes (one past the first unit of
   * the last matched code point), or the intended one (one past the whole code
   * point, which takes two units when its first unit is a high surrogate).
   */
  datatype EndRule = AsWritten | Intended

  /** The end index under a rule, given the String's units and the index of the last matched code point. */
  function EndIndex(rule: EndRule, units: JString, last: int): (end: int)
    ensures rule.AsWritten? ==> end == last + 1
    ensures rule.Intended? ==> (end == last + 2 <==> 0 <= last < |units| && IsHighSurrogate(units[last]))
    ensures rule.Intended? ==> (end == last + 1 <==> !(0 <= last < |units| && IsHighSurrogate(units[last])))
  {
    if rule.Intended? && 0 <= last < |units| && IsHighSurrogate(units[last]) then last + 2 else last + 1
  }

  /** The byte whose index gives the end of a match: `max(to, 1) - 1`, as scan clamps `to`. */
  function LastByte(to: int): (j: int)
    ensures 0 <= j
    ensures to >= 1 ==> j == to - 1
    ensures to < 1 ==> j == 0
  {
    if to < 1 then 0 else to - 1
  }

  // ---------------------------------------------------------------------------
  // Assembling matches

  /**
   * The Match the scanner builds for one callback triple, given the byte-to-index
   * mapping: the start is the index of byte `from`, the end follows the index of
   * byte `max(to, 1) - 1` by the rule, the expression is looked up by id, and the text is
   * copied out only for an expression flagged EXTRACT_MATCHED. Reads outside the
   * mapping, an unknown id and a bad substring range are the Java exceptions.
   */
  function MatchOf(rule: EndRule, input: string, byteToIndex: seq<int>, expressions: seq<ChimeraExpression>, e: MatchEvent): (r: Result<Match, Error>)
    ensures r.Ok? ==> 0 <= e.id < |expressions| && r.value.matchedExpression == Chimera(expressions[e.id])
    ensures r.Ok? ==> (r.value.GetMatched().Some? <==> HasExtractMatched(expressions[e.id].flags))
  {
    var from := LongToInt(e.from);
    var last := LongToInt(if e.to < 1 then 1 else e.to) - 1;
    if !(0 <= from < |byteToIndex|) || !(0 <= last < |byteToIndex|) then
      Err(ArrayIndexOutOfBoundsException)
    else if !(0 <= e.id < |expressions|) then
      Err(IndexOutOfBoundsException)
    else
      var units := Utf16(input);
      var startIndex := byteToIndex[from];
      var endIndex := EndIndex(rule, units, byteToIndex[last]);
      var expression := expressions[e.id];
      if !HasExtractMatched(expression.flags) then
        Ok(MatchWithoutText(startIndex, endIndex, Chimera(expression)))
      else if 0 <= startIndex <= endIndex <= |units| then
        Ok(MatchWithText(startIndex, endIndex, units[startIndex..endIndex], Chimera(expression)))
      else
        Err(StringIndexOutOfBoundsException)
  }

  /** The matches of the first n triples, in order, or the first exception among them. */
  function AssembleMatches(rule: EndRule, input: string, byteToIndex: seq<int>, expressions: seq<ChimeraExpression>,
                           events: seq<MatchEvent>, n: nat): Result<seq<Match>, Error>
    requires n <= |events|
  {
    if n == 0 then Ok([])
    else
      var prefix := AssembleMatches(rule, input, byteToIndex, expressions, events, n - 1);
      if prefix.Err? then prefix
      else
        var m := MatchOf(rule, input, byteToIndex, expressions, events[n - 1]);
        if m.Err? then Err(m.error) else Ok(prefix.value + [m.value])
  }

  /**
   * What scan returns under an end rule: the translated failure for a non-zero
   * engine code, the empty list when nothing matched, and otherwise one Match per
   * reported triple, in order, or the first exception among them.
   */
  function ScanResult(rule: EndRule, engine: Engine, database: Option<Handle>, expressions: seq<ChimeraExpression>,
                      scratch: Option<Handle>, input: string): (r: Result<seq<Match>, Error>)
    ensures var reply := engine.chScan(database, input, Utf8Length(input), scratch);
            && (reply.code != 0 ==> r == Err(HyperscanException(FAILED_TO_SCAN, Some(reply.code))))
            && (reply.code == 0 ==>
                  (r.Ok? <==> forall i | 0 <= i < |reply.events| ::
                                MatchOf(rule, input, ByteIndexes(input), expressions, reply.events[i]).Ok?))
            && (reply.code == 0 && r.Ok? ==>
                  && |r.value| == |reply.events|
                  && forall i | 0 <= i < |reply.events| ::
                       r.value[i] == MatchOf(rule, input, ByteIndexes(input), expressions, reply.events[i]).value)
  {
    var reply := engine.chScan(database, input, Utf8Length(input), scratch);
    if reply.code != 0 then Err(HyperscanException(FAILED_TO_SCAN, Some(reply.code)))
    else if reply.events == [] then Ok([])
    else
      AssembleOnePerEvent(rule, input, ByteIndexes(input), expressions, reply.events, |reply.events|);
      AssembleMatches(rule, input, ByteIndexes(input), expressions, reply.events, |reply.events|)
  }

  /** The scratch pointer reference handed to ch_alloc_scratch, and the pointer it holds. */
  datatype PointerReference = PointerReference(value: Option<Handle>)

  class Scanner {
    /** The triples reported by the match callback during the current scan. */
    var matchedIds: seq<MatchEvent>
    /** None once released (the Java field set to null). */
    var scratchReference: Option<PointerReference>
    /** The scratch space; None before allocation and after release. */
    var scratch: Option<Handle>
    /** How many times a scratch space was taken while none was held. */
    ghost var allocations: nat
    /** The scratch handles passed to hs_free_scratch, in order. */
    ghost var freed: seq<Handle>

    /** Every scratch space taken is either still held or freed exactly once, and the reference holds the scratch. */
    ghost predicate Valid()
      reads this
    {
      && |freed| + (if scratch.Some? then 1 else 0) == allocations
      && (scratch.Some? ==> scratchReference == Some(PointerReference(scratch)))
    }

    constructor ()
      ensures matchedIds == [] && scratchReference == Some(PointerReference(None)) && scratch.None?
      ensures allocations == 0 && freed == []
      ensures Valid()
    {
      matchedIds := [];
      scratchReference := Some(PointerReference(None));
      scratch := None;
      allocations := 0;
      freed := [];
    }

    /** The match callback: records the triple and tells the engine to go on. */
    method OnMatch(id: int, from: int, to: int, flags: int, context: Option<Context>) returns (r: int)
      modifies this`matchedIds
      ensures matchedIds == old(matchedIds) + [MatchEvent(id, from, to)]
      ensures r == 0
    {
      matchedIds := matchedIds + [MatchEvent(id, from, to)];
      return 0;
    }

    /** getHyperscanSize(): the scratch size, or IllegalStateException when no scratch is held. */
    function GetHyperscanSize(engine: Engine): (r: Result<nat, Error>)
      reads this
      ensures r.Err? <==> scratch.None?
      ensures r.Err? ==> r.error == IllegalStateException(SCRATCH_DEALLOCATED)
      ensures r.Ok? ==> r.value == engine.hsScratchSize(scratch.value)
    {
      if scratch.None? then Err(IllegalStateException(SCRATCH_DEALLOCATED))
      else Ok(engine.hsScratchSize(scratch.value))
    }

    /** getChimeraSize(): the scratch size, or IllegalStateException when no scratch is held. */
    function GetChimeraSize(engine: Engine): (r: Result<nat, Error>)
      reads this
      ensures r.Err? <==> scratch.None?
      ensures r.Err? ==> r.error == IllegalStateException(SCRATCH_DEALLOCATED)
      ensures r.Ok? ==> r.value == engine.chScratchSize(scratch.value)
    {
      if scratch.None? then Err(IllegalStateException(SCRATCH_DEALLOCATED))
      else Ok(engine.chScratchSize(scratch.value))
    }

    /**
     * allocScratch(db): recreates a released reference, asks the engine for scratch
     * space for the database, and keeps it on success; on failure scratch is unchanged.
     */
    method AllocScratch(engine: Engine, db: ChimeraDatabase) returns (o: Outcome<Error>)
      requires Valid()
      requires db.Valid()
      modifies this`scratchReference, this`scratch, this`allocations
      ensures Valid()
      ensures scratchReference.Some?
      ensures var held := if old(scratchReference).Some? then old(scratchReference).value.value else None;
              var reply := engine.chAllocScratch(db.database, held);
              && (o.Pass? <==> reply.code == 0)
              && (o.Fail? ==> o.error == HyperscanException(FAILED_TO_ALLOC_SCRATCH, Some(reply.code)))
              && (o.Fail? ==> scratch == old(scratch))
              && (o.Pass? ==> scratch == Some(reply.scratch))
              && (o.Fail? ==> scratchReference ==
                                (if old(scratchReference).Some? then old(scratchReference) else Some(PointerReference(None))))
              && (o.Pass? ==> scratchReference == Some(PointerReference(Some(reply.scratch))))
              && allocations == old(allocations) + (if o.Pass? && old(scratch).None? then 1 else 0)
    {
      var dbPointer := db.GetPointer();
      if scratchReference.None? {
        scratchReference := Some(PointerReference(None));
      }
      var reply := engine.chAllocScratch(dbPointer, scratchReference.value.value);
      if reply.code != 0 {
        return Fail(HyperscanException(FAILED_TO_ALLOC_SCRATCH, Some(reply.code)));
      }
      scratchReference := Some(PointerReference(Some(reply.scratch)));
      if scratch.None? {
        allocations := allocations + 1;
      }
      scratch := Some(reply.scratch);
      return Pass;
    }

    /**
     * scan(db, input): runs the engine over the text with the current scratch
     * (whether or not one is held), collecting a fresh list of callback triples, and
     * assembles one Match per triple.
     */
    method Scan(engine: Engine, db: ChimeraDatabase, input: string) returns (r: Result<seq<Match>, Error>)
      requires db.Valid()
      modifies this`matchedIds
      ensures matchedIds == engine.chScan(db.database, input, Utf8Length(input), scratch).events
      ensures r == ScanResult(Intended, engine, db.database, db.expressions, scratch, input)
    {
      var dbPointer := db.GetPointer();
      var bytesLength := Utf8Length(input);  // input.getBytes(UTF_8).length
      matchedIds := [];
      var reply := engine.chScan(dbPointer, input, bytesLength, scratch);
      Deliver(reply.events);
      if reply.code != 0 {
        return Err(HyperscanException(FAILED_TO_SCAN, Some(reply.code)));
      }
      if matchedIds == [] {
        return Ok([]);
      }
      var mapping := Utf8ByteIndexesMapping(input, bytesLength);
      var byteToIndex := mapping.value;
      assert byteToIndex[..] == ByteIndexes(input);
      r := ToMatches(input, byteToIndex, db, matchedIds);
    }

    /** The engine's callbacks during a scan: one OnMatch per match, in the order reported. */
    method Deliver(events: seq<MatchEvent>)
      modifies this`matchedIds
      ensures matchedIds == old(matchedIds) + events
    {
      for i := 0 to |events|
        invariant matchedIds == old(matchedIds) + events[..i]
      {
        var e := events[i];
        var status := OnMatch(e.id, e.from, e.to, 0, None);
        assert events[..i + 1] == events[..i] + [e];
      }
      assert events[..|events|] == events;
    }

    /** scan's forEach over the collected triples: the Match of each, in order, or the first exception. */
    static method ToMatches(input: string, byteToIndex: array<int>, db: ChimeraDatabase, tuples: seq<MatchEvent>)
      returns (r: Result<seq<Match>, Error>)
      ensures r == AssembleMatches(Intended, input, byteToIndex[..], db.expressions, tuples, |tuples|)
    {
      var matches: seq<Match> := [];
      for i := 0 to |tuples|
        invariant AssembleMatches(Intended, input, byteToIndex[..], db.expressions, tuples, i) == Ok(matches)
      {
        var m := ToMatch(input, byteToIndex, db, tuples[i]);
        if m.Err? {
          assert AssembleMatches(Intended, input, byteToIndex[..], db.expressions, tuples, i + 1) == Err(m.error);
          AssembleErrorPersists(Intended, input, byteToIndex[..], db.expressions, tuples, i + 1, |tuples|);
          return Err(m.error);
        }
        matches := matches + [m.value];
      }
      return Ok(matches);
    }

    /** The body of scan's forEach over the triples: the Match for one triple, read off the mapping array. */
    static method ToMatch(input: string, byteToIndex: array<int>, db: ChimeraDatabase, tuple: MatchEvent)
      returns (r: Result<Match, Error>)
      ensures r == MatchOf(Intended, input, byteToIndex[..], db.expressions, tuple)
    {
      var from := LongToInt(tuple.from);
      var to := if tuple.to < 1 then 1 else tuple.to;  // keeps the read below at index 0 or more
      var last := LongToInt(to) - 1;
      if !(0 <= from < byteToIndex.Length) || !(0 <= last < byteToIndex.Length) {
        return Err(ArrayIndexOutOfBoundsException);
      }
      var startIndex := byteToIndex[from];
      var units := Utf16(input);
      var endIndex := EndIndex(Intended, units, byteToIndex[last]);
      var matchingExpression := db.GetExpression(tuple.id);
      if matchingExpression.Err? {
        return Err(matchingExpression.error);
      }
      var expression := matchingExpression.value;
      if HasExtractMatched(expression.flags) {
        if !(0 <= startIndex <= endIndex <= |units|) {
          return Err(StringIndexOutOfBoundsException);
        }
        return Ok(MatchWithText(startIndex, endIndex, units[startIndex..endIndex], Chimera(expression)));
      }
      return Ok(MatchWithoutText(startIndex, endIndex, Chimera(expression)));
    }

    /** finalize(): frees the scratch if one is held and nulls both scratch and its reference. */
    method Finalize()
      requires Valid()
      modifies this`scratch, this`scratchReference, this`freed
      ensures Valid()
      ensures old(scratch).Some? ==> scratch.None? && scratchReference.None? && freed == old(freed) + [old(scratch).value]
      ensures old(scratch).None? ==> scratch.None? && scratchReference == old(scratchReference) && freed == old(freed)
    {
      if scratch.Some? {
        freed := freed + [scratch.value];  // hs_free_scratch
        scratch := None;
        scratchReference := None;
      }
    }

    /** close(): the same as finalize(), so closing again frees nothing. */
    method Close()
      requires Valid()
      modifies this`scratch, this`scratchReference, this`freed
      ensures Valid()
      ensures old(scratch).Some? ==> scratch.None? && scratchReference.None? && freed == old(freed) + [old(scratch).value]
      ensures old(scratch).None? ==> scratch.None? && scratchReference == old(scratchReference) && freed == old(freed)
    {
      Finalize();
    }
  }

  // ---------------------------------------------------------------------------
  // Properties of the assembled matches

  /** Once a triple fails, the whole assembly fails with that exception. */
  lemma {:induction false} AssembleErrorPersists(rule: EndRule, input: string, byteToIndex: seq<int>,
                                                 expressions: seq<ChimeraExpression>, events: seq<MatchEvent>, i: nat, n: nat)
    requires i <= n <= |events|
    requires AssembleMatches(rule, input, byteToIndex, expressions, events, i).Err?
    ensures AssembleMatches(rule, input, byteToIndex, expressions, events, n) ==
            AssembleMatches(rule, input, byteToIndex, expressions, events, i)
    decreases n
  {
    if i < n {
      AssembleErrorPersists(rule, input, byteToIndex, expressions, events, i, n - 1);
    }
  }

  /** Assembly succeeds exactly when every triple yields a Match, and then yields one Match per triple in order. */
  lemma AssembleOnePerEvent(rule: EndRule, input: string, byteToIndex: seq<int>,
                            expressions: seq<ChimeraExpression>, events: seq<MatchEvent>, n: nat)
    requires n <= |events|
    ensures AssembleMatches(rule, input, byteToIndex, expressions, events, n).Ok? <==>
            forall i | 0 <= i < n :: MatchOf(rule, input, byteToIndex, expressions, events[i]).Ok?
    ensures AssembleMatches(rule, input, byteToIndex, expressions, events, n).Ok? ==>
            var ms := AssembleMatches(rule, input, byteToIndex, expressions, events, n).value;
            |ms| == n && forall i | 0 <= i < n :: ms[i] == MatchOf(rule, input, byteToIndex, expressions, events[i]).value
  {
    AssembleOkExactly(rule, input, byteToIndex, expressions, events, n);
    AssembleInOrder(rule, input, byteToIndex, expressions, events, n);
  }

  /** Assembly succeeds exactly when every triple yields a Match. */
  lemma {:induction false} AssembleOkExactly(rule: EndRule, input: string, byteToIndex: seq<int>,
                                             expressions: seq<ChimeraExpression>, events: seq<MatchEvent>, n: nat)
    requires n <= |events|
    ensures AssembleMatches(rule, input, byteToIndex, expressions, events, n).Ok? <==>
            forall i | 0 <= i < n :: MatchOf(rule, input, byteToIndex, expressions, events[i]).Ok?
  {
    if n > 0 {
      AssembleOkExactly(rule, input, byteToIndex, expressions, events, n - 1);
      AssembleStep(rule, input, byteToIndex, expressions, events, n);
    }
  }

  /** A successful assembly holds one Match per triple, in the order reported. */
  lemma {:induction false} AssembleInOrder(rule: EndRule, input: string, byteToIndex: seq<int>,
                                           expressions: seq<ChimeraExpression>, events: seq<MatchEvent>, n: nat)
    requires n <= |events|
    ensures AssembleMatches(rule, input, byteToIndex, expressions, events, n).Ok? ==>
            var ms := AssembleMatches(rule, input, byteToIndex, expressions, events, n).value;
            |ms| == n && forall i | 0 <= i < n :: MatchOf(rule, input, byteToIndex, expressions, events[i]).Ok? &&
                                                  ms[i] == MatchOf(rule, input, byteToIndex, expressions, events[i]).value
  {
    if n > 0 {
      AssembleInOrder(rule, input, byteToIndex, expressions, events, n - 1);
      AssembleStep(rule, input, byteToIndex, expressions, events, n);
    }
  }

  /** One step of the assembly, with the triple's Match named. */
  lemma AssembleStep(rule: EndRule, input: string, byteToIndex: seq<int>, expressions: seq<ChimeraExpression>,
                     events: seq<MatchEvent>, n: nat)
    requires 0 < n <= |events|
    ensures var prefix := AssembleMatches(rule, input, byteToIndex, expressions, events, n - 1);
            var m := MatchOf(rule, input, byteToIndex, expressions, events[n - 1]);
            AssembleMatches(rule, input, byteToIndex, expressions, events, n) ==
              if prefix.Err? then prefix else if m.Err? then Err(m.error) else Ok(prefix.value + [m.value])
  {
  }

  /**
   * The clamp of `to` keeps both mapping reads in bounds for any triple inside the
   * text's bytes, including an empty match at offset 0.
   */
  lemma ClampKeepsReadsInBounds(rule: EndRule, input: string, expressions: seq<ChimeraExpression>, e: MatchEvent)
    requires Utf8Length(input) < 0x8000_0000
    requires 0 <= e.from < Utf8Length(input) && e.to <= Utf8Length(input)
    ensures MatchOf(rule, input, ByteIndexes(input), expressions, e) != Err(ArrayIndexOutOfBoundsException)
  {
  }

  /**
   * An empty match at the very end of the text reads the mapping one past its last
   * entry: scan throws ArrayIndexOutOfBoundsException.
   */
  lemma EmptyMatchAtEndFails(rule: EndRule, input: string, expressions: seq<ChimeraExpression>, e: MatchEvent)
    requires Utf8Length(input) < 0x8000_0000
    requires e.from == e.to == Utf8Length(input)
    ensures MatchOf(rule, input, ByteIndexes(input), expressions, e) == Err(ArrayIndexOutOfBoundsException)
  {
  }

  /**
   * A triple with `from <= to` that starts inside the text yields a Match that covers
   * whole code points: from the code point holding byte `from` to the end of the one
   * holding byte `max(to, 1) - 1`; with EXTRACT_MATCHED its text is the UTF-16 units
   * in between, which Utf.Utf16Slice shows to encode exactly those code points.
   */
  lemma MatchSpansCodePoints(input: string, expressions: seq<ChimeraExpression>, e: MatchEvent)
    requires Utf8Length(input) < 0x8000_0000
    requires 0 <= e.from <= e.to <= Utf8Length(input) && e.from < Utf8Length(input) && 0 <= e.id < |expressions|
    ensures var r := MatchOf(Intended, input, ByteIndexes(input), expressions, e);
            && r.Ok?
            && r.value.startPosition == Utf16Offset(input, CodePointOfByte(input, e.from))
            && r.value.endPosition == Utf16Offset(input, CodePointOfByte(input, LastByte(e.to)) + 1)
            && r.value.startPosition <= r.value.endPosition
            && (HasExtractMatched(expressions[e.id].flags) ==>
                  r.value.GetMatched() == Some(Utf16(input)[r.value.startPosition..r.value.endPosition]))
  {
    var start := Utf16Offset(input, CodePointOfByte(input, e.from));
    var end := Utf16Offset(input, CodePointOfByte(input, LastByte(e.to)) + 1);
    EventSpan(input, e.from, LastByte(e.to));
    MatchOfInside(Intended, input, ByteIndexes(input), expressions, e, start, end);
  }

  /**
   * Byte `from` maps to the start of its code point and, for the byte `last` at or
   * after `from - 1`, the intended end index is where the code point after the one
   * holding `last` starts; the two are in order and inside the String.
   */
  lemma EventSpan(input: string, from: nat, last: nat)
    requires from < Utf8Length(input) && last < Utf8Length(input) && from <= last + 1
    ensures var first, final := CodePointOfByte(input, from), CodePointOfByte(input, last);
            var start, end := Utf16Offset(input, first), Utf16Offset(input, final + 1);
            && ByteIndexes(input)[from] == start
            && EndIndex(Intended, Utf16(input), ByteIndexes(input)[last]) == end
            && 0 <= start <= end <= |Utf16(input)|
  {
    var first, final := CodePointOfByte(input, from), CodePointOfByte(input, last);
    if from <= last {
      CodePointsOfBytes(input, from, last);
    } else {
      CodePointsOfBytes(input, last, from);
      CodePointOfByteMonotone(input, last, from);
      OffsetsGrow(input, first, final + 1);
      OffsetsGrow(input, final + 1, first + 1);
    }
    EndOfCodePoint(input, final);
  }

  /** The intended end index after the first unit of code point k is the index where code point k + 1 starts. */
  lemma EndOfCodePoint(input: string, k: nat)
    requires k < |input|
    ensures EndIndex(Intended, Utf16(input), Utf16Offset(input, k)) == Utf16Offset(input, k + 1)
  {
    Utf16At(input, k);
  }

  /** MatchOf for a triple whose reads, id and substring range are all in bounds. */
  lemma MatchOfInside(rule: EndRule, input: string, byteToIndex: seq<int>, expressions: seq<ChimeraExpression>,
                      e: MatchEvent, start: int, end: int)
    requires |byteToIndex| < 0x8000_0000
    requires 0 <= e.from < |byteToIndex| && e.to <= |byteToIndex| && LastByte(e.to) < |byteToIndex|
    requires 0 <= e.id < |expressions|
    requires start == byteToIndex[e.from] && end == EndIndex(rule, Utf16(input), byteToIndex[LastByte(e.to)])
    requires 0 <= start <= end <= |Utf16(input)|
    ensures var r := MatchOf(rule, input, byteToIndex, expressions, e);
            && r.Ok?
            && r.value.startPosition == start && r.value.endPosition == end
            && (HasExtractMatched(expressions[e.id].flags) ==> r.value.GetMatched() == Some(Utf16(input)[start..end]))
  {
    assert LongToInt(e.from) == e.from;
    assert LongToInt(if e.to < 1 then 1 else e.to) - 1 == LastByte(e.to);
  }

  /**
   * An empty match at offset 0, which the clamp of `to` turns into a read of byte 0,
   * is reported as covering the whole first code point, with that character as its text.
   */
  lemma EmptyMatchAtStart(input: string, expressions: seq<ChimeraExpression>, e: MatchEvent)
    requires Utf8Length(input) < 0x8000_0000 && input != []
    requires e.from == e.to == 0 && 0 <= e.id < |expressions|
    ensures var r := MatchOf(Intended, input, ByteIndexes(input), expressions, e);
            && r.Ok?
            && r.value.startPosition == 0
            && r.value.endPosition == Utf16Offset(input, 1) == Utf16Width(input[0])
            && (HasExtractMatched(expressions[e.id].flags) ==> r.value.GetMatched() == Some(Utf16(input[..1])))
  {
    OffsetsGrow(input, 1, |input|);
    CodePointAtOffset(input, 0);
    MatchSpansCodePoints(input, expressions, e);
    Utf16Slice(input, 0, 1);
    assert input[0..1] == input[..1];
  }

  /**
   * An empty match at a code-point boundary inside the text is reported as an empty
   * match at the boundary's index, with empty text.
   */
  lemma EmptyMatchAtBoundary(input: string, expressions: seq<ChimeraExpression>, e: MatchEvent, k: nat)
    requires Utf8Length(input) < 0x8000_0000
    requires 0 < k < |input| && e.from == e.to == Utf8Offset(input, k) && 0 <= e.id < |expressions|
    ensures var r := MatchOf(Intended, input, ByteIndexes(input), expressions, e);
            && r.Ok?
            && r.value.startPosition == r.value.endPosition == Utf16Offset(input, k)
            && (HasExtractMatched(expressions[e.id].flags) ==> r.value.GetMatched() == Some([]))
  {
    CodePointAtOffset(input, k);
    CodePointBeforeOffset(input, k - 1);
    MatchSpansCodePoints(input, expressions, e);
    var m := MatchOf(Intended, input, ByteIndexes(input), expressions, e).value;
    if HasExtractMatched(expressions[e.id].flags) {
      assert Utf16(input)[m.startPosition..m.endPosition] == [];
    }
  }

  /** For ASCII text the positions of a non-empty match are its byte offsets. */
  lemma AsciiMatchPositions(input: string, expressions: seq<ChimeraExpression>, e: MatchEvent)
    requires IsAscii(input) && |input| < 0x8000_0000
    requires 0 <= e.from < e.to <= |input| && 0 <= e.id < |expressions|
    ensures var r := MatchOf(Intended, input, ByteIndexes(input), expressions, e);
            r.Ok? && r.value.startPosition == e.from && r.value.endPosition == e.to
  {
    AsciiOffsets(input, |input|);
    AsciiCodePointOfByte(input, e.from);
    AsciiCodePointOfByte(input, e.to - 1);
    AsciiOffsets(input, e.from);
    AsciiOffsets(input, e.to);
    MatchSpansCodePoints(input, expressions, e);
  }

  /** In ASCII text byte j is code point j. */
  lemma AsciiCodePointOfByte(input: string, j: nat)
    requires IsAscii(input) && j < |input|
    ensures Utf8Length(input) == |input|
    ensures CodePointOfByte(input, j) == j
  {
    AsciiOffsets(input, |input|);
    var k := CodePointOfByte(input, j);
    AsciiOffsets(input, k);
    AsciiOffsets(input, k + 1);
  }

  /**
   * The main property of scan: when the engine succeeds and reports triples with
   * `from <= to` starting inside the text, for known ids, there is one Match per
   * triple, in order, each covering exactly the code points its bytes belong to.
   */
  lemma ScanMatchesSpanCodePoints(engine: Engine, database: Option<Handle>, expressions: seq<ChimeraExpression>,
                                  scratch: Option<Handle>, input: string)
    requires Utf8Length(input) < 0x8000_0000
    requires engine.chScan(database, input, Utf8Length(input), scratch).code == 0
    requires var events := engine.chScan(database, input, Utf8Length(input), scratch).events;
             forall i | 0 <= i < |events| ::
               && 0 <= events[i].from <= events[i].to <= Utf8Length(input) && events[i].from < Utf8Length(input)
               && 0 <= events[i].id < |expressions|
    ensures var events := engine.chScan(database, input, Utf8Length(input), scratch).events;
            var r := ScanResult(Intended, engine, database, expressions, scratch, input);
            && r.Ok? && |r.value| == |events|
            && forall i | 0 <= i < |events| ::
                 && r.value[i].startPosition == Utf16Offset(input, CodePointOfByte(input, events[i].from))
                 && r.value[i].endPosition == Utf16Offset(input, CodePointOfByte(input, LastByte(events[i].to)) + 1)
                 && r.value[i].matchedExpression == Chimera(expressions[events[i].id])
  {
    var events := engine.chScan(database, input, Utf8Length(input), scratch).events;
    EventsSpanCodePoints(input, expressions, events);
  }

  /** MatchSpansCodePoints for every triple of a list. */
  lemma EventsSpanCodePoints(input: string, expressions: seq<ChimeraExpression>, events: seq<MatchEvent>)
    requires Utf8Length(input) < 0x8000_0000
    requires forall i | 0 <= i < |events| ::
               && 0 <= events[i].from <= events[i].to <= Utf8Length(input) && events[i].from < Utf8Length(input)
               && 0 <= events[i].id < |expressions|
    ensures forall i | 0 <= i < |events| ::
              var m := MatchOf(Intended, input, ByteIndexes(input), expressions, events[i]);
              && m.Ok?
              && m.value.startPosition == Utf16Offset(input, CodePointOfByte(input, events[i].from))
              && m.value.endPosition == Utf16Offset(input, CodePointOfByte(input, LastByte(events[i].to)) + 1)
  {
    forall i | 0 <= i < |events|
      ensures var m := MatchOf(Intended, input, ByteIndexes(input), expressions, events[i]);
              && m.Ok?
              && m.value.startPosition == Utf16Offset(input, CodePointOfByte(input, events[i].from))
              && m.value.endPosition == Utf16Offset(input, CodePointOfByte(input, LastByte(events[i].to)) + 1)
    {
      MatchSpansCodePoints(input, expressions, events[i]);
    }
  }

  // ---------------------------------------------------------------------------
  // The end index of a supplementary code point

  /**
   * As written, the end index of a match whose last code point is supplementary
   * lands between the two units of its surrogate pair: matching all four bytes of
   * U+1F600 gives end 1, and the extracted text is a lone high surrogate that is
   * the encoding of no text at all. The intended end, 2, covers the whole pair.
   */
  lemma EndIndexAsWrittenSplitsSurrogatePair()
    ensures var s := "\U{1F600}";
            && ByteIndexes(s) == [0, 0, 0, 0]
            && Utf16(s) == [0xD83D, 0xDE00]
            && EndIndex(AsWritten, Utf16(s), ByteIndexes(s)[3]) == 1
            && IsHighSurrogate(Utf16(s)[0..EndIndex(AsWritten, Utf16(s), ByteIndexes(s)[3])][0])
            && (forall t: string :: Utf16(t) != Utf16(s)[0..EndIndex(AsWritten, Utf16(s), ByteIndexes(s)[3])])
            && EndIndex(Intended, Utf16(s), ByteIndexes(s)[3]) == 2
            && Utf16(s)[0..EndIndex(Intended, Utf16(s), ByteIndexes(s)[3])] == Utf16(s)
  {
    var s := "\U{1F600}";
    assert Utf8Offset(s, 1) == 4;
    assert Repeat(0, 4) == [0, 0, 0, 0];
    assert ByteIndexes(s) == [] + Repeat(0, 4);
    assert Utf16(s) == [] + Utf16Units(s[0]);
    forall t: string
      ensures Utf16(t) != [0xD83D]
    {
      if Utf16(t) == [0xD83D] {
        SingleUnitText(t);
      }
    }
  }

  /**
   * The same at the level of scan: when the engine reports the whole of "\U{1F600}"
   * as one match of an expression flagged EXTRACT_MATCHED, scan as written returns
   * Match(0, 1, "\uD83D"), the intended scan Match(0, 2, "\U{1F600}").
   */
  lemma ScanAsWrittenSplitsSurrogatePair(engine: Engine, database: Option<Handle>, scratch: Option<Handle>,
                                         expression: ChimeraExpression)
    requires HasExtractMatched(expression.flags)
    requires engine.chScan(database, "\U{1F600}", 4, scratch) == ScanReply(0, [MatchEvent(0, 0, 4)])
    ensures ScanResult(AsWritten, engine, database, [expression], scratch, "\U{1F600}") ==
            Ok([Match(0, 1, Some([0xD83D]), Chimera(expression))])
    ensures ScanResult(Intended, engine, database, [expression], scratch, "\U{1F600}") ==
            Ok([Match(0, 2, Some([0xD83D, 0xDE00]), Chimera(expression))])
  {
    var s := "\U{1F600}";
    EndIndexAsWrittenSplitsSurrogatePair();
    assert Utf8Offset(s, 1) == 4;
    var e := MatchEvent(0, 0, 4);
    var bytes := ByteIndexes(s);
    assert |bytes| == 4 && bytes[0] == 0 && bytes[3] == 0 && LastByte(e.to) == 3;
    MatchOfInside(AsWritten, s, bytes, [expression], e, 0, 1);
    MatchOfInside(Intended, s, bytes, [expression], e, 0, 2);
    assert Utf16(s)[0..1] == [0xD83D];
    assert Utf16(s)[0..2] == [0xD83D, 0xDE00];
    assert MatchOf(AsWritten, s, bytes, [expression], e) == Ok(Match(0, 1, Some([0xD83D]), Chimera(expression)));
    assert MatchOf(Intended, s, bytes, [expression], e) == Ok(Match(0, 2, Some([0xD83D, 0xDE00]), Chimera(expression)));
    var written := ScanResult(AsWritten, engine, database, [expression], scratch, s);
    var intended := ScanResult(Intended, engine, database, [expression], scratch, s);
    assert written.Ok? && |written.value| == 1 && written.value[0] == Match(0, 1, Some([0xD83D]), Chimera(expression));
    assert intended.Ok? && |intended.value| == 1 && intended.value[0] == Match(0, 2, Some([0xD83D, 0xDE00]), Chimera(expression));
    assert written.value == [Match(0, 1, Some([0xD83D]), Chimera(expression))];
    assert intended.value == [Match(0, 2, Some([0xD83D, 0xDE00]), Chimera(expression))];
  }

  /** Where the last matched code point is in the BMP, the intended end index is the one written. */
  lemma EndIndexAgreesInBmp(input: string, j: nat)
    requires j < Utf8Length(input)
    requires input[CodePointOfByte(input, j)] as int <= 0xFFFF
    ensures EndIndex(Intended, Utf16(input), ByteIndexes(input)[j]) == EndIndex(AsWritten, Utf16(input), ByteIndexes(input)[j])
  {
    ByteIndexOfCodePoint(input, j);
    Utf16At(input, CodePointOfByte(input, j));
  }

  /**
   * For a triple with `from <= to` inside the text, scan as written builds the same
   * Match as the intended scan exactly when the last matched code point is in the BMP.
   */
  lemma AsWrittenAgreesExactlyInBmp(input: string, expressions: seq<ChimeraExpression>, e: MatchEvent)
    requires Utf8Length(input) < 0x8000_0000
    requires 0 <= e.from <= e.to <= Utf8Length(input) && e.from < Utf8Length(input) && 0 <= e.id < |expressions|
    ensures MatchOf(AsWritten, input, ByteIndexes(input), expressions, e) ==
              MatchOf(Intended, input, ByteIndexes(input), expressions, e)
            <==> input[CodePointOfByte(input, LastByte(e.to))] as int <= 0xFFFF
  {
    var last := LastByte(e.to);
    var k := CodePointOfByte(input, last);
    ByteIndexOfCodePoint(input, last);
    Utf16At(input, k);
    MatchSpansCodePoints(input, expressions, e);
    assert LongToInt(e.from) == e.from;
    assert LongToInt(if e.to < 1 then 1 else e.to) - 1 == last;
  }
}
