/**
 * HyperscanUtils: packing a flag EnumSet into the engine's int, building the
 * byte-to-index mapping of a scanned text, and translating engine result codes.
 */
module HyperscanUtils {
  import opened Wrappers
  import opened Domain
  import opened Utf

  // ---------------------------------------------------------------------------
  // Flag encoding

  /** The bits a member contributes: none when its getBits() is null. */
  function BitsOf(c: EnumConstant): bv32
  {
    if c.bits.Some? then c.bits.value else 0
  }

  /** The bitwise OR of the bits of every member. */
  function OrBits(flags: seq<EnumConstant>): bv32
  {
    if flags == [] then 0 else BitsOf(flags[|flags| - 1]) | OrBits(flags[..|flags| - 1])
  }

  /**
   * bitEnumSetToInt: ORs the bits of every member into an int, and throws
   * InvalidParameterException on a member whose enum is not a HyperscanBitFlag.
   */
  method BitEnumSetToInt(enumSet: seq<EnumConstant>) returns (r: Result<bv32, Error>)
    ensures r.Ok? <==> forall i | 0 <= i < |enumSet| :: enumSet[i].isBitFlag
    ensures r.Ok? ==> r.value == OrBits(enumSet)
    ensures r.Err? ==> r.error == InvalidParameterException
  {
    var bitValue: bv32 := 0;
    for i := 0 to |enumSet|
      invariant bitValue == OrBits(enumSet[..i])
      invariant forall j | 0 <= j < i :: enumSet[j].isBitFlag
    {
      var e := enumSet[i];
      OrBitsStep(enumSet, i);
      if e.isBitFlag {
        bitValue := BitsOf(e) | bitValue;  // null bits contribute 0, which leaves bitValue as it was
      } else {
        return Err(InvalidParameterException);
      }
    }
    assert enumSet[..|enumSet|] == enumSet;
    return Ok(bitValue);
  }

  lemma OrBitsStep(flags: seq<EnumConstant>, i: nat)
    requires i < |flags|
    ensures OrBits(flags[..i + 1]) == BitsOf(flags[i]) | OrBits(flags[..i])
  {
    assert flags[..i + 1][..i] == flags[..i];
  }

  /** Every bit set in x is set in u. */
  predicate BitsWithin(x: bv32, u: bv32) {
    x & u == x
  }

  /** Every member's bits are set in the encoding. */
  lemma {:induction false} OrBitsCoversMembers(flags: seq<EnumConstant>, i: nat)
    requires i < |flags|
    ensures BitsWithin(BitsOf(flags[i]), OrBits(flags))
  {
    var n := |flags| - 1;
    if i < n {
      OrBitsCoversMembers(flags[..n], i);
      WithinOr(BitsOf(flags[i]), OrBits(flags[..n]), BitsOf(flags[n]));
    } else {
      WithinSelfOr(BitsOf(flags[n]), OrBits(flags[..n]));
    }
  }

  lemma WithinSelfOr(x: bv32, y: bv32)
    ensures BitsWithin(x, x | y)
  {
  }

  lemma WithinOr(x: bv32, y: bv32, z: bv32)
    requires BitsWithin(x, y)
    ensures BitsWithin(x, z | y)
  {
  }

  /** No bit is set in the encoding that no member contributed: it is the least such word. */
  lemma {:induction false} OrBitsLeast(flags: seq<EnumConstant>, u: bv32)
    requires forall i | 0 <= i < |flags| :: BitsWithin(BitsOf(flags[i]), u)
    ensures BitsWithin(OrBits(flags), u)
  {
    if flags != [] {
      var n := |flags| - 1;
      var init := flags[..n];
      OrBitsLeast(init, u);
      OrWithinMask(BitsOf(flags[n]), OrBits(init), u);
    }
  }

  lemma OrWithinMask(x: bv32, y: bv32, u: bv32)
    requires BitsWithin(x, u) && BitsWithin(y, u)
    ensures BitsWithin(x | y, u)
  {
  }

  lemma OrRotate(x: bv32, y: bv32, z: bv32)
    ensures x | (y | z) == y | (x | z)
  {
  }

  /** Encoding a concatenation ORs the two encodings, so member order does not matter. */
  lemma {:induction false} OrBitsConcat(a: seq<EnumConstant>, b: seq<EnumConstant>)
    ensures OrBits(a + b) == OrBits(a) | OrBits(b)
    decreases |b|
  {
    if b == [] {
      assert a + b == a;
    } else {
      var b' := b[..|b| - 1];
      assert (a + b)[..|a + b| - 1] == a + b';
      OrBitsConcat(a, b');
      OrRotate(BitsOf(b[|b| - 1]), OrBits(a), OrBits(b'));
    }
  }

  // ---------------------------------------------------------------------------
  // Byte-to-index mapping

  /** Arrays.fill(a, from, to, v). */
  method Fill(a: array<int>, from: int, to: int, v: int)
    requires 0 <= from <= to <= a.Length
    modifies a
    ensures a[..] == old(a[..from]) + Repeat(v, to - from) + old(a[to..])
  {
    var i := from;
    while i < to
      invariant from <= i <= to
      invariant a[..] == old(a[..from]) + Repeat(v, i - from) + old(a[i..])
    {
      a[i] := v;
      i := i + 1;
      assert Repeat(v, i - from) == Repeat(v, i - 1 - from) + [v];
    }
  }

  /**
   * One round of utf8ByteIndexesMapping: filling the Utf8Width(s[k]) slots after the mapped
   * prefix with the code point's UTF-16 index maps one more code point.
   */
  lemma FillExtendsMapping(s: string, k: nat, before: seq<int>, after: seq<int>, bytesLength: int)
    requires k < |s| && Utf8Offset(s, k + 1) <= bytesLength
    requires before == ByteIndexesPrefix(s, k) + Repeat(0, bytesLength - Utf8Offset(s, k))
    requires after == before[..Utf8Offset(s, k)]
                      + Repeat(Utf16Offset(s, k), Utf8Width(s[k]))
                      + before[Utf8Offset(s, k + 1)..]
    ensures after == ByteIndexesPrefix(s, k + 1) + Repeat(0, bytesLength - Utf8Offset(s, k + 1))
  {
    assert before[..Utf8Offset(s, k)] == ByteIndexesPrefix(s, k);
    assert before[Utf8Offset(s, k + 1)..] == Repeat(0, bytesLength - Utf8Offset(s, k + 1));
  }

  /**
   * Arrays.fill(byteIndexes, currentByte, currentByte + unicodeCharLength, stringPosition)
   * for code point k: maps one more code point.
   */
  method FillCodePoint(byteIndexes: array<int>, s: string, k: nat, stringPosition: int)
    requires k < |s| && Utf8Offset(s, k + 1) <= byteIndexes.Length
    requires stringPosition == Utf16Offset(s, k)
    requires byteIndexes[..] == ByteIndexesPrefix(s, k) + Repeat(0, byteIndexes.Length - Utf8Offset(s, k))
    modifies byteIndexes
    ensures byteIndexes[..] == ByteIndexesPrefix(s, k + 1) + Repeat(0, byteIndexes.Length - Utf8Offset(s, k + 1))
  {
    ghost var before := byteIndexes[..];
    Fill(byteIndexes, Utf8Offset(s, k), Utf8Offset(s, k) + Utf8Width(s[k]), stringPosition);
    FillExtendsMapping(s, k, before, byteIndexes[..], byteIndexes.Length);
  }

  /** The loop position is inside the text exactly while code points remain. */
  lemma PositionInside(s: string, k: nat)
    requires k <= |s|
    ensures k < |s| <==> Utf16Offset(s, k) < Utf16Length(s)
    ensures k < |s| ==> Utf8Offset(s, k + 1) <= Utf8Length(s)
  {
    if k < |s| {
      OffsetsGrow(s, k + 1, |s|);
    }
  }

  /**
   * utf8ByteIndexesMapping: an array of bytesLength entries in which every byte of
   * each code point holds that code point's index in the Java String. A negative
   * length or one shorter than the UTF-8 encoding makes Java throw.
   */
  method Utf8ByteIndexesMapping(s: string, bytesLength: int) returns (r: Result<array<int>, Error>)
    ensures r.Ok? <==> 0 <= bytesLength && Utf8Length(s) <= bytesLength
    ensures r.Err? ==> r.error == (if bytesLength < 0 then NegativeArraySizeException else ArrayIndexOutOfBoundsException)
    ensures r.Ok? ==> fresh(r.value) && r.value.Length == bytesLength
    ensures r.Ok? ==> r.value[..] == ByteIndexes(s) + Repeat(0, bytesLength - Utf8Length(s))
  {
    if bytesLength < 0 {
      return Err(NegativeArraySizeException);
    }
    var byteIndexes := new int[bytesLength](_ => 0);
    var currentByte := 0;
    var stringPosition := 0;
    var k := 0;  // index of the code point that starts at stringPosition
    var length := Utf16Length(s);  // s.length()
    while stringPosition < length
      invariant 0 <= k <= |s|
      invariant stringPosition == Utf16Offset(s, k)
      invariant currentByte == Utf8Offset(s, k) <= bytesLength
      invariant byteIndexes[..] == ByteIndexesPrefix(s, k) + Repeat(0, bytesLength - currentByte)
      decreases |s| - k
    {
      PositionInside(s, k);
      // s.codePointAt(stringPosition) is s[k]; its byte count is the 0x7F / 0x7FF / 0xFFFF chain
      var unicodeCharLength := Utf8Width(s[k]);
      if currentByte + unicodeCharLength > bytesLength {
        assert Utf8Length(s) > bytesLength;
        return Err(ArrayIndexOutOfBoundsException);
      }
      FillCodePoint(byteIndexes, s, k, stringPosition);
      currentByte := currentByte + unicodeCharLength;
      if Utf16Width(s[k]) == 2 {  // Character.charCount(c) == 2: skip the low surrogate
        stringPosition := stringPosition + 1;
      }
      stringPosition := stringPosition + 1;
      k := k + 1;
    }
    PositionInside(s, k);
    assert k == |s| && ByteIndexesPrefix(s, k) == ByteIndexes(s);
    return Ok(byteIndexes);
  }

  // ---------------------------------------------------------------------------
  // Error translation

  /** The digit d as a character. */
  function DigitChar(d: int): (c: char)
    requires 0 <= d < 10
    ensures '0' <= c <= '9'
  {
    ('0' as int + d) as char
  }

  /** Decimal text of a non-negative number. */
  function NatToString(n: nat): (s: string)
    ensures |s| >= 1 && (n >= 10 ==> |s| >= 2)
    ensures forall i | 0 <= i < |s| :: '0' <= s[i] <= '9'
  {
    if n < 10 then [DigitChar(n)] else NatToString(n / 10) + [DigitChar(n % 10)]
  }

  /** Java's decimal text of an int, as string concatenation produces it. */
  function IntToString(n: int): string
  {
    if n < 0 then "-" + NatToString(-n) else NatToString(n)
  }

  /** Different numbers have different decimal texts. */
  lemma {:induction false} NatToStringInjective(a: nat, b: nat)
    requires NatToString(a) == NatToString(b)
    ensures a == b
  {
    var s := NatToString(a);
    if a >= 10 && b >= 10 {
      assert s[..|s| - 1] == NatToString(a / 10) == NatToString(b / 10);
      NatToStringInjective(a / 10, b / 10);
      assert s[|s| - 1] == DigitChar(a % 10) == DigitChar(b % 10);
    }
  }

  lemma IntToStringInjective(a: int, b: int)
    requires IntToString(a) == IntToString(b)
    ensures a == b
  {
    var s := IntToString(a);
    assert s[0] == '-' <==> a < 0;
    assert IntToString(b)[0] == '-' <==> b < 0;
    if a < 0 {
      assert s[1..] == NatToString(-a) == NatToString(-b);
      NatToStringInjective(-a, -b);
    } else {
      NatToStringInjective(a, b);
    }
  }

  const UNEXPECTED_PREFIX: string := "Unexpected error: "

  /** The code is one of the twelve the engine documents. */
  predicate IsKnownCode(hsError: int) {
    -12 <= hsError <= -1
  }

  predicate HasUnexpectedPrefix(msg: string) {
    |UNEXPECTED_PREFIX| <= |msg| && msg[..|UNEXPECTED_PREFIX|] == UNEXPECTED_PREFIX
  }

  // The fixed messages of the engine codes -1 (HS_INVALID) through -12 (HS_INSUFFICIENT_SPACE).
  const INVALID_MESSAGE: string := "An invalid parameter has been passed. Is scratch allocated?"
  const NOMEM_MESSAGE: string := "Hyperscan was unable to allocate memory"
  const SCAN_TERMINATED_MESSAGE: string := "The engine was terminated by callback."
  const COMPILER_ERROR_MESSAGE: string := "The pattern compiler failed."
  const DB_VERSION_ERROR_MESSAGE: string := "The given database was built for a different version of Hyperscan."
  const DB_PLATFORM_ERROR_MESSAGE: string := "The given database was built for a different platform."
  const DB_MODE_ERROR_MESSAGE: string := "The given database was built for a different mode of operation."
  const BAD_ALIGN_MESSAGE: string := "A parameter passed to this function was not correctly aligned."
  const BAD_ALLOC_MESSAGE: string := "The allocator did not return memory suitably aligned for the largest representable data type on this platform."
  const SCRATCH_IN_USE_MESSAGE: string := "The scratch region was already in use."
  const ARCH_ERROR_MESSAGE: string := "Unsupported CPU architecture. At least SSE3 is needed"
  const INSUFFICIENT_SPACE_MESSAGE: string := "Provided buffer was too small."

  /**
   * The message hsErrorIntToException gives each engine code: a fixed text for
   * -1 through -12, "Unexpected error: <code>" for every other code (0 included).
   */
  function HsErrorMessage(hsError: int): (m: string)
    ensures !IsKnownCode(hsError) ==> HasUnexpectedPrefix(m) && m[|UNEXPECTED_PREFIX|..] == IntToString(hsError)
  {
    match hsError
    case -1 => INVALID_MESSAGE
    case -2 => NOMEM_MESSAGE
    case -3 => SCAN_TERMINATED_MESSAGE
    case -4 => COMPILER_ERROR_MESSAGE
    case -5 => DB_VERSION_ERROR_MESSAGE
    case -6 => DB_PLATFORM_ERROR_MESSAGE
    case -7 => DB_MODE_ERROR_MESSAGE
    case -8 => BAD_ALIGN_MESSAGE
    case -9 => BAD_ALLOC_MESSAGE
    case -10 => SCRATCH_IN_USE_MESSAGE
    case -11 => ARCH_ERROR_MESSAGE
    case -12 => INSUFFICIENT_SPACE_MESSAGE
    case _ =>
      var m := UNEXPECTED_PREFIX + IntToString(hsError);
      assert m[..|UNEXPECTED_PREFIX|] == UNEXPECTED_PREFIX && m[|UNEXPECTED_PREFIX|..] == IntToString(hsError);
      m
  }

  /** hsErrorIntToException: the HyperscanException describing an engine code. */
  function HsErrorIntToException(hsError: int): (e: Error)
    ensures e.HyperscanException? && e.Message() == HsErrorMessage(hsError)
    ensures e.causeCode.None?
  {
    HyperscanException(HsErrorMessage(hsError), None)
  }

  /** getCause() of a HyperscanException: the translation of the engine code it records, if any. */
  function Cause(e: Error): (c: Option<Error>)
    requires e.HyperscanException?
    ensures c.Some? <==> e.causeCode.Some?
    ensures c.Some? ==> c.value.IsHyperscanException() && c.value.Message() == HsErrorMessage(e.causeCode.value)
  {
    if e.causeCode.None? then None else Some(HsErrorIntToException(e.causeCode.value))
  }

  /** The message ends in a decimal digit. */
  predicate EndsInDigit(msg: string) {
    |msg| > 0 && '0' <= msg[|msg| - 1] <= '9'
  }

  /** The fallback text starts with "Unexpected error: ", then the code's decimal digits. */
  lemma FallbackShape(hsError: int)
    ensures HasUnexpectedPrefix(UNEXPECTED_PREFIX + IntToString(hsError))
    ensures EndsInDigit(UNEXPECTED_PREFIX + IntToString(hsError))
  {
    var d := IntToString(hsError);
    var m := UNEXPECTED_PREFIX + d;
    assert m[..|UNEXPECTED_PREFIX|] == UNEXPECTED_PREFIX;
    assert m[|m| - 1] == d[|d| - 1];
  }

  /**
   * Exactly the undocumented codes get the fallback, which starts with "Unexpected error: " and
   * ends in the code's decimal digits; no fixed message ends in a digit.
   */
  lemma UnexpectedExactlyForUnknownCodes(hsError: int)
    ensures IsKnownCode(hsError) <==> !EndsInDigit(HsErrorMessage(hsError))
    ensures !IsKnownCode(hsError) ==> HasUnexpectedPrefix(HsErrorMessage(hsError))
    ensures !IsKnownCode(hsError) ==> HsErrorMessage(hsError)[|UNEXPECTED_PREFIX|..] == IntToString(hsError)
  {
    if IsKnownCode(hsError) {
      FixedMessagesEndInPunctuation(hsError);
    } else {
      FallbackMessage(hsError);
      FallbackShape(hsError);
    }
  }

  /** Each documented code's text ends in a letter or a full stop, never a digit. */
  lemma FixedMessagesEndInPunctuation(hsError: int)
    requires IsKnownCode(hsError)
    ensures !EndsInDigit(HsErrorMessage(hsError))
  {
    match hsError
    case -1 => assert INVALID_MESSAGE[|INVALID_MESSAGE| - 1] == '?';
    case -2 => assert NOMEM_MESSAGE[|NOMEM_MESSAGE| - 1] == 'y';
    case -3 => assert SCAN_TERMINATED_MESSAGE[|SCAN_TERMINATED_MESSAGE| - 1] == '.';
    case -4 => assert COMPILER_ERROR_MESSAGE[|COMPILER_ERROR_MESSAGE| - 1] == '.';
    case -5 => assert DB_VERSION_ERROR_MESSAGE[|DB_VERSION_ERROR_MESSAGE| - 1] == '.';
    case -6 => assert DB_PLATFORM_ERROR_MESSAGE[|DB_PLATFORM_ERROR_MESSAGE| - 1] == '.';
    case -7 => assert DB_MODE_ERROR_MESSAGE[|DB_MODE_ERROR_MESSAGE| - 1] == '.';
    case -8 => assert BAD_ALIGN_MESSAGE[|BAD_ALIGN_MESSAGE| - 1] == '.';
    case -9 => assert BAD_ALLOC_MESSAGE[|BAD_ALLOC_MESSAGE| - 1] == '.';
    case -10 => assert SCRATCH_IN_USE_MESSAGE[|SCRATCH_IN_USE_MESSAGE| - 1] == '.';
    case -11 => assert ARCH_ERROR_MESSAGE[|ARCH_ERROR_MESSAGE| - 1] == 'd';
    case -12 => assert INSUFFICIENT_SPACE_MESSAGE[|INSUFFICIENT_SPACE_MESSAGE| - 1] == '.';
  }

  /** Every other code is described by the fallback text. */
  lemma FallbackMessage(hsError: int)
    requires !IsKnownCode(hsError)
    ensures HsErrorMessage(hsError) == UNEXPECTED_PREFIX + IntToString(hsError)
  {
  }

  /** Different codes are described by different messages, so the message identifies the code. */
  lemma HsErrorMessageInjective(a: int, b: int)
    requires HsErrorMessage(a) == HsErrorMessage(b)
    ensures a == b
  {
    UnexpectedExactlyForUnknownCodes(a);
    UnexpectedExactlyForUnknownCodes(b);
    if IsKnownCode(a) && IsKnownCode(b) {
      FixedMessageCodeInverts(a);
      FixedMessageCodeInverts(b);
    } else if !IsKnownCode(a) && !IsKnownCode(b) {
      IntToStringInjective(a, b);
    }
  }

  /**
   * The documented code a fixed message describes, read off the message's length and,
   * for the two messages of 38 characters, its fifth character.
   */
  function FixedMessageCode(msg: string): int
  {
    match |msg|
    case 59 => -1
    case 39 => -2
    case 38 => if msg[4] == 'e' then -3 else -10
    case 28 => -4
    case 66 => -5
    case 54 => -6
    case 63 => -7
    case 62 => -8
    case 110 => -9
    case 53 => -11
    case 30 => -12
    case _ => 0
  }

  /** Reading the code back off a documented code's message gives the code. */
  lemma FixedMessageCodeInverts(hsError: int)
    requires IsKnownCode(hsError)
    ensures FixedMessageCode(HsErrorMessage(hsError)) == hsError
  {
  }
}
