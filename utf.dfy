/**
 * Text as the wrapper sees it. A Dafny `string` is a sequence of Unicode scalar
 * values, i.e. a well-formed Java String read code point by code point. Java's
 * own view of the same text is its UTF-16 code units (section 2 of RFC 2781);
 * the engine's view is its UTF-8 bytes (section 3 of RFC 3629).
 */
module Utf {

  /** A UTF-16 code unit, Java's `char`. */
  type CodeUnit = x: int | 0 <= x < 0x1_0000

  /** A Java String as its UTF-16 code units; unlike `string` it may hold a lone surrogate. */
  type JString = seq<CodeUnit>

  /** Number of UTF-8 bytes of a code point, by the table of section 3 of RFC 3629. */
  function Utf8Width(c: char): (n: nat)
    ensures 1 <= n <= 4
  {
    if c as int <= 0x7F then 1
    else if c as int <= 0x7FF then 2
    else if c as int <= 0xFFFF then 3
    else 4
  }

  /** Number of UTF-16 code units of a code point: Java's `Character.charCount`. */
  function Utf16Width(c: char): (n: nat)
    ensures 1 <= n <= 2
  {
    if c as int <= 0xFFFF then 1 else 2
  }

  /** Bytes taken by the first k code points of s in UTF-8. */
  function Utf8Offset(s: string, k: nat): nat
    requires k <= |s|
  {
    if k == 0 then 0 else Utf8Offset(s, k - 1) + Utf8Width(s[k - 1])
  }

  /** UTF-16 index at which code point k of s starts: `s.offsetByCodePoints(0, k)`. */
  function Utf16Offset(s: string, k: nat): nat
    requires k <= |s|
  {
    if k == 0 then 0 else Utf16Offset(s, k - 1) + Utf16Width(s[k - 1])
  }

  /** Length of the UTF-8 encoding: `s.getBytes(UTF_8).length`. */
  function Utf8Length(s: string): nat
  {
    Utf8Offset(s, |s|)
  }

  /** Length of the UTF-16 encoding: `s.length()`. */
  function Utf16Length(s: string): nat
  {
    Utf16Offset(s, |s|)
  }

  predicate IsHighSurrogate(u: int) {
    0xD800 <= u <= 0xDBFF
  }

  predicate IsLowSurrogate(u: int) {
    0xDC00 <= u <= 0xDFFF
  }

  /** UTF-16 encoding of one code point (section 2.1 of RFC 2781). */
  function Utf16Units(c: char): (u: JString)
    ensures |u| == Utf16Width(c)
    ensures c as int <= 0xFFFF ==> u == [c as int]
    ensures c as int > 0xFFFF ==> IsHighSurrogate(u[0]) && IsLowSurrogate(u[1])
  {
    var v := c as int;
    if v <= 0xFFFF then [v]
    else
      var w := v - 0x1_0000;
      [0xD800 + w / 0x400, 0xDC00 + w % 0x400]
  }

  /** The UTF-16 code units of the first k code points of s. */
  function Utf16Prefix(s: string, k: nat): (u: JString)
    requires k <= |s|
    ensures |u| == Utf16Offset(s, k)
  {
    if k == 0 then [] else Utf16Prefix(s, k - 1) + Utf16Units(s[k - 1])
  }

  /** The Java String holding the text `s`: its UTF-16 code units. */
  function Utf16(s: string): (u: JString)
    ensures |u| == Utf16Length(s)
  {
    Utf16Prefix(s, |s|)
  }

  /** `n` copies of `v`: what Arrays.fill writes into a range of length n. */
  function Repeat(v: int, n: nat): (r: seq<int>)
    ensures |r| == n
    ensures forall i | 0 <= i < n :: r[i] == v
  {
    if n == 0 then [] else Repeat(v, n - 1) + [v]
  }

  /**
   * The byte-to-index mapping of the first k code points: each of a code point's
   * UTF-8 bytes holds the UTF-16 index at which that code point starts.
   */
  function ByteIndexesPrefix(s: string, k: nat): (m: seq<int>)
    requires k <= |s|
    ensures |m| == Utf8Offset(s, k)
  {
    if k == 0 then []
    else ByteIndexesPrefix(s, k - 1) + Repeat(Utf16Offset(s, k - 1), Utf8Width(s[k - 1]))
  }

  /** The byte-to-index mapping of the whole text, one entry per UTF-8 byte. */
  function ByteIndexes(s: string): (m: seq<int>)
    ensures |m| == Utf8Length(s)
  {
    ByteIndexesPrefix(s, |s|)
  }

  // ---------------------------------------------------------------------------
  // Offsets

  /**
   * Every code point between i and j adds one to four bytes and one or two code
   * units, and never more units than bytes.
   */
  lemma {:induction false} OffsetsGrow(s: string, i: nat, j: nat)
    requires i <= j <= |s|
    ensures Utf8Offset(s, i) + (j - i) <= Utf8Offset(s, j) <= Utf8Offset(s, i) + 4 * (j - i)
    ensures Utf16Offset(s, i) + (j - i) <= Utf16Offset(s, j)
    ensures Utf16Offset(s, j) - Utf16Offset(s, i) <= Utf8Offset(s, j) - Utf8Offset(s, i)
    decreases j
  {
    if i < j {
      OffsetsGrow(s, i, j - 1);
    }
  }

  /** The same first k code points give the same offsets and the same UTF-16 units. */
  lemma {:induction false} PrefixesAgree(s: string, t: string, k: nat)
    requires k <= |s| && k <= |t| && s[..k] == t[..k]
    ensures Utf8Offset(s, k) == Utf8Offset(t, k)
    ensures Utf16Offset(s, k) == Utf16Offset(t, k)
    ensures Utf16Prefix(s, k) == Utf16Prefix(t, k)
  {
    if k > 0 {
      assert s[..k - 1] == s[..k][..k - 1] && t[..k - 1] == t[..k][..k - 1];
      assert s[k - 1] == s[..k][k - 1] && t[k - 1] == t[..k][k - 1];
      PrefixesAgree(s, t, k - 1);
    }
  }

  // ---------------------------------------------------------------------------
  // The byte-to-index mapping

  /** The code point among the first n whose UTF-8 bytes contain byte j. */
  function CodePointOfByteIn(s: string, n: nat, j: nat): (k: nat)
    requires n <= |s| && j < Utf8Offset(s, n)
    ensures k < n && Utf8Offset(s, k) <= j < Utf8Offset(s, k + 1)
  {
    if Utf8Offset(s, n - 1) <= j then n - 1 else CodePointOfByteIn(s, n - 1, j)
  }

  /** The code point whose UTF-8 bytes contain byte j. */
  function CodePointOfByte(s: string, j: nat): (k: nat)
    requires j < Utf8Length(s)
    ensures k < |s| && Utf8Offset(s, k) <= j < Utf8Offset(s, k + 1)
  {
    CodePointOfByteIn(s, |s|, j)
  }

  lemma {:induction false} ByteIndexesPrefixAt(s: string, n: nat, k: nat, j: nat)
    requires k < n <= |s|
    requires Utf8Offset(s, k) <= j < Utf8Offset(s, k + 1)
    ensures j < |ByteIndexesPrefix(s, n)| && ByteIndexesPrefix(s, n)[j] == Utf16Offset(s, k)
    decreases n
  {
    if k < n - 1 {
      OffsetsGrow(s, k + 1, n - 1);
      ByteIndexesPrefixAt(s, n - 1, k, j);
    }
  }

  /** Every byte of code point k maps to the UTF-16 index at which code point k starts. */
  lemma ByteIndexesAt(s: string, k: nat, j: nat)
    requires k < |s|
    requires Utf8Offset(s, k) <= j < Utf8Offset(s, k + 1)
    ensures j < |ByteIndexes(s)| && ByteIndexes(s)[j] == Utf16Offset(s, k)
  {
    ByteIndexesPrefixAt(s, |s|, k, j);
  }

  /** The mapping at byte j is the UTF-16 index of the code point containing byte j. */
  lemma ByteIndexOfCodePoint(s: string, j: nat)
    requires j < Utf8Length(s)
    ensures ByteIndexes(s)[j] == Utf16Offset(s, CodePointOfByte(s, j))
  {
    ByteIndexesAt(s, CodePointOfByte(s, j), j);
  }

  /** Later bytes belong to later code points, and the next byte to the same or the next one. */
  lemma CodePointOfByteMonotone(s: string, i: nat, j: nat)
    requires i <= j < Utf8Length(s)
    ensures CodePointOfByte(s, i) <= CodePointOfByte(s, j)
    ensures j == i + 1 ==> CodePointOfByte(s, j) <= CodePointOfByte(s, i) + 1
  {
    var a, b := CodePointOfByte(s, i), CodePointOfByte(s, j);
    if b < a {
      OffsetsGrow(s, b + 1, a);
    }
    if j == i + 1 && b > a + 1 {
      OffsetsGrow(s, a + 1, b);
    }
  }

  /** The mapping never decreases along the bytes. */
  lemma ByteIndexesMonotone(s: string, i: nat, j: nat)
    requires i <= j < Utf8Length(s)
    ensures ByteIndexes(s)[i] <= ByteIndexes(s)[j]
  {
    CodePointOfByteMonotone(s, i, j);
    ByteIndexOfCodePoint(s, i);
    ByteIndexOfCodePoint(s, j);
    OffsetsGrow(s, CodePointOfByte(s, i), CodePointOfByte(s, j));
  }

  /** Every stored index is a valid index into the Java String. */
  lemma ByteIndexesBounded(s: string, j: nat)
    requires j < Utf8Length(s)
    ensures 0 <= ByteIndexes(s)[j] < Utf16Length(s)
  {
    var k := CodePointOfByte(s, j);
    ByteIndexOfCodePoint(s, j);
    OffsetsGrow(s, k + 1, |s|);
  }

  predicate IsAscii(s: string) {
    forall i | 0 <= i < |s| :: s[i] as int <= 0x7F
  }

  lemma {:induction false} AsciiOffsets(s: string, k: nat)
    requires IsAscii(s) && k <= |s|
    ensures Utf8Offset(s, k) == Utf16Offset(s, k) == k
  {
    if k > 0 {
      AsciiOffsets(s, k - 1);
    }
  }

  /** For ASCII text bytes and code units coincide: the mapping is the identity. */
  lemma AsciiIdentity(s: string)
    requires IsAscii(s)
    ensures Utf8Length(s) == Utf16Length(s) == |s|
    ensures forall j | 0 <= j < |s| :: ByteIndexes(s)[j] == j
  {
    AsciiOffsets(s, |s|);
    forall j | 0 <= j < |s|
      ensures ByteIndexes(s)[j] == j
    {
      AsciiOffsets(s, j);
      AsciiOffsets(s, j + 1);
      ByteIndexesAt(s, j, j);
    }
  }

  // ---------------------------------------------------------------------------
  // UTF-16 slices

  /** The units of a longer prefix begin with the units of a shorter one. */
  lemma {:induction false} Utf16PrefixExtends(s: string, i: nat, j: nat)
    requires i <= j <= |s|
    ensures Utf16Offset(s, i) <= |Utf16Prefix(s, j)|
    ensures Utf16Prefix(s, j)[..Utf16Offset(s, i)] == Utf16Prefix(s, i)
    decreases j
  {
    if i < j {
      OffsetsGrow(s, i, j - 1);
      Utf16PrefixExtends(s, i, j - 1);
    }
  }

  /** Dropping the last element of a slice shortens the slice. */
  lemma SliceButLast(s: string, i: nat, j: nat)
    requires i < j <= |s|
    ensures s[i..j][..j - i - 1] == s[i..j - 1] && s[i..j][j - i - 1] == s[j - 1]
  {
  }

  /** Regrouping a concatenation of three parts. */
  lemma Regroup(whole: JString, front: JString, a: JString, b: JString, c: JString, back: JString)
    requires whole == front + c && front == a + b && back == b + c
    ensures whole == a + back
  {
  }

  /** The units of the first j code points are those of the first i followed by those of s[i..j]. */
  lemma {:induction false} Utf16PrefixSplit(s: string, i: nat, j: nat)
    requires i <= j <= |s|
    ensures Utf16Prefix(s, j) == Utf16Prefix(s, i) + Utf16(s[i..j])
    decreases j
  {
    if i == j {
      assert Utf16(s[i..j]) == [];
    } else {
      Utf16PrefixSplit(s, i, j - 1);
      var t := s[i..j];
      SliceButLast(s, i, j);
      Utf16Snoc(t);
      Regroup(Utf16Prefix(s, j), Utf16Prefix(s, j - 1), Utf16Prefix(s, i), Utf16(s[i..j - 1]), Utf16Units(s[j - 1]), Utf16(t));
    }
  }

  /** The units of a text are those of all but its last code point, then those of the last. */
  lemma Utf16Snoc(t: string)
    requires t != []
    ensures Utf16(t) == Utf16(t[..|t| - 1]) + Utf16Units(t[|t| - 1])
  {
    PrefixesAgree(t, t[..|t| - 1], |t| - 1);
  }

  /** The UTF-16 units between the indexes of code points i and j encode exactly s[i..j]. */
  lemma Utf16Slice(s: string, i: nat, j: nat)
    requires i <= j <= |s|
    ensures Utf16Offset(s, i) <= Utf16Offset(s, j) <= |Utf16(s)|
    ensures Utf16(s)[Utf16Offset(s, i)..Utf16Offset(s, j)] == Utf16(s[i..j])
  {
    OffsetsGrow(s, i, j);
    OffsetsGrow(s, j, |s|);
    Utf16PrefixExtends(s, j, |s|);
    Utf16PrefixSplit(s, i, j);
    var p := Utf16Prefix(s, j);
    assert Utf16(s)[..Utf16Offset(s, j)] == p;
    assert p[Utf16Offset(s, i)..] == Utf16(s[i..j]);
  }

  /** The unit at the UTF-16 index of code point k starts that code point's encoding. */
  lemma Utf16At(s: string, k: nat)
    requires k < |s|
    ensures Utf16Offset(s, k) < |Utf16(s)|
    ensures Utf16(s)[Utf16Offset(s, k)] == Utf16Units(s[k])[0]
    ensures IsHighSurrogate(Utf16(s)[Utf16Offset(s, k)]) <==> s[k] as int > 0xFFFF
  {
    OffsetsGrow(s, k + 1, |s|);
    Utf16PrefixExtends(s, k + 1, |s|);
    var p := Utf16Prefix(s, k + 1);
    assert Utf16(s)[..Utf16Offset(s, k + 1)] == p;
    assert p[Utf16Offset(s, k)] == Utf16Units(s[k])[0];
  }

  /**
   * Bytes i..j (inclusive) lie in code points first..last with first <= last; the
   * mapping sends them to the UTF-16 starts of those code points, and the end of
   * last lies within the Java String.
   */
  lemma CodePointsOfBytes(s: string, i: nat, j: nat)
    requires i <= j < Utf8Length(s)
    ensures CodePointOfByte(s, i) <= CodePointOfByte(s, j)
    ensures ByteIndexes(s)[i] == Utf16Offset(s, CodePointOfByte(s, i))
    ensures ByteIndexes(s)[j] == Utf16Offset(s, CodePointOfByte(s, j))
    ensures Utf16Offset(s, CodePointOfByte(s, i)) <= Utf16Offset(s, CodePointOfByte(s, j) + 1) <= |Utf16(s)|
  {
    var first, last := CodePointOfByte(s, i), CodePointOfByte(s, j);
    CodePointOfByteMonotone(s, i, j);
    ByteIndexOfCodePoint(s, i);
    ByteIndexOfCodePoint(s, j);
    OffsetsGrow(s, first, last + 1);
    OffsetsGrow(s, last + 1, |s|);
  }

  /** A byte offset lies in the bytes of exactly one code point. */
  lemma OffsetInOneCodePoint(s: string, c: nat, k: nat, j: nat)
    requires c < |s| && k < |s|
    requires Utf8Offset(s, c) <= j < Utf8Offset(s, c + 1)
    requires Utf8Offset(s, k) <= j < Utf8Offset(s, k + 1)
    ensures c == k
  {
    if c < k {
      OffsetsGrow(s, c + 1, k);
    } else if k < c {
      OffsetsGrow(s, k + 1, c);
    }
  }

  /** Code point k starts at byte Utf8Offset(s, k). */
  lemma CodePointAtOffset(s: string, k: nat)
    requires k < |s|
    ensures Utf8Offset(s, k) < Utf8Length(s) && CodePointOfByte(s, Utf8Offset(s, k)) == k
  {
    OffsetsGrow(s, k, |s|);
    var j := Utf8Offset(s, k);
    OffsetInOneCodePoint(s, CodePointOfByte(s, j), k, j);
  }

  /** The byte before the start of code point k + 1 is the last byte of code point k. */
  lemma CodePointBeforeOffset(s: string, k: nat)
    requires k < |s|
    ensures 0 < Utf8Offset(s, k + 1) <= Utf8Length(s)
    ensures CodePointOfByte(s, Utf8Offset(s, k + 1) - 1) == k
  {
    OffsetsGrow(s, k, k + 1);
    OffsetsGrow(s, k + 1, |s|);
    var j := Utf8Offset(s, k + 1) - 1;
    OffsetInOneCodePoint(s, CodePointOfByte(s, j), k, j);
  }

  /** Only a single non-surrogate code unit is the UTF-16 encoding of a one-unit text. */
  lemma SingleUnitText(t: string)
    requires |Utf16(t)| == 1
    ensures !IsHighSurrogate(Utf16(t)[0])
  {
    OffsetsGrow(t, 0, |t|);
    assert |t| == 1;
    assert Utf16(t) == Utf16Units(t[0]);
  }
}
