/**
 * Match: the immutable record of one match found by a scan. Every field is set by a
 * constructor and never changed afterwards, so a value type models it exactly.
 */
module Matches {
  import opened Wrappers
  import opened Domain
  import opened Utf

  /**
   * A match: start and end positions in the scanned Java String, the matched text
   * (None for a null matchedString) and the expression that matched.
   */
  datatype Match = Match(startPosition: int, endPosition: int, matchedString: Option<JString>,
                         matchedExpression: Expression)
  {
    /** getMatched(): the matched text wrapped in an Optional, empty exactly when it is null. */
    function GetMatched(): (o: Option<JString>)
      ensures o.None? <==> matchedString.None?
      ensures o.Some? ==> o.value == matchedString.value
    {
      matchedString
    }
  }

  /** The four-argument constructor: the matched text is kept. */
  function MatchWithText(start: int, end: int, text: JString, expression: Expression): (m: Match)
    ensures m.startPosition == start && m.endPosition == end
    ensures m.GetMatched() == Some(text)
    ensures m.matchedExpression == expression
  {
    Match(start, end, Some(text), expression)
  }

  /** The three-argument constructor: the matched text is left null. */
  function MatchWithoutText(start: int, end: int, expression: Expression): (m: Match)
    ensures m.startPosition == start && m.endPosition == end
    ensures m.GetMatched().None?
    ensures m.matchedExpression == expression
  {
    Match(start, end, None, expression)
  }
}
