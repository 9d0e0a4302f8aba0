/**
  The failure test of `retry_hook` in browser_auto.py: a page address counts
  as a failure exactly when its lower-cased form contains one of five fixed
  indicator substrings.
*/
module FailureUrl {

  /** The indicator substrings, in the order the source lists them. */
  const ErrorIndicators: seq<string> := ["error", "failed", "invalid", "incorrect", "unable"]

  /** ASCII case folding of one character; every other character is kept. */
  function LowerChar(c: char): char
  {
    if 'A' <= c <= 'Z' then (c as int - 'A' as int + 'a' as int) as char else c
  }

  /** ASCII upper-casing of one character. */
  function UpperChar(c: char): char
  {
    if 'a' <= c <= 'z' then (c as int - 'a' as int + 'A' as int) as char else c
  }

  /** `s.lower()`, character by character. */
  function Lower(s: string): (r: string)
    ensures |r| == |s|
    ensures forall i :: 0 <= i < |s| ==> r[i] == LowerChar(s[i])
  {
    if s == [] then [] else [LowerChar(s[0])] + Lower(s[1..])
  }

  /** ASCII upper-casing, character by character, used only to state case-insensitivity. */
  function Upper(s: string): (r: string)
    ensures |r| == |s|
    ensures forall i :: 0 <= i < |s| ==> r[i] == UpperChar(s[i])
  {
    if s == [] then [] else [UpperChar(s[0])] + Upper(s[1..])
  }

  /** `sub` occurs in `s` starting at position i. */
  ghost predicate OccursAt(s: string, sub: string, i: int)
  {
    0 <= i && i + |sub| <= |s| && s[i..i + |sub|] == sub
  }

  /** Python's substring test `sub in s`, stated by positions. */
  ghost predicate Occurs(s: string, sub: string)
  {
    exists i :: OccursAt(s, sub, i)
  }

  /** A left-to-right search for `sub` in `s`. */
  function Contains(s: string, sub: string): (r: bool)
    ensures r <==> Occurs(s, sub)
  {
    if |sub| > |s| then
      assert forall i :: !OccursAt(s, sub, i);
      false
    else if s[..|sub|] == sub then
      assert OccursAt(s, sub, 0);
      true
    else
      var r := Contains(s[1..], sub);
      assert forall i :: 1 <= i && OccursAt(s, sub, i) ==> OccursAt(s[1..], sub, i - 1);
      assert forall i :: OccursAt(s[1..], sub, i) ==> OccursAt(s, sub, i + 1);
      r
  }

  /** `any(sub in s for sub in subs)`. */
  function AnyOccurs(s: string, subs: seq<string>): (r: bool)
    ensures r <==> exists k :: 0 <= k < |subs| && Occurs(s, subs[k])
  {
    if subs == [] then false
    else
      var r := Contains(s, subs[0]) || AnyOccurs(s, subs[1..]);
      assert forall k :: 1 <= k < |subs| ==> subs[k] == subs[1..][k - 1];
      r
  }

  /**
    The failure test: the lower-cased address contains one of the
    indicators.
  */
  function IsFailureUrl(url: string): (r: bool)
    ensures r <==> exists k :: 0 <= k < |ErrorIndicators| && Occurs(Lower(url), ErrorIndicators[k])
  {
    AnyOccurs(Lower(url), ErrorIndicators)
  }

  /** ASCII upper- or lower-casing the address first does not change the verdict. */
  lemma FailureIgnoresCase(url: string)
    ensures IsFailureUrl(Upper(url)) == IsFailureUrl(url)
    ensures IsFailureUrl(Lower(url)) == IsFailureUrl(url)
  {
    LowerFolds(url);
  }

  /** Folding a character already upper- or lower-cased gives the same result. */
  lemma LowerCharFolds(c: char)
    ensures LowerChar(UpperChar(c)) == LowerChar(c)
    ensures LowerChar(LowerChar(c)) == LowerChar(c)
  {
  }

  /** Lower-casing forgets any earlier upper- or lower-casing. */
  lemma LowerFolds(s: string)
    ensures Lower(Upper(s)) == Lower(s)
    ensures Lower(Lower(s)) == Lower(s)
  {
    forall i | 0 <= i < |s|
      ensures Lower(Upper(s))[i] == Lower(s)[i] && Lower(Lower(s))[i] == Lower(s)[i]
    {
      LowerCharFolds(s[i]);
    }
  }

  /** Lower-casing distributes over concatenation. */
  lemma LowerAppend(a: string, b: string)
    ensures Lower(a + b) == Lower(a) + Lower(b)
  {
  }

  /**
    A failure address stays a failure whatever surrounds it: the test looks
    for an indicator anywhere in the address.
  */
  lemma FailureSurvivesExtension(prefix: string, url: string, suffix: string)
    requires IsFailureUrl(url)
    ensures IsFailureUrl(prefix + url + suffix)
  {
    var k :| 0 <= k < |ErrorIndicators| && Occurs(Lower(url), ErrorIndicators[k]);
    var sub := ErrorIndicators[k];
    var i :| OccursAt(Lower(url), sub, i);
    LowerAppend(prefix + url, suffix);
    LowerAppend(prefix, url);
    var whole := Lower(prefix + url + suffix);
    assert whole == Lower(prefix) + Lower(url) + Lower(suffix);
    assert whole[|prefix| + i..|prefix| + i + |sub|] == Lower(url)[i..i + |sub|];
    assert OccursAt(whole, sub, |prefix| + i);
  }

  /** Lower-casing leaves a string of lower-case letters as it is. */
  lemma LowerKeepsLowercase(s: string)
    requires forall i :: 0 <= i < |s| ==> 'a' <= s[i] <= 'z'
    ensures Lower(s) == s
  {
  }

  /** Each indicator, written in any case, is a failure address by itself. */
  lemma IndicatorIsFailure(k: nat)
    requires k < |ErrorIndicators|
    ensures IsFailureUrl(ErrorIndicators[k])
    ensures IsFailureUrl(Upper(ErrorIndicators[k]))
  {
    var sub := ErrorIndicators[k];
    LowerKeepsLowercase(sub);
    assert OccursAt(Lower(sub), sub, 0);
    FailureIgnoresCase(sub);
  }

  /**
    No address shorter than the shortest indicator is a failure address:
    every indicator has at least five characters.
  */
  lemma ShortUrlIsNoFailure(url: string)
    requires |url| < 5
    ensures !IsFailureUrl(url)
  {
    forall k, i | 0 <= k < |ErrorIndicators|
      ensures !OccursAt(Lower(url), ErrorIndicators[k], i)
    {
      assert |ErrorIndicators[k]| >= 5;
    }
  }

  /**
    An address ending in "ERROR" is a failure address: the test ignores
    case, so the capitalised indicator matches.
  */
  lemma CapitalisedErrorPage(prefix: string)
    ensures IsFailureUrl(prefix + "ERROR")
  {
    IndicatorIsFailure(0);
    assert Upper(ErrorIndicators[0]) == "ERROR";
    FailureSurvivesExtension(prefix, "ERROR", "");
    assert prefix + "ERROR" + "" == prefix + "ERROR";
  }
}
