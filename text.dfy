/**
 * Character classes and small string operations that the page's JavaScript
 * relies on: the regular-expression class `\s`, `String.prototype.trimEnd`
 * and case-insensitive comparison.
 *
 * `\s` and `trimEnd` use the same set of characters in ECMAScript (WhiteSpace
 * plus LineTerminator); it is written out explicitly below. Case folding is
 * restricted to ASCII letters.
 */
module Text {

  /** ECMAScript WhiteSpace and LineTerminator code points. */
  predicate IsSpace(c: char) {
    || c == ' ' || c == '\t' || c == '\n' || c == '\r'
    || c == '\U{000B}' || c == '\U{000C}'
    || c == '\U{00A0}' || c == '\U{1680}'
    || ('\U{2000}' <= c <= '\U{200A}')
    || c == '\U{2028}' || c == '\U{2029}' || c == '\U{202F}'
    || c == '\U{205F}' || c == '\U{3000}' || c == '\U{FEFF}'
  }

  predicate AllSpace(s: string) {
    forall k :: 0 <= k < |s| ==> IsSpace(s[k])
  }

  predicate NoSpace(s: string) {
    forall k :: 0 <= k < |s| ==> !IsSpace(s[k])
  }

  /** ASCII lower-casing of one character; every other character is kept. */
  function Lower(c: char): (d: char)
    ensures 'A' <= c <= 'Z' ==> d as int == c as int + 32
    ensures !('A' <= c <= 'Z') ==> d == c
  {
    if 'A' <= c <= 'Z' then (c as int + 32) as char else c
  }

  /** Lower-casing leaves whitespace whitespace and everything else not. */
  lemma {:induction false} LowerKeepsSpace(c: char)
    ensures IsSpace(Lower(c)) == IsSpace(c)
  {
  }

  function LowerStr(s: string): (r: string)
    ensures |r| == |s|
  {
    seq(|s|, k requires 0 <= k < |s| => Lower(s[k]))
  }

  /** Equality up to ASCII case, as a regular expression with the `i` flag compares. */
  predicate SameIgnoringCase(a: string, b: string) {
    LowerStr(a) == LowerStr(b)
  }

  /**
   * `trimEnd`: drop the maximal run of trailing whitespace. The contract
   * determines the result uniquely: a prefix, followed in the input only by
   * whitespace, that is empty or does not end in whitespace.
   */
  function TrimEnd(s: string): (r: string)
    ensures |r| <= |s| && r == s[..|r|]
    ensures AllSpace(s[|r|..])
    ensures r == [] || !IsSpace(r[|r| - 1])
  {
    if s == [] || !IsSpace(s[|s| - 1]) then s
    else
      var r := TrimEnd(s[..|s| - 1]);
      assert s[..|s| - 1][..|r|] == s[..|r|];
      assert s[|r|..] == s[..|s| - 1][|r|..] + [s[|s| - 1]];
      r
  }

  /** The contract of TrimEnd determines its result. */
  lemma {:induction false} TrimEndUnique(s: string, r: string)
    requires |r| <= |s| && r == s[..|r|]
    requires AllSpace(s[|r|..])
    requires r == [] || !IsSpace(r[|r| - 1])
    ensures TrimEnd(s) == r
  {
  }

  lemma {:induction false} TrimEndIdempotent(s: string)
    ensures TrimEnd(TrimEnd(s)) == TrimEnd(s)
  {
    var t := TrimEnd(s);
    assert t[..|t|] == t;
    TrimEndUnique(t, t);
  }

  /** Concatenation is associative; proofs about scans call this instead of unfolding sequences. */
  lemma {:induction false} AppendAssoc<T>(a: seq<T>, b: seq<T>, c: seq<T>)
    ensures (a + b) + c == a + (b + c)
  {
  }
}
