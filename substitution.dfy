/**
 * The dictation substitution engine of the editing page (`subEntries` and
 * `applySubstitutions` in the page script).
 *
 * For every configured phrase, longest first, the page builds the regular
 * expression `(^|\s)PHRASE(?=\s|$)` with flags `gi` and, when it matches,
 * replaces every match by the captured prefix (empty or the one whitespace
 * character) followed by the replacement. The functions below spell out
 * what a global `String.prototype.replace` does with that expression: one
 * left-to-right scan per phrase that resumes after each match and never
 * looks at the replacement text it has just produced.
 */
module Substitution {
  import opened Text

  /** One `[phrase, replacement]` pair of `Object.entries(CONFIG.substitutions)`. */
  datatype Entry = Entry(phrase: string, replacement: string)

  // ---------------------------------------------------------------------
  // Ordering of the phrase table
  // ---------------------------------------------------------------------

  predicate Descending(es: seq<Entry>) {
    forall i, j :: 0 <= i < j < |es| ==> |es[i].phrase| >= |es[j].phrase|
  }

  /** The entries whose phrase has exactly `n` characters, in their order. */
  function WithLength(es: seq<Entry>, n: nat): seq<Entry> {
    if es == [] then []
    else (if |es[0].phrase| == n then [es[0]] else []) + WithLength(es[1..], n)
  }

  /** Put `e` in front of the first entry whose phrase is not longer than its own. */
  function InsertByLength(e: Entry, es: seq<Entry>): (r: seq<Entry>)
    ensures |r| == |es| + 1
    ensures r[0] == e || (es != [] && r[0] == es[0])
  {
    if es == [] || |es[0].phrase| <= |e.phrase| then [e] + es
    else [es[0]] + InsertByLength(e, es[1..])
  }

  /** An entry no shorter than the head of a descending table can go in front. */
  lemma {:induction false} DescendingCons(x: Entry, r: seq<Entry>)
    requires Descending(r)
    requires r == [] || |r[0].phrase| <= |x.phrase|
    ensures Descending([x] + r)
  {
    var s := [x] + r;
    forall i, j | 0 <= i < j < |s|
      ensures |s[i].phrase| >= |s[j].phrase|
    {
      assert s[j] == r[j - 1];
      if i == 0 {
        assert |r[j - 1].phrase| <= |r[0].phrase|;
      } else {
        assert s[i] == r[i - 1];
      }
    }
  }

  lemma {:induction false} DescendingTail(es: seq<Entry>)
    requires es != [] && Descending(es)
    ensures Descending(es[1..])
  {
    forall i, j | 0 <= i < j < |es| - 1
      ensures |es[1..][i].phrase| >= |es[1..][j].phrase|
    {
      assert es[1..][i] == es[i + 1] && es[1..][j] == es[j + 1];
    }
  }

  /** Inserting into a descending table keeps it descending. */
  lemma {:induction false} InsertKeepsDescending(e: Entry, es: seq<Entry>)
    requires Descending(es)
    ensures Descending(InsertByLength(e, es))
  {
    if es == [] || |es[0].phrase| <= |e.phrase| {
      DescendingCons(e, es);
    } else {
      DescendingTail(es);
      InsertKeepsDescending(e, es[1..]);
      var rest := InsertByLength(e, es[1..]);
      assert |rest[0].phrase| <= |es[0].phrase| by {
        if es[1..] != [] {
          assert es[1..][0] == es[1];
        }
      }
      DescendingCons(es[0], rest);
    }
  }

  /** Inserting adds exactly the one entry. */
  lemma {:induction false} InsertIsPermutation(e: Entry, es: seq<Entry>)
    ensures multiset(InsertByLength(e, es)) == multiset(es) + multiset{e}
  {
    if es != [] && |es[0].phrase| > |e.phrase| {
      InsertIsPermutation(e, es[1..]);
      assert es == [es[0]] + es[1..];
      assert multiset([es[0]] + InsertByLength(e, es[1..]))
          == multiset{es[0]} + multiset(InsertByLength(e, es[1..]));
    }
  }

  /**
   * `subEntries`: the table sorted by descending phrase length with a
   * stable sort, so that entries of equal length keep the table's order.
   */
  function SortByLength(es: seq<Entry>): (r: seq<Entry>)
    ensures Descending(r)
    ensures multiset(r) == multiset(es)
  {
    if es == [] then []
    else
      var rest := SortByLength(es[1..]);
      InsertKeepsDescending(es[0], rest);
      InsertIsPermutation(es[0], rest);
      assert es == [es[0]] + es[1..];
      InsertByLength(es[0], rest)
  }

  lemma {:induction false} InsertKeepsOrderWithinLength(e: Entry, es: seq<Entry>, n: nat)
    ensures WithLength(InsertByLength(e, es), n)
         == (if |e.phrase| == n then [e] else []) + WithLength(es, n)
  {
    if es == [] || |es[0].phrase| <= |e.phrase| {
      WithLengthCons(e, es, n);
    } else {
      var w := WithLength(es[1..], n);
      InsertKeepsOrderWithinLength(e, es[1..], n);
      assert InsertByLength(e, es) == [es[0]] + InsertByLength(e, es[1..]);
      WithLengthCons(es[0], InsertByLength(e, es[1..]), n);
      assert [es[0]] + es[1..] == es;
      WithLengthCons(es[0], es[1..], n);
      // es[0] is longer than e, so at most one of them has length n.
      if |e.phrase| == n {
        assert WithLength(InsertByLength(e, es[1..]), n) == [e] + w;
        assert WithLength(es, n) == w;
      } else {
        assert WithLength(InsertByLength(e, es[1..]), n) == w;
      }
    }
  }

  lemma {:induction false} WithLengthCons(x: Entry, rest: seq<Entry>, n: nat)
    ensures WithLength([x] + rest, n) == (if |x.phrase| == n then [x] else []) + WithLength(rest, n)
  {
    assert ([x] + rest)[1..] == rest;
  }

  /** The sort is stable: among phrases of one length the table order is kept. */
  lemma {:induction false} SortKeepsOrderWithinLength(es: seq<Entry>, n: nat)
    ensures WithLength(SortByLength(es), n) == WithLength(es, n)
  {
    if es != [] {
      SortKeepsOrderWithinLength(es[1..], n);
      InsertKeepsOrderWithinLength(es[0], SortByLength(es[1..]), n);
    }
  }

  // ---------------------------------------------------------------------
  // Matching one phrase: (^|\s)PHRASE(?=\s|$), case-insensitive
  // ---------------------------------------------------------------------

  /** The lookahead `(?=\s|$)` at position `k`. */
  predicate BoundaryAt(t: string, k: nat) {
    k == |t| || (k < |t| && IsSpace(t[k]))
  }

  /** The phrase occurs at `k`, ignoring case, and is followed by a boundary. */
  predicate PhraseAt(t: string, p: string, k: nat) {
    k + |p| <= |t| && SameIgnoringCase(t[k..k + |p|], p) && BoundaryAt(t, k + |p|)
  }

  /** The `^` alternative: an occurrence at the very start of the text. */
  predicate MatchAtStart(t: string, p: string) {
    PhraseAt(t, p, 0)
  }

  /** The `\s` alternative at `i`: one whitespace character, then the phrase. */
  predicate MatchAfterSpace(t: string, p: string, i: nat) {
    i < |t| && IsSpace(t[i]) && PhraseAt(t, p, i + 1)
  }

  /** `re.test(text)`: the expression matches somewhere in the text. */
  predicate Matches(t: string, p: string) {
    MatchAtStart(t, p) || exists i :: 0 <= i < |t| && MatchAfterSpace(t, p, i)
  }

  /**
   * The global replace scan from `i` on, where only the `\s` alternative can
   * match. A match keeps its whitespace character, emits the replacement and
   * resumes after the phrase.
   */
  function ReplaceFrom(t: string, p: string, r: string, i: nat): string
    requires i <= |t|
    decreases |t| - i
  {
    if i == |t| then []
    else if MatchAfterSpace(t, p, i) then [t[i]] + r + ReplaceFrom(t, p, r, i + 1 + |p|)
    else [t[i]] + ReplaceFrom(t, p, r, i + 1)
  }

  /**
   * `text.replace(re, (m, before) => before + replacement)`. The `^`
   * alternative is tried first at position 0; when it matches the empty
   * string (an empty phrase) the scan resumes one character further on.
   */
  function ReplaceAll(t: string, p: string, r: string): string {
    if !MatchAtStart(t, p) then ReplaceFrom(t, p, r, 0)
    else if |p| > 0 then r + ReplaceFrom(t, p, r, |p|)
    else if t == [] then r
    else r + [t[0]] + ReplaceFrom(t, p, r, 1)
  }

  /** The scan at a match keeps the whitespace, emits the replacement and resumes after the phrase. */
  lemma {:induction false} ScanMatch(t: string, p: string, r: string, i: nat)
    requires i <= |t| && MatchAfterSpace(t, p, i)
    ensures ReplaceFrom(t, p, r, i) == [t[i]] + r + ReplaceFrom(t, p, r, i + 1 + |p|)
  {
  }

  /** The scan copies a character that starts no match. */
  lemma {:induction false} ScanCopy(t: string, p: string, r: string, i: nat)
    requires i < |t| && !MatchAfterSpace(t, p, i)
    ensures ReplaceFrom(t, p, r, i) == [t[i]] + ReplaceFrom(t, p, r, i + 1)
  {
  }

  /**
   * The leftmost-match rule of the global replace: from scan position `i`,
   * every character up to the whitespace of the first match at `k` (that
   * whitespace included) is kept verbatim and in order, then comes the
   * replacement, and the scan resumes after the phrase.
   */
  lemma {:induction false} ScanUpToMatch(t: string, p: string, r: string, i: nat, k: nat)
    requires i <= k && MatchAfterSpace(t, p, k)
    requires forall j :: i <= j < k ==> !MatchAfterSpace(t, p, j)
    ensures k + 1 + |p| <= |t|
    ensures ReplaceFrom(t, p, r, i) == t[i..k + 1] + r + ReplaceFrom(t, p, r, k + 1 + |p|)
    decreases k - i
  {
    var rest := ReplaceFrom(t, p, r, k + 1 + |p|);
    if i < k {
      ScanUpToMatch(t, p, r, i + 1, k);
      assert !MatchAfterSpace(t, p, i);
      ScanCopy(t, p, r, i);
      var mid := t[i + 1..k + 1];
      assert t[i..k + 1] == [t[i]] + mid;
      AppendAssoc([t[i]], mid + r, rest);
      AppendAssoc([t[i]], mid, r);
    } else {
      ScanMatch(t, p, r, k);
      assert t[k..k + 1] == [t[k]];
    }
  }

  /** Past the last match the scan keeps the rest of the text verbatim. */
  lemma {:induction false} ScanWithoutMatch(t: string, p: string, r: string, i: nat)
    requires i <= |t|
    requires forall j :: i <= j < |t| ==> !MatchAfterSpace(t, p, j)
    ensures ReplaceFrom(t, p, r, i) == t[i..]
    decreases |t| - i
  {
    if i < |t| {
      ScanWithoutMatch(t, p, r, i + 1);
      assert t[i..] == [t[i]] + t[i + 1..];
    }
  }

  /** How many matches the scan from `i` replaces. */
  function CountFrom(t: string, p: string, i: nat): nat
    requires i <= |t|
    decreases |t| - i
  {
    if i == |t| then 0
    else if MatchAfterSpace(t, p, i) then 1 + CountFrom(t, p, i + 1 + |p|)
    else CountFrom(t, p, i + 1)
  }

  /** How many matches ReplaceAll replaces. */
  function Count(t: string, p: string): nat {
    if !MatchAtStart(t, p) then CountFrom(t, p, 0)
    else if |p| > 0 then 1 + CountFrom(t, p, |p|)
    else if t == [] then 1
    else 1 + CountFrom(t, p, 1)
  }

  // Two nonlinear-arithmetic steps the solver does not take on its own,
  // used by ReplaceAllLength and MatchWithNewLengthChangesText below.

  lemma {:induction false} MulSucc(c: int, d: int)
    ensures (c + 1) * d == c * d + d
  {
  }

  lemma {:induction false} MulNonZero(c: int, d: int)
    requires c > 0 && d != 0
    ensures c * d != 0
  {
  }

  lemma {:induction false} ReplaceFromLength(t: string, p: string, r: string, i: nat)
    requires i <= |t|
    ensures |ReplaceFrom(t, p, r, i)| == |t| - i + CountFrom(t, p, i) * (|r| - |p|)
    decreases |t| - i
  {
    if i < |t| {
      if MatchAfterSpace(t, p, i) {
        ReplaceFromLength(t, p, r, i + 1 + |p|);
        MulSucc(CountFrom(t, p, i + 1 + |p|), |r| - |p|);
      } else {
        ReplaceFromLength(t, p, r, i + 1);
      }
    }
  }

  /** Every replaced match changes the length by |replacement| - |phrase|. */
  lemma {:induction false} ReplaceAllLength(t: string, p: string, r: string)
    ensures |ReplaceAll(t, p, r)| == |t| + Count(t, p) * (|r| - |p|)
  {
    if !MatchAtStart(t, p) {
      ReplaceFromLength(t, p, r, 0);
    } else if |p| > 0 {
      ReplaceFromLength(t, p, r, |p|);
      MulSucc(CountFrom(t, p, |p|), |r| - |p|);
    } else if t != [] {
      ReplaceFromLength(t, p, r, 1);
      MulSucc(CountFrom(t, p, 1), |r|);
    }
  }

  lemma {:induction false} CountFromPositive(t: string, p: string, i: nat)
    requires i <= |t|
    ensures CountFrom(t, p, i) > 0 <==> exists j :: i <= j < |t| && MatchAfterSpace(t, p, j)
    decreases |t| - i
  {
    if i < |t| {
      if MatchAfterSpace(t, p, i) {
      } else {
        CountFromPositive(t, p, i + 1);
        if exists j :: i <= j < |t| && MatchAfterSpace(t, p, j) {
          var j :| i <= j < |t| && MatchAfterSpace(t, p, j);
          assert j != i;
        }
      }
    }
  }

  lemma {:induction false} CountFromZeroKeepsText(t: string, p: string, r: string, i: nat)
    requires i <= |t|
    requires CountFrom(t, p, i) == 0
    ensures ReplaceFrom(t, p, r, i) == t[i..]
    decreases |t| - i
  {
    if i < |t| {
      CountFromZeroKeepsText(t, p, r, i + 1);
      assert t[i..] == [t[i]] + t[i + 1..];
    }
  }

  /** The scan replaces something exactly when `re.test` succeeds. */
  lemma {:induction false} CountPositiveIffMatches(t: string, p: string)
    ensures Count(t, p) > 0 <==> Matches(t, p)
  {
    if !MatchAtStart(t, p) {
      CountFromPositive(t, p, 0);
    }
  }

  /** When `re.test` fails the replace leaves the text as it is. */
  lemma {:induction false} NoMatchKeepsText(t: string, p: string, r: string)
    requires !Matches(t, p)
    ensures ReplaceAll(t, p, r) == t
  {
    CountPositiveIffMatches(t, p);
    CountFromZeroKeepsText(t, p, r, 0);
  }

  /** A match whose replacement has another length always changes the text. */
  lemma {:induction false} MatchWithNewLengthChangesText(t: string, p: string, r: string)
    requires Matches(t, p) && |r| != |p|
    ensures |ReplaceAll(t, p, r)| != |t|
  {
    CountPositiveIffMatches(t, p);
    ReplaceAllLength(t, p, r);
    MulNonZero(Count(t, p), |r| - |p|);
  }

  lemma {:induction false} SameIgnoringCaseSwap(a: string, p: string, q: string)
    requires LowerStr(p) == LowerStr(q)
    ensures |p| == |q|
    ensures SameIgnoringCase(a, p) == SameIgnoringCase(a, q)
  {
  }

  lemma {:induction false} MatchAfterSpaceCase(t: string, p: string, q: string, i: nat)
    requires LowerStr(p) == LowerStr(q)
    ensures |p| == |q|
    ensures MatchAfterSpace(t, p, i) == MatchAfterSpace(t, q, i)
  {
    SameIgnoringCaseSwap([], p, q);
    if i + 1 + |p| <= |t| {
      SameIgnoringCaseSwap(t[i + 1..i + 1 + |p|], p, q);
    }
  }

  lemma {:induction false} ReplaceFromPhraseCase(t: string, p: string, q: string, r: string, i: nat)
    requires i <= |t|
    requires LowerStr(p) == LowerStr(q)
    ensures ReplaceFrom(t, p, r, i) == ReplaceFrom(t, q, r, i)
    decreases |t| - i
  {
    if i < |t| {
      MatchAfterSpaceCase(t, p, q, i);
      if MatchAfterSpace(t, p, i) {
        ScanMatch(t, p, r, i);
        ScanMatch(t, q, r, i);
        ReplaceFromPhraseCase(t, p, q, r, i + 1 + |p|);
      } else {
        ScanCopy(t, p, r, i);
        ScanCopy(t, q, r, i);
        ReplaceFromPhraseCase(t, p, q, r, i + 1);
      }
    }
  }

  /** The letter case of a configured phrase does not matter. */
  lemma {:induction false} PhraseCaseIrrelevant(t: string, p: string, q: string, r: string)
    requires LowerStr(p) == LowerStr(q)
    ensures ReplaceAll(t, p, r) == ReplaceAll(t, q, r)
  {
    assert |p| == |q|;
    if |p| <= |t| {
      SameIgnoringCaseSwap(t[..|p|], p, q);
    }
    assert MatchAtStart(t, p) == MatchAtStart(t, q);
    ReplaceFromPhraseCase(t, p, q, r, 0);
    if |p| <= |t| {
      ReplaceFromPhraseCase(t, p, q, r, |p|);
    }
    if t != [] {
      ReplaceFromPhraseCase(t, p, q, r, 1);
    }
  }

  lemma {:induction false} LowerStrSlice(s: string, a: nat, b: nat)
    requires a <= b <= |s|
    ensures LowerStr(s[a..b]) == LowerStr(s)[a..b]
  {
  }

  lemma {:induction false} SpaceIgnoringCase(t: string, u: string, k: nat)
    requires LowerStr(t) == LowerStr(u) && k < |t|
    ensures k < |u| && IsSpace(t[k]) == IsSpace(u[k])
  {
    assert Lower(t[k]) == LowerStr(t)[k] == LowerStr(u)[k] == Lower(u[k]);
    LowerKeepsSpace(t[k]);
    LowerKeepsSpace(u[k]);
  }

  lemma {:induction false} PhraseAtIgnoringCase(t: string, u: string, p: string, k: nat)
    requires LowerStr(t) == LowerStr(u)
    ensures PhraseAt(t, p, k) == PhraseAt(u, p, k)
  {
    if k + |p| <= |t| {
      LowerStrSlice(t, k, k + |p|);
      LowerStrSlice(u, k, k + |p|);
      if k + |p| < |t| {
        SpaceIgnoringCase(t, u, k + |p|);
      }
    }
  }

  lemma {:induction false} MatchAfterSpaceIgnoringCase(t: string, u: string, p: string, i: nat)
    requires LowerStr(t) == LowerStr(u)
    ensures MatchAfterSpace(t, p, i) == MatchAfterSpace(u, p, i)
  {
    if i < |t| {
      SpaceIgnoringCase(t, u, i);
      PhraseAtIgnoringCase(t, u, p, i + 1);
    }
  }

  /** Whether the phrase matches does not depend on the letter case of the text. */
  lemma {:induction false} TextCaseIrrelevant(t: string, u: string, p: string)
    requires LowerStr(t) == LowerStr(u)
    ensures Matches(t, p) <==> Matches(u, p)
  {
    PhraseAtIgnoringCase(t, u, p, 0);
    forall i | 0 <= i < |t|
      ensures MatchAfterSpace(t, p, i) == MatchAfterSpace(u, p, i)
    {
      MatchAfterSpaceIgnoringCase(t, u, p, i);
    }
  }


  // ---------------------------------------------------------------------
  // The whole table, and the caret
  // ---------------------------------------------------------------------

  /** The text after a pass and whether any `re.test` succeeded (`changed`). */
  datatype Rewritten = Rewritten(text: string, changed: bool)

  /** One iteration of the loop of applySubstitutions. */
  function Step(acc: Rewritten, e: Entry): Rewritten {
    if Matches(acc.text, e.phrase)
    then Rewritten(ReplaceAll(acc.text, e.phrase, e.replacement), true)
    else acc
  }

  /** The loop over the entries, in order, each phrase once. */
  function RewriteWith(es: seq<Entry>, t: string): Rewritten
    decreases |es|
  {
    if es == [] then Rewritten(t, false)
    else Step(RewriteWith(es[..|es| - 1], t), es[|es| - 1])
  }

  /**
   * The caret after the pass: unchanged unless something matched, else
   * moved back by the change of the whole text's length, and not below 0.
   */
  function Caret(before: string, after: Rewritten, pos: int): int {
    if !after.changed then pos
    else
      var diff := |before| - |after.text|;
      if pos - diff < 0 then 0 else pos - diff
  }

  /** When no phrase matched, the text is as it was. */
  lemma {:induction false} UnchangedKeepsText(es: seq<Entry>, t: string)
    ensures !RewriteWith(es, t).changed ==> RewriteWith(es, t).text == t
    decreases |es|
  {
    if es != [] {
      UnchangedKeepsText(es[..|es| - 1], t);
    }
  }

  /** Some entry's phrase matched the text as it was when that entry's turn came. */
  predicate SomePhraseMatched(es: seq<Entry>, t: string) {
    exists k :: 0 <= k < |es| && Matches(RewriteWith(es[..k], t).text, es[k].phrase)
  }

  /** The last entry's turn: `changed` is set before, or its phrase matches now. */
  lemma {:induction false} ChangedStep(es: seq<Entry>, t: string)
    requires es != []
    ensures var prev := RewriteWith(es[..|es| - 1], t);
      RewriteWith(es, t).changed <==> prev.changed || Matches(prev.text, es[|es| - 1].phrase)
  {
  }

  lemma {:induction false} SomePhraseMatchedAt(es: seq<Entry>, t: string, k: nat)
    requires k < |es| && Matches(RewriteWith(es[..k], t).text, es[k].phrase)
    ensures SomePhraseMatched(es, t)
  {
  }

  /** The turns before the last one are those of the table without its last entry. */
  lemma {:induction false} TurnInPrefix(es: seq<Entry>, t: string, k: nat)
    requires k < |es| - 1
    ensures Matches(RewriteWith(es[..|es| - 1][..k], t).text, es[..|es| - 1][k].phrase)
        == Matches(RewriteWith(es[..k], t).text, es[k].phrase)
  {
    assert es[..|es| - 1][..k] == es[..k];
  }

  lemma {:induction false} SomePhraseMatchedGrows(es: seq<Entry>, t: string)
    requires es != []
    ensures SomePhraseMatched(es[..|es| - 1], t) ==> SomePhraseMatched(es, t)
  {
    var init := es[..|es| - 1];
    if SomePhraseMatched(init, t) {
      var k :| 0 <= k < |init| && Matches(RewriteWith(init[..k], t).text, init[k].phrase);
      TurnInPrefix(es, t, k);
      SomePhraseMatchedAt(es, t, k);
    }
  }

  lemma {:induction false} SomePhraseMatchedLast(es: seq<Entry>, t: string)
    requires es != []
    ensures Matches(RewriteWith(es[..|es| - 1], t).text, es[|es| - 1].phrase) ==> SomePhraseMatched(es, t)
  {
    if Matches(RewriteWith(es[..|es| - 1], t).text, es[|es| - 1].phrase) {
      SomePhraseMatchedAt(es, t, |es| - 1);
    }
  }

  lemma {:induction false} SomePhraseMatchedShrinks(es: seq<Entry>, t: string)
    requires es != []
    ensures var init := es[..|es| - 1];
      SomePhraseMatched(es, t) ==>
      SomePhraseMatched(init, t) || Matches(RewriteWith(init, t).text, es[|es| - 1].phrase)
  {
    var init := es[..|es| - 1];
    if SomePhraseMatched(es, t) {
      var k :| 0 <= k < |es| && Matches(RewriteWith(es[..k], t).text, es[k].phrase);
      if k < |init| {
        TurnInPrefix(es, t, k);
        SomePhraseMatchedAt(init, t, k);
      } else {
        assert es[..k] == init;
      }
    }
  }

  /** `changed` is set exactly when some phrase matched the text it was tried on. */
  lemma {:induction false} ChangedIffSomePhraseMatched(es: seq<Entry>, t: string)
    ensures RewriteWith(es, t).changed <==> SomePhraseMatched(es, t)
    decreases |es|
  {
    if es != [] {
      ChangedIffSomePhraseMatched(es[..|es| - 1], t);
      ChangedStep(es, t);
      SomePhraseMatchedGrows(es, t);
      SomePhraseMatchedLast(es, t);
      SomePhraseMatchedShrinks(es, t);
    }
  }

  /** The caret stays within the new text whenever it was within the old one. */
  lemma {:induction false} CaretWithinText(es: seq<Entry>, t: string, pos: nat)
    requires pos <= |t|
    ensures 0 <= Caret(t, RewriteWith(es, t), pos) <= |RewriteWith(es, t).text|
  {
    UnchangedKeepsText(es, t);
  }

  /**
   * applySubstitutions on the value and caret of the text area: returns the
   * new value and caret.
   */
  method ApplySubstitutions(es: seq<Entry>, value: string, pos: nat) returns (text: string, caret: nat)
    requires pos <= |value|
    ensures text == RewriteWith(es, value).text
    ensures caret == Caret(value, RewriteWith(es, value), pos)
    ensures caret <= |text|
  {
    text := value;
    var changed := false;
    for i := 0 to |es|
      invariant Rewritten(text, changed) == RewriteWith(es[..i], value)
    {
      assert es[..i + 1][..i] == es[..i];
      var e := es[i];
      if Matches(text, e.phrase) {
        text := ReplaceAll(text, e.phrase, e.replacement);
        changed := true;
      }
    }
    assert es[..|es|] == es;
    caret := pos;
    if changed {
      var diff := |value| - |text|;
      caret := if pos - diff < 0 then 0 else pos - diff;
    }
    CaretWithinText(es, value, pos);
  }
}
