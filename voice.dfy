/**
 * The voice-command part of the editing page: `checkVoiceCommand` decides
 * from the trailing word of the buffer whether to arm a delayed `send` or
 * `clear`, and the timer callback strips that word before acting. The
 * timer itself is not modelled here; the page class keeps the armed
 * trigger (or none) as its state.
 */
module Voice {
  import opened Text
  import opened Options

  datatype Action = Send | Clear

  /** An armed timer: the lower-cased trigger word and what it will do. */
  datatype Trigger = Trigger(word: string, action: Action)

  /** `CONFIG.voice_send`; the delay is not modelled. */
  datatype VoiceConfig = VoiceConfig(enabled: bool, sendWords: seq<string>, clearWords: seq<string>)

  /** `if (!vs || !vs.enabled) return;` fails to return. */
  predicate VoiceOn(vs: Option<VoiceConfig>) {
    vs.Some? && vs.value.enabled
  }

  /**
   * The last element of `s.split(/\s+/)`: the characters after the last
   * whitespace character of `s`.
   */
  function LastToken(s: string): (w: string)
    ensures |w| <= |s| && w == s[|s| - |w|..]
    ensures NoSpace(w)
    ensures |w| == |s| || IsSpace(s[|s| - |w| - 1])
  {
    if s == [] || IsSpace(s[|s| - 1]) then []
    else
      var w := LastToken(s[..|s| - 1]);
      assert s[..|s| - 1][|s| - 1 - |w|..] == s[|s| - 1 - |w|..|s| - 1];
      w + [s[|s| - 1]]
  }

  /** The contract of LastToken determines its result. */
  lemma {:induction false} LastTokenUnique(s: string, w: string)
    requires |w| <= |s| && w == s[|s| - |w|..] && NoSpace(w)
    requires |w| == |s| || IsSpace(s[|s| - |w| - 1])
    ensures LastToken(s) == w
  {
    var v := LastToken(s);
    // A shorter one of the two would be preceded by a character of the longer.
    if |v| < |w| {
      assert false;
    } else if |w| < |v| {
      assert false;
    }
  }


  /**
   * `lastWord`: lower-cased last word of the `trimEnd`ed buffer, or nothing
   * when the buffer is empty or all whitespace.
   */
  function LastWord(text: string): Option<string> {
    var t := TrimEnd(text);
    if t == [] then None else Some(LowerStr(LastToken(t)))
  }

  /** `words.map(w => w.toLowerCase()).includes(word)`. */
  predicate Includes(words: seq<string>, word: string) {
    exists i :: 0 <= i < |words| && LowerStr(words[i]) == word
  }

  /**
   * The trigger `checkVoiceCommand` arms for the buffer (when voice send is
   * enabled): send words are looked at before clear words.
   */
  function Decide(vs: VoiceConfig, text: string): (r: Option<Trigger>)
    ensures r.Some? <==> LastWord(text).Some?
                         && (Includes(vs.sendWords, LastWord(text).value)
                             || Includes(vs.clearWords, LastWord(text).value))
    ensures r.Some? ==> LastWord(text) == Some(r.value.word)
    ensures r.Some? ==> (r.value.action == Send <==> Includes(vs.sendWords, r.value.word))
  {
    match LastWord(text)
    case None => None
    case Some(w) =>
      if Includes(vs.sendWords, w) then Some(Trigger(w, Send))
      else if Includes(vs.clearWords, w) then Some(Trigger(w, Clear))
      else None
  }

  lemma {:induction false} LowerStrKeepsNoSpace(s: string)
    requires NoSpace(s)
    ensures NoSpace(LowerStr(s))
  {
    forall k | 0 <= k < |s| ensures !IsSpace(LowerStr(s)[k]) {
      assert LowerStr(s)[k] == Lower(s[k]);
    }
  }

  /**
   * What the last word is: nothing exactly when the buffer is all
   * whitespace; otherwise the lower-cased form of a non-empty run without
   * whitespace that starts the text or follows a whitespace character and
   * is followed only by whitespace.
   */
  lemma {:induction false} LastWordShape(text: string)
    ensures LastWord(text).None? <==> AllSpace(text)
    ensures LastWord(text).Some? ==>
      exists a: nat, b: nat ::
        a < b <= |text| && (a == 0 || IsSpace(text[a - 1]))
        && LastWord(text).value == LowerStr(text[a..b]) && NoSpace(text[a..b])
        && AllSpace(text[b..])
  {
    var t := TrimEnd(text);
    if t == [] {
      assert text[0..] == text;
    } else {
      var w := LastToken(t);
      var a, b := |t| - |w|, |t|;
      assert w != [];
      assert text[a..b] == w;
      assert !AllSpace(text) by { assert text[b - 1] == t[b - 1]; }
      LowerStrKeepsNoSpace(w);
    }
  }

  /** A word configured both ways arms a send. */
  lemma {:induction false} SendWordsComeFirst(vs: VoiceConfig, text: string, w: string)
    requires LastWord(text) == Some(w)
    requires Includes(vs.sendWords, w) && Includes(vs.clearWords, w)
    ensures Decide(vs, text) == Some(Trigger(w, Send))
  {
  }

  // ---------------------------------------------------------------------
  // Firing: txt.value.replace(/\s*WORD\s*$/i, "")
  // ---------------------------------------------------------------------

  /**
   * The buffer after the fired timer's replace: the trigger word at the end
   * (ignoring trailing whitespace and letter case) is removed together with
   * the whitespace around it; a buffer that does not end in the word is kept.
   */
  function StripTrigger(s: string, w: string): string {
    var t := TrimEnd(s);
    if EndsWithWord(s, w) then TrimEnd(t[..|t| - |w|]) else s
  }

  /** The expression `\s*WORD\s*$` matches when tried at position `p`. */
  predicate TrailingMatchAt(s: string, w: string, p: nat) {
    exists q: nat :: p <= q && q + |w| <= |s| && AllSpace(s[p..q])
                     && SameIgnoringCase(s[q..q + |w|], w) && AllSpace(s[q + |w|..])
  }

  lemma {:induction false} SameIgnoringCaseKeepsNoSpace(a: string, w: string)
    requires NoSpace(w) && SameIgnoringCase(a, w)
    ensures NoSpace(a)
  {
    forall k | 0 <= k < |a| ensures !IsSpace(a[k]) {
      assert Lower(a[k]) == LowerStr(a)[k] == LowerStr(w)[k] == Lower(w[k]);
    }
  }

  /** Any match of the trigger word ends where the trimmed buffer ends. */
  lemma {:induction false} MatchEndsAtTrimmedEnd(s: string, w: string, q: nat)
    requires w != [] && NoSpace(w)
    requires q + |w| <= |s| && SameIgnoringCase(s[q..q + |w|], w) && AllSpace(s[q + |w|..])
    ensures q + |w| == |TrimEnd(s)|
  {
    SameIgnoringCaseKeepsNoSpace(s[q..q + |w|], w);
    assert !IsSpace(s[q + |w| - 1]) by { assert s[q..q + |w|][|w| - 1] == s[q + |w| - 1]; }
  }

  /** The condition under which StripTrigger cuts the buffer. */
  predicate EndsWithWord(s: string, w: string) {
    var t := TrimEnd(s);
    |w| <= |t| && SameIgnoringCase(t[|t| - |w|..], w)
  }

  /**
   * What StripTrigger cuts off when the buffer ends in the word: whitespace,
   * the word up to case starting at `|TrimEnd(s)| - |w|`, and whitespace.
   */
  lemma {:induction false} CutPieces(s: string, w: string)
    requires EndsWithWord(s, w)
    ensures var r := StripTrigger(s, w); var q := |TrimEnd(s)| - |w|;
      |r| <= q && r == s[..|r|] && AllSpace(s[|r|..q])
      && SameIgnoringCase(s[q..q + |w|], w) && AllSpace(s[q + |w|..])
  {
    CutKept(s, w);
    CutWord(s, w);
  }

  /** The kept part is a prefix, and only whitespace lies between it and the word. */
  lemma {:induction false} CutKept(s: string, w: string)
    requires EndsWithWord(s, w)
    ensures var r := StripTrigger(s, w); var q := |TrimEnd(s)| - |w|;
      |r| <= q && r == s[..|r|] && AllSpace(s[|r|..q])
  {
    CutIsTrimmedPrefix(s, w);
    TrimmedPrefix(s, |TrimEnd(s)| - |w|);
  }

  /** When it cuts, StripTrigger trims what precedes the word in the trimmed buffer. */
  lemma {:induction false} CutIsTrimmedPrefix(s: string, w: string)
    requires EndsWithWord(s, w)
    ensures |w| <= |TrimEnd(s)|
    ensures StripTrigger(s, w) == TrimEnd(TrimEnd(s)[..|TrimEnd(s)| - |w|])
  {
  }

  /**
   * The trimmed buffer cut at `q` and trimmed again, read back in the
   * buffer: a prefix that is empty or ends in a non-space, followed by
   * whitespace up to `q`.
   */
  lemma {:induction false} TrimmedPrefix(s: string, q: nat)
    requires q <= |TrimEnd(s)|
    ensures var r := TrimEnd(TrimEnd(s)[..q]);
      |r| <= q && r == s[..|r|] && AllSpace(s[|r|..q]) && (r == [] || !IsSpace(s[|r| - 1]))
  {
    var t := TrimEnd(s);
    var r := TrimEnd(t[..q]);
    PrefixOfPrefix(s, t, q, r);
    LastOfPrefix(s, t, q, r);
  }

  /** A trimmed prefix of a prefix, read back in the original string. */
  lemma {:induction false} PrefixOfPrefix(s: string, t: string, q: nat, r: string)
    requires |t| <= |s| && t == s[..|t|] && q <= |t|
    requires |r| <= q && r == t[..q][..|r|] && AllSpace(t[..q][|r|..])
    ensures r == s[..|r|] && AllSpace(s[|r|..q])
  {
    assert t[..q] == s[..q];
    assert s[|r|..q] == t[..q][|r|..];
  }

  /** The word sits at the end of the trimmed buffer, and only whitespace follows it. */
  lemma {:induction false} CutWord(s: string, w: string)
    requires EndsWithWord(s, w)
    ensures var q := |TrimEnd(s)| - |w|;
      SameIgnoringCase(s[q..q + |w|], w) && AllSpace(s[q + |w|..])
  {
    var t := TrimEnd(s);
    var q := |t| - |w|;
    assert s[q..q + |w|] == t[q..];
  }

  lemma {:induction false} CutIsAMatch(s: string, w: string)
    requires EndsWithWord(s, w)
    ensures var r := StripTrigger(s, w);
      |r| <= |s| && r == s[..|r|] && TrailingMatchAt(s, w, |r|)
  {
    CutPieces(s, w);
    MatchWitness(s, w, |StripTrigger(s, w)|, |TrimEnd(s)| - |w|);
  }

  lemma {:induction false} MatchWitness(s: string, w: string, p: nat, q: nat)
    requires p <= q && q + |w| <= |s| && AllSpace(s[p..q])
    requires SameIgnoringCase(s[q..q + |w|], w) && AllSpace(s[q + |w|..])
    ensures TrailingMatchAt(s, w, p)
  {
  }

  /** The kept part ends before the word and, when not empty, in a non-space. */
  lemma {:induction false} CutEndsInNonSpace(s: string, w: string)
    requires EndsWithWord(s, w)
    ensures var m := |StripTrigger(s, w)|;
      m + |w| <= |TrimEnd(s)| && (m == 0 || !IsSpace(s[m - 1]))
  {
    CutIsTrimmedPrefix(s, w);
    TrimmedPrefix(s, |TrimEnd(s)| - |w|);
  }

  lemma {:induction false} LastOfPrefix(s: string, t: string, q: nat, r: string)
    requires |t| <= |s| && t == s[..|t|] && q <= |t|
    requires |r| <= q && r == t[..q][..|r|] && (r == [] || !IsSpace(r[|r| - 1]))
    ensures |r| == 0 || !IsSpace(s[|r| - 1])
  {
    if r != [] {
      assert r[|r| - 1] == t[..q][|r| - 1] == s[|r| - 1];
    }
  }

  /** A run of whitespace cannot start left of a non-space character it reaches. */
  lemma {:induction false} NonSpaceBoundsRun(s: string, p: nat, q: nat, m: nat)
    requires p <= q <= |s| && AllSpace(s[p..q])
    requires m <= q && (m == 0 || !IsSpace(s[m - 1]))
    ensures m <= p
  {
  }

  /** A match of the trigger word cannot start left of where StripTrigger cuts. */
  lemma {:induction false} MatchNotLeftOfCut(s: string, w: string, p: nat, q: nat)
    requires w != [] && NoSpace(w) && EndsWithWord(s, w)
    requires p <= q && q + |w| <= |s| && AllSpace(s[p..q])
    requires SameIgnoringCase(s[q..q + |w|], w) && AllSpace(s[q + |w|..])
    ensures |StripTrigger(s, w)| <= p
  {
    MatchEndsAtTrimmedEnd(s, w, q);
    CutEndsInNonSpace(s, w);
    NonSpaceBoundsRun(s, p, q, |StripTrigger(s, w)|);
  }

  lemma {:induction false} NoMatchLeftOfCut(s: string, w: string, p: nat)
    requires w != [] && NoSpace(w) && EndsWithWord(s, w)
    requires p < |StripTrigger(s, w)|
    ensures !TrailingMatchAt(s, w, p)
  {
    forall q: nat | p <= q && q + |w| <= |s| && AllSpace(s[p..q]) && SameIgnoringCase(s[q..q + |w|], w)
      ensures !AllSpace(s[q + |w|..])
    {
      if AllSpace(s[q + |w|..]) {
        MatchNotLeftOfCut(s, w, p, q);
      }
    }
  }

  /** Any match of the expression means the buffer ends in the word. */
  lemma {:induction false} MatchMeansEndsWithWord(s: string, w: string, q: nat)
    requires w != [] && NoSpace(w)
    requires q + |w| <= |s| && SameIgnoringCase(s[q..q + |w|], w) && AllSpace(s[q + |w|..])
    ensures EndsWithWord(s, w)
  {
    MatchEndsAtTrimmedEnd(s, w, q);
    var t := TrimEnd(s);
    assert s[q..q + |w|] == t[|t| - |w|..];
  }

  lemma {:induction false} NoMatchWithoutWord(s: string, w: string, p: nat)
    requires w != [] && NoSpace(w) && !EndsWithWord(s, w)
    ensures !TrailingMatchAt(s, w, p)
  {
    forall q: nat | p <= q && q + |w| <= |s| && AllSpace(s[p..q]) && SameIgnoringCase(s[q..q + |w|], w)
      ensures !AllSpace(s[q + |w|..])
    {
      if AllSpace(s[q + |w|..]) {
        MatchMeansEndsWithWord(s, w, q);
      }
    }
  }

  /**
   * StripTrigger is what the non-global replace does: when the expression
   * matches, the text is cut at the leftmost position where it matches;
   * otherwise the text is kept.
   */
  lemma {:induction false} StripIsLeftmostMatch(s: string, w: string)
    requires w != [] && NoSpace(w)
    ensures (forall p: nat :: p <= |s| ==> !TrailingMatchAt(s, w, p)) ==> StripTrigger(s, w) == s
    ensures (exists p: nat :: p <= |s| && TrailingMatchAt(s, w, p)) ==>
      var r := StripTrigger(s, w);
      |r| <= |s| && r == s[..|r|] && TrailingMatchAt(s, w, |r|)
      && forall p: nat :: p < |r| ==> !TrailingMatchAt(s, w, p)
  {
    if EndsWithWord(s, w) {
      CutIsAMatch(s, w);
      forall p: nat | p < |StripTrigger(s, w)| ensures !TrailingMatchAt(s, w, p) {
        NoMatchLeftOfCut(s, w, p);
      }
    } else {
      forall p: nat | p <= |s| ensures !TrailingMatchAt(s, w, p) {
        NoMatchWithoutWord(s, w, p);
      }
    }
  }

  /**
   * `r` is what `s.replace(/\s*w\s*$/i, "")` leaves: `s` cut at the
   * leftmost position where the expression matches, or `s` itself when it
   * matches nowhere.
   */
  predicate CutAtLeftmostMatch(s: string, w: string, r: string) {
    && ((forall p: nat :: p <= |s| ==> !TrailingMatchAt(s, w, p)) ==> r == s)
    && ((exists p: nat :: p <= |s| && TrailingMatchAt(s, w, p)) ==>
          |r| <= |s| && r == s[..|r|] && TrailingMatchAt(s, w, |r|)
          && forall p: nat :: p < |r| ==> !TrailingMatchAt(s, w, p))
  }

  /**
   * `r` is `text` with a trailing trigger word removed: a prefix of the
   * buffer that does not end in whitespace, followed by whitespace, a
   * case-variant of the word `w`, and whitespace.
   */
  predicate RemovedWord(text: string, w: string, r: string) {
    exists q: nat ::
      && |r| <= q && q + |w| <= |text| && r == text[..|r|]
      && (r == [] || !IsSpace(r[|r| - 1]))
      && AllSpace(text[|r|..q]) && LowerStr(text[q..q + |w|]) == w
      && AllSpace(text[q + |w|..])
  }

  /** Firing right after arming removes exactly the trailing word. */
  lemma {:induction false} FireRemovesTriggerWord(vs: VoiceConfig, text: string, t: Trigger)
    requires Decide(vs, text) == Some(t)
    ensures RemovedWord(text, t.word, StripTrigger(text, t.word))
  {
    StripLastWord(text, t.word);
  }

  lemma {:induction false} StripLastWord(text: string, w: string)
    requires LastWord(text) == Some(w)
    ensures RemovedWord(text, w, StripTrigger(text, w))
  {
    LastWordEndsBuffer(text, w);
    StripWord(text, w);
  }

  /** Cutting a lower-case word that the buffer ends with removes just that word. */
  lemma {:induction false} StripWord(text: string, w: string)
    requires LowerStr(w) == w && EndsWithWord(text, w)
    ensures RemovedWord(text, w, StripTrigger(text, w))
  {
    CutPieces(text, w);
    CutKeepsNoTrailingSpace(text, w);
    var q := |TrimEnd(text)| - |w|;
    LowerCaseMatch(text[q..q + |w|], w);
    RemovedWordAt(text, w, StripTrigger(text, w), q);
  }

  lemma {:induction false} LowerCaseMatch(a: string, w: string)
    requires SameIgnoringCase(a, w) && LowerStr(w) == w
    ensures LowerStr(a) == w
  {
  }

  lemma {:induction false} RemovedWordAt(text: string, w: string, r: string, q: nat)
    requires |r| <= q && q + |w| <= |text| && r == text[..|r|]
    requires r == [] || !IsSpace(r[|r| - 1])
    requires AllSpace(text[|r|..q]) && LowerStr(text[q..q + |w|]) == w
    requires AllSpace(text[q + |w|..])
    ensures RemovedWord(text, w, r)
  {
  }

  lemma {:induction false} CutKeepsNoTrailingSpace(s: string, w: string)
    requires EndsWithWord(s, w)
    ensures var r := StripTrigger(s, w); r == [] || !IsSpace(r[|r| - 1])
  {
  }

  lemma {:induction false} LowerStrIdempotent(s: string)
    ensures LowerStr(LowerStr(s)) == LowerStr(s)
  {
    forall k | 0 <= k < |s| ensures LowerStr(LowerStr(s))[k] == LowerStr(s)[k] {
      assert Lower(Lower(s[k])) == Lower(s[k]);
    }
  }

  /** The last word is a lower-case word the buffer ends with. */
  lemma {:induction false} LastWordEndsBuffer(text: string, w: string)
    requires LastWord(text) == Some(w)
    ensures w != [] && NoSpace(w) && LowerStr(w) == w && EndsWithWord(text, w)
  {
    var t := TrimEnd(text);
    var tok := LastToken(t);
    TrimmedEndsInToken(t);
    LowerStrKeepsNoSpace(tok);
    EndsWithLastToken(text);
  }

  /** A non-empty trimmed buffer ends in a non-empty token. */
  lemma {:induction false} TrimmedEndsInToken(t: string)
    requires t != [] && !IsSpace(t[|t| - 1])
    ensures LastToken(t) != []
  {
  }

  /** The buffer ends with its last word, up to case. */
  lemma {:induction false} EndsWithLastToken(text: string)
    requires TrimEnd(text) != []
    ensures EndsWithWord(text, LowerStr(LastToken(TrimEnd(text))))
  {
    var t := TrimEnd(text);
    var tok := LastToken(t);
    LowerStrIdempotent(tok);
    assert t[|t| - |tok|..] == tok;
  }

  // ---------------------------------------------------------------------
  // escapeRegex
  // ---------------------------------------------------------------------

  /** The characters `escapeRegex` puts a backslash in front of. */
  predicate Special(c: char) {
    c in {'.', '*', '+', '?', '^', '$', '{', '}', '(', ')', '|', '[', ']', '\\'}
  }

  function EscapeRegex(s: string): string {
    if s == [] then []
    else (if Special(s[0]) then ['\\', s[0]] else [s[0]]) + EscapeRegex(s[1..])
  }

  /**
   * A pattern made only of literal atoms: a special character behind a
   * backslash, or an ordinary character. Class escapes such as `\d` or `\b`
   * are not literal atoms.
   */
  predicate LiteralPattern(p: string)
    decreases |p|
  {
    p == []
    || (p[0] == '\\' && |p| >= 2 && Special(p[1]) && LiteralPattern(p[2..]))
    || (!Special(p[0]) && LiteralPattern(p[1..]))
  }

  /** The string a literal pattern matches. */
  function PatternText(p: string): string
    decreases |p|
  {
    if p == [] then []
    else if p[0] == '\\' && |p| >= 2 then [p[1]] + PatternText(p[2..])
    else [p[0]] + PatternText(p[1..])
  }

  /** An escaped phrase is a literal pattern that stands for the phrase itself. */
  lemma {:induction false} EscapeRegexIsLiteral(s: string)
    ensures LiteralPattern(EscapeRegex(s))
    ensures PatternText(EscapeRegex(s)) == s
  {
    if s != [] {
      EscapeRegexIsLiteral(s[1..]);
      var head := if Special(s[0]) then ['\\', s[0]] else [s[0]];
      var e := EscapeRegex(s);
      assert e == head + EscapeRegex(s[1..]);
      assert e[|head|..] == EscapeRegex(s[1..]);
    }
  }

  /** The escaped phrase is the only literal pattern that stands for the phrase. */
  lemma {:induction false} LiteralPatternUnique(p: string, s: string)
    requires LiteralPattern(p) && PatternText(p) == s
    ensures p == EscapeRegex(s)
    decreases |p|
  {
    if p != [] {
      if p[0] == '\\' {
        LiteralPatternUnique(p[2..], s[1..]);
        assert p == p[..2] + p[2..];
      } else {
        LiteralPatternUnique(p[1..], s[1..]);
        assert p == [p[0]] + p[1..];
      }
    }
  }
}
