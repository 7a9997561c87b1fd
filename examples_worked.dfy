/**
 * Worked examples: the dictation table of the default profile on one
 * sentence, and a voice "send" typed, waited for, or interrupted.
 */
module Worked {
  import opened Options
  import opened Text
  import opened Substitution
  import opened Voice
  import Client

  /** The scan passes over a run without whitespace unchanged. */
  lemma {:induction false} ScanRun(t: string, p: string, r: string, i: nat, j: nat)
    requires i <= j <= |t|
    requires forall k :: i <= k < j ==> !IsSpace(t[k])
    ensures ReplaceFrom(t, p, r, i) == t[i..j] + ReplaceFrom(t, p, r, j)
    decreases j - i
  {
    if i < j {
      ScanCopy(t, p, r, i);
      ScanRun(t, p, r, i + 1, j);
      assert t[i..j] == [t[i]] + t[i + 1..j];
      AppendAssoc([t[i]], t[i + 1..j], ReplaceFrom(t, p, r, j));
    }
  }

  lemma {:induction false} ScanSkip(t: string, p: string, r: string, i: nat, j: nat)
    requires i <= j <= |t| && NoSpace(t[i..j])
    ensures ReplaceFrom(t, p, r, i) == t[i..j] + ReplaceFrom(t, p, r, j)
  {
    forall k | i <= k < j
      ensures !IsSpace(t[k])
    {
      assert t[k] == t[i..j][k - i];
    }
    ScanRun(t, p, r, i, j);
  }

  /** A slice of a literal, checked character by character. */
  lemma {:induction false} SliceIs(t: string, i: nat, s: string)
    requires i + |s| <= |t|
    requires forall k :: 0 <= k < |s| ==> t[i + k] == s[k]
    ensures t[i..i + |s|] == s
  {
    forall k | 0 <= k < |s| ensures t[i..i + |s|][k] == s[k] {
      assert t[i..i + |s|][k] == t[i + k];
    }
  }

  const FullStopPhrase := "full stop"
  const NewLinePhrase := "new line"
  const FullStop := Entry(FullStopPhrase, ".")
  const NewLine := Entry(NewLinePhrase, "\n")
  const Table := [FullStop, NewLine]

  /**
   * "hello full stop new line world", slice by slice. Stating the text by
   * its shape keeps the verifier from evaluating the scan on a literal.
   */
  predicate Sentence(t: string) {
    && |t| == 30
    && t[..5] == "hello" && t[5] == ' '
    && t[6..15] == FullStopPhrase && t[15] == ' '
    && t[16..19] == "new" && t[19] == ' '
    && t[20..24] == "line" && t[24] == ' '
    && t[25..] == "world"
  }

  /** "hello . new line world": the sentence after the first entry. */
  predicate Dotted(u: string) {
    && |u| == 22
    && u[..5] == "hello" && u[5] == ' ' && u[6] == '.' && u[7] == ' '
    && u[8..16] == NewLinePhrase && u[16] == ' '
    && u[17..] == "world"
  }

  const Typed := "hello full stop new line world"
  const AfterFullStop := "hello . new line world"
  const AfterNewLine := "hello . \n world"

  lemma {:induction false} TypedHead()
    ensures Typed[..5] == "hello" && Typed[6..15] == FullStopPhrase
  {
    SliceIs(Typed, 0, "hello");
    SliceIs(Typed, 6, FullStopPhrase);
  }

  lemma {:induction false} TypedTail()
    ensures Typed[16..19] == "new" && Typed[20..24] == "line" && Typed[25..] == "world"
  {
    SliceIs(Typed, 16, "new");
    SliceIs(Typed, 20, "line");
    SliceIs(Typed, 25, "world");
  }

  lemma {:induction false} TypedIsSentence()
    ensures Sentence(Typed)
  {
    TypedHead();
    TypedTail();
  }

  lemma {:induction false} AfterFullStopIsDotted()
    ensures Dotted(AfterFullStop)
  {
    SliceIs(AfterFullStop, 0, "hello");
    SliceIs(AfterFullStop, 8, NewLinePhrase);
    SliceIs(AfterFullStop, 17, "world");
  }

  lemma {:induction false} TableSorted()
    ensures SortByLength(Table) == Table
  {
    assert SortByLength([NewLine]) == [NewLine];
  }

  /** A word after a whitespace character that does not start a match is copied. */
  lemma {:induction false} ScanWord(t: string, p: string, r: string, i: nat, j: nat)
    requires i < j <= |t| && !MatchAfterSpace(t, p, i) && NoSpace(t[i + 1..j])
    ensures ReplaceFrom(t, p, r, i) == t[i..j] + ReplaceFrom(t, p, r, j)
  {
    ScanCopy(t, p, r, i);
    ScanSkip(t, p, r, i + 1, j);
    assert t[i..j] == [t[i]] + t[i + 1..j];
    AppendAssoc([t[i]], t[i + 1..j], ReplaceFrom(t, p, r, j));
  }

  // "full stop" on the typed sentence

  lemma {:induction false} FullStopHead(t: string)
    requires Sentence(t)
    ensures !MatchAtStart(t, FullStopPhrase)
    ensures ReplaceFrom(t, FullStopPhrase, ".", 0) == "hello" + ReplaceFrom(t, FullStopPhrase, ".", 5)
  {
    assert t[0] == t[..5][0];
    assert LowerStr(t[..9])[0] != LowerStr(FullStopPhrase)[0];
    assert NoSpace("hello");
    ScanSkip(t, FullStopPhrase, ".", 0, 5);
  }

  lemma {:induction false} FullStopMatch(t: string)
    requires Sentence(t)
    ensures MatchAfterSpace(t, FullStopPhrase, 5)
    ensures ReplaceFrom(t, FullStopPhrase, ".", 5) == " ." + ReplaceFrom(t, FullStopPhrase, ".", 15)
  {
    assert IsSpace(t[5]) && IsSpace(t[15]);
    assert MatchAfterSpace(t, FullStopPhrase, 5);
    ScanMatch(t, FullStopPhrase, ".", 5);
  }

  lemma {:induction false} FullStopNew(t: string)
    requires Sentence(t)
    ensures ReplaceFrom(t, FullStopPhrase, ".", 15) == " new" + ReplaceFrom(t, FullStopPhrase, ".", 19)
  {
    assert t[16] == t[16..19][0];
    assert LowerStr(t[16..25])[0] != LowerStr(FullStopPhrase)[0];
    assert t[15..19] == [t[15]] + t[16..19];
    assert NoSpace("new");
    ScanWord(t, FullStopPhrase, ".", 15, 19);
  }

  lemma {:induction false} FullStopLine(t: string)
    requires Sentence(t)
    ensures ReplaceFrom(t, FullStopPhrase, ".", 19) == " line" + ReplaceFrom(t, FullStopPhrase, ".", 24)
  {
    assert t[20] == t[20..24][0];
    assert LowerStr(t[20..29])[0] != LowerStr(FullStopPhrase)[0];
    assert t[19..24] == [t[19]] + t[20..24];
    assert NoSpace("line");
    ScanWord(t, FullStopPhrase, ".", 19, 24);
  }

  lemma {:induction false} FullStopWorld(t: string)
    requires Sentence(t)
    ensures ReplaceFrom(t, FullStopPhrase, ".", 24) == " world"
  {
    assert NoSpace("world");
    ScanWord(t, FullStopPhrase, ".", 24, 30);
  }

  lemma {:induction false} FullStopScan(t: string)
    requires Sentence(t)
    ensures ReplaceFrom(t, FullStopPhrase, ".", 0) == "hello" + (" ." + (" new" + (" line" + " world")))
  {
    FullStopHead(t);
    FullStopMatch(t);
    FullStopNew(t);
    FullStopLine(t);
    FullStopWorld(t);
  }

  lemma {:induction false} AfterFullStopPieces()
    ensures "hello" + (" ." + (" new" + (" line" + " world"))) == AfterFullStop
  {
  }

  lemma {:induction false} FullStopResult(t: string)
    requires Sentence(t)
    ensures ReplaceAll(t, FullStopPhrase, ".") == AfterFullStop
  {
    FullStopHead(t);
    FullStopScan(t);
    AfterFullStopPieces();
  }

  lemma {:induction false} FullStopPass(t: string)
    requires Sentence(t)
    ensures Matches(t, FullStopPhrase)
    ensures Dotted(ReplaceAll(t, FullStopPhrase, "."))
  {
    FullStopMatch(t);
    FullStopResult(t);
    AfterFullStopIsDotted();
  }

  // "new line" on the result

  lemma {:induction false} NewLineHead(u: string)
    requires Dotted(u)
    ensures !MatchAtStart(u, NewLinePhrase)
    ensures ReplaceFrom(u, NewLinePhrase, "\n", 0) == "hello" + ReplaceFrom(u, NewLinePhrase, "\n", 5)
  {
    assert u[0] == u[..5][0];
    assert LowerStr(u[..8])[0] != LowerStr(NewLinePhrase)[0];
    assert NoSpace("hello");
    ScanSkip(u, NewLinePhrase, "\n", 0, 5);
  }

  lemma {:induction false} NewLineDot(u: string)
    requires Dotted(u)
    ensures ReplaceFrom(u, NewLinePhrase, "\n", 5) == " ." + ReplaceFrom(u, NewLinePhrase, "\n", 7)
  {
    assert LowerStr(u[6..14])[0] != LowerStr(NewLinePhrase)[0];
    assert NoSpace(u[6..7]);
    ScanWord(u, NewLinePhrase, "\n", 5, 7);
  }

  lemma {:induction false} NewLineMatch(u: string)
    requires Dotted(u)
    ensures MatchAfterSpace(u, NewLinePhrase, 7)
    ensures ReplaceFrom(u, NewLinePhrase, "\n", 7) == " \n" + ReplaceFrom(u, NewLinePhrase, "\n", 16)
  {
    assert IsSpace(u[7]) && IsSpace(u[16]);
    assert MatchAfterSpace(u, NewLinePhrase, 7);
    ScanMatch(u, NewLinePhrase, "\n", 7);
  }

  lemma {:induction false} NewLineWorld(u: string)
    requires Dotted(u)
    ensures ReplaceFrom(u, NewLinePhrase, "\n", 16) == " world"
  {
    assert NoSpace("world");
    ScanWord(u, NewLinePhrase, "\n", 16, 22);
  }

  lemma {:induction false} NewLineScan(u: string)
    requires Dotted(u)
    ensures ReplaceFrom(u, NewLinePhrase, "\n", 0) == "hello" + (" ." + (" \n" + " world"))
  {
    NewLineHead(u);
    NewLineDot(u);
    NewLineMatch(u);
    NewLineWorld(u);
  }

  lemma {:induction false} AfterNewLinePieces()
    ensures "hello" + (" ." + (" \n" + " world")) == AfterNewLine
  {
  }

  lemma {:induction false} NewLinePass(u: string)
    requires Dotted(u)
    ensures Matches(u, NewLinePhrase)
    ensures ReplaceAll(u, NewLinePhrase, "\n") == AfterNewLine
  {
    NewLineHead(u);
    NewLineMatch(u);
    NewLineScan(u);
    AfterNewLinePieces();
  }


  /** The pass over the table: "full stop" first, then "new line". */
  lemma {:induction false} TableFold(t: string)
    ensures RewriteWith(Table, t) == Step(Step(Rewritten(t, false), FullStop), NewLine)
  {
    assert Table[..1] == [FullStop];
    assert RewriteWith(Table, t) == Step(RewriteWith([FullStop], t), NewLine);
    assert [FullStop][..0] == [];
    assert RewriteWith([FullStop], t) == Step(RewriteWith([], t), FullStop);
  }

  /**
   * The dictation example: "hello full stop new line world" (Typed is such
   * a sentence, by TypedIsSentence) with the caret at its end becomes
   * "hello . \n world" with the caret at the end.
   */
  lemma {:induction false} DictationExample(t: string)
    requires Sentence(t)
    ensures RewriteWith(SortByLength(Table), t) == Rewritten(AfterNewLine, true)
    ensures Caret(t, RewriteWith(SortByLength(Table), t), |t|) == |AfterNewLine| == 15
  {
    TableSorted();
    TableFold(t);
    FullStopPass(t);
    NewLinePass(ReplaceAll(t, FullStopPhrase, "."));
  }

  // Voice send

  const SendOnly := VoiceConfig(true, ["send"], ["clear"])

  /** "hello " followed by a word, slice by slice. */
  predicate HelloThen(t: string, w: string) {
    |t| == 6 + |w| && t[..6] == "hello " && t[6..] == w
  }

  lemma {:induction false} HelloSendLastWord(t: string)
    requires HelloThen(t, "send")
    ensures TrimEnd(t) == t
    ensures LastWord(t) == Some("send")
  {
    assert t[9] == t[6..][3];
    TrimEndUnique(t, t);
    LastTokenUnique(t, "send");
    assert LowerStr("send") == "send";
  }

  lemma {:induction false} HelloSendArms(t: string)
    requires HelloThen(t, "send")
    ensures Decide(SendOnly, t) == Some(Trigger("send", Send))
    ensures StripTrigger(t, "send") == "hello"
  {
    HelloSendLastWord(t);
    assert Includes(SendOnly.sendWords, "send") by {
      assert LowerStr(SendOnly.sendWords[0]) == "send";
    }
    LastWordEndsBuffer(t, "send");
    assert t[..6] == "hello ";
    TrimEndUnique("hello ", "hello");
  }

  lemma {:induction false} OneMoreCharacterDisarms(t: string)
    requires HelloThen(t, "sendx")
    ensures Decide(SendOnly, t).None?
  {
    assert t[10] == t[6..][4];
    TrimEndUnique(t, t);
    LastTokenUnique(t, "sendx");
    assert LowerStr("sendx") == "sendx";
    assert !Includes(SendOnly.sendWords, "sendx") by {
      assert |LowerStr(SendOnly.sendWords[0])| == 4;
    }
    assert !Includes(SendOnly.clearWords, "sendx") by {
      assert |LowerStr(SendOnly.clearWords[0])| == 5;
    }
  }

  /**
   * The voice example on the page: typing "hello send" arms a send, and
   * when the timer runs the page sends "hello"; typing one more character
   * before that leaves nothing armed.
   */
  method VoiceSendExample(typed: string, more: string) returns (armed: Option<Trigger>, sent: Option<Client.Request>, rearmed: Option<Trigger>)
    requires HelloThen(typed, "send") && HelloThen(more, "sendx")
    ensures armed == Some(Trigger("send", Send))
    ensures sent == Some(Client.Request("T", "hello"))
    ensures rearmed.None?
  {
    var page := new Client.Page([], Some(SendOnly), Some("T"));
    var c := page.Input(typed, |typed|);
    HelloSendArms(page.text);
    armed := page.pending;
    sent := page.Fire(Client.Answered(200));

    var other := new Client.Page([], Some(SendOnly), Some("T"));
    c := other.Input(typed, |typed|);
    c := other.Input(more, |more|);
    OneMoreCharacterDisarms(other.text);
    rearmed := other.pending;
  }
}
