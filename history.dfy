/**
 * The sent-message history of the editing page, as values: the log of sent
 * messages, the index of the entry on view (`histIdx`), the draft slot and
 * the text in the textarea. The page class in module Client keeps these as
 * fields and its methods are proved against the functions here.
 *
 * `idx == |log|` means the textarea shows the draft being written;
 * `idx < |log|` means it shows (a possibly edited copy of) `log[idx]`.
 */
module History {

  datatype Nav = Nav(log: seq<string>, idx: nat, draft: string, text: string)

  predicate Valid(n: Nav) {
    n.idx <= |n.log|
  }

  /** The state before anything was sent: empty log, empty draft. */
  function Initial(text: string): (n: Nav)
    ensures Valid(n) && n.log == [] && n.idx == 0
  {
    Nav([], 0, "", text)
  }

  /**
   * `histBack`: nothing at index 0; otherwise step back one entry and show
   * it, saving the textarea into the draft slot when leaving the draft.
   */
  function Back(n: Nav): (r: Nav)
    requires Valid(n)
    ensures Valid(r) && r.log == n.log
    ensures n.idx == 0 ==> r == n
    ensures n.idx > 0 ==> r.idx == n.idx - 1 && r.text == n.log[r.idx]
    ensures n.idx > 0 && n.idx == |n.log| ==> r.draft == n.text
    ensures n.idx < |n.log| ==> r.draft == n.draft
  {
    if n.idx <= 0 then n
    else
      var draft := if n.idx == |n.log| then n.text else n.draft;
      n.(idx := n.idx - 1, draft := draft, text := n.log[n.idx - 1])
  }

  /**
   * `histForward`: nothing at the draft; otherwise step forward one entry
   * and show it, or show the draft slot on reaching the draft.
   */
  function Forward(n: Nav): (r: Nav)
    requires Valid(n)
    ensures Valid(r) && r.log == n.log && r.draft == n.draft
    ensures n.idx == |n.log| ==> r == n
    ensures n.idx < |n.log| ==> r.idx == n.idx + 1
    ensures r.idx < |r.log| ==> r == n || r.text == r.log[r.idx]
    ensures n.idx < |n.log| && r.idx == |r.log| ==> r.text == n.draft
  {
    if n.idx >= |n.log| then n
    else
      var i := n.idx + 1;
      n.(idx := i, text := if i < |n.log| then n.log[i] else n.draft)
  }

  /**
   * The success branch of `doSend`: the text on view is appended to the log
   * whatever it is, and the page returns to an empty draft.
   */
  function Record(n: Nav): (r: Nav)
    requires Valid(n)
    ensures Valid(r)
    ensures |r.log| == |n.log| + 1 && r.log[..|n.log|] == n.log && r.log[|n.log|] == n.text
    ensures r.idx == |r.log| && r.draft == "" && r.text == ""
  {
    Nav(n.log + [n.text], |n.log| + 1, "", "")
  }

  /** What `updateNav` shows: the two buttons and the "position / total" label. */
  datatype Buttons = Buttons(backEnabled: bool, forwardEnabled: bool, info: Label)
  datatype Label = NoLabel | Position(at: nat, total: nat)

  function NavButtons(n: Nav): Buttons {
    var backDisabled := (n.idx == 0 && |n.log| == 0) || n.idx == 0;
    var forwardDisabled := n.idx >= |n.log|;
    var info :=
      if |n.log| > 0 then
        Position(if n.idx < |n.log| then n.idx + 1 else |n.log| + 1, |n.log| + 1)
      else NoLabel;
    Buttons(!backDisabled, !forwardDisabled, info)
  }

  /**
   * A button is enabled exactly when pressing it changes something, and
   * the label counts the draft as the last of `|log| + 1` positions.
   */
  lemma {:induction false} ButtonsMatchMoves(n: Nav)
    requires Valid(n)
    ensures NavButtons(n).backEnabled <==> Back(n) != n
    ensures NavButtons(n).forwardEnabled <==> Forward(n) != n
    ensures |n.log| == 0 <==> NavButtons(n).info == NoLabel
    ensures |n.log| > 0 ==> NavButtons(n).info == Position(n.idx + 1, |n.log| + 1)
  {
  }

  /** `k` presses of the back button. */
  function BackN(n: Nav, k: nat): (r: Nav)
    requires Valid(n)
    ensures Valid(r)
  {
    if k == 0 then n else Back(BackN(n, k - 1))
  }

  /** `k` presses of the forward button. */
  function ForwardN(n: Nav, k: nat): (r: Nav)
    requires Valid(n)
    ensures Valid(r)
  {
    if k == 0 then n else Forward(ForwardN(n, k - 1))
  }

  /** Going back `k` steps from the draft shows `log[|log| - k]` and saves the draft. */
  lemma {:induction false} BackFromDraft(n: Nav, k: nat)
    requires Valid(n) && n.idx == |n.log| && 0 < k <= |n.log|
    ensures BackN(n, k) == Nav(n.log, |n.log| - k, n.text, n.log[|n.log| - k])
  {
    if k > 1 {
      BackFromDraft(n, k - 1);
    }
  }

  /** Going forward from an entry on view, to the end, shows the draft slot. */
  lemma {:induction false} ForwardToDraft(log: seq<string>, i: nat, d: string)
    requires i < |log|
    ensures ForwardN(Nav(log, i, d, log[i]), |log| - i) == Nav(log, |log|, d, d)
    decreases |log| - i
  {
    var n := Nav(log, i, d, log[i]);
    if i + 1 < |log| {
      ForwardToDraft(log, i + 1, d);
      ForwardShift(n, |log| - i - 1);
    } else {
      assert ForwardN(n, 1) == Forward(n);
    }
  }

  /** Pressing forward once and then `k` times is pressing it `k + 1` times. */
  lemma {:induction false} ForwardShift(n: Nav, k: nat)
    requires Valid(n)
    ensures ForwardN(Forward(n), k) == ForwardN(n, k + 1)
  {
    if k > 0 {
      ForwardShift(n, k - 1);
    }
  }

  /**
   * The draft is restored exactly: from the draft, `k` steps back and `k`
   * steps forward show the text that was being written.
   */
  lemma {:induction false} DraftRestored(n: Nav, k: nat)
    requires Valid(n) && n.idx == |n.log| && 0 < k <= |n.log|
    ensures ForwardN(BackN(n, k), k) == n.(draft := n.text)
  {
    BackFromDraft(n, k);
    ForwardToDraft(n.log, |n.log| - k, n.text);
  }

  /** What the page can do to the history state: a keystroke, a button, a delivered send. */
  datatype Event = Edit(text: string) | PressBack | PressForward | Delivered

  function Apply(n: Nav, e: Event): (r: Nav)
    requires Valid(n)
    ensures Valid(r)
  {
    match e
    case Edit(t) => n.(text := t)
    case PressBack => Back(n)
    case PressForward => Forward(n)
    case Delivered => Record(n)
  }

  function Run(n: Nav, es: seq<Event>): (r: Nav)
    requires Valid(n)
    ensures Valid(r)
  {
    if es == [] then n else Apply(Run(n, es[..|es| - 1]), es[|es| - 1])
  }

  /** The log is append-only: no run of events removes or alters an entry. */
  lemma {:induction false} LogOnlyGrows(n: Nav, es: seq<Event>)
    requires Valid(n)
    ensures |n.log| <= |Run(n, es).log| && Run(n, es).log[..|n.log|] == n.log
  {
    if es != [] {
      LogOnlyGrows(n, es[..|es| - 1]);
      var m := Run(n, es[..|es| - 1]);
      var r := Apply(m, es[|es| - 1]);
      assert r.log[..|m.log|] == m.log;
      assert r.log[..|n.log|] == m.log[..|m.log|][..|n.log|];
    }
  }

  /** Sending the same text twice leaves two entries. */
  lemma {:induction false} SendingTwiceKeepsBoth(n: Nav, t: string)
    requires Valid(n)
    ensures Record(Record(n.(text := t)).(text := t)).log == n.log + [t, t]
  {
  }

  /** The worked example: log ["a", "b"] with "c" being written. */
  lemma {:induction false} NavigationExample()
    ensures var n0 := Nav(["a", "b"], 2, "", "c");
      var n1 := Back(n0); var n2 := Back(n1); var n3 := Back(n2);
      var n4 := Forward(n3); var n5 := Forward(n4);
      && n1.text == "b" && n1.idx == 1
      && n2.text == "a" && n2.idx == 0
      && n3 == n2
      && n4.text == "b" && n5.text == "c" && n5.idx == 2
  {
  }
}
