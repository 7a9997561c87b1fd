/**
 * The script of the editing page served by `input-from-web.py`: the
 * textarea, the sent-message history, the armed voice trigger, and what
 * the page sends to `/send`.
 *
 * Timers are not modelled: `Fire` is the moment the armed trigger's
 * timeout runs, and the page only ever holds the trigger, or none. The
 * `fetch` of `doSend` is one atomic step whose result is a parameter.
 */
module Client {
  import opened Options
  import opened Text
  import opened Substitution
  import opened Voice
  import History
  import Server

  /** How the `fetch` of `doSend` ended: a response with its status, or a network error. */
  datatype Delivery = Answered(status: int) | NetworkError

  /** `res.ok`. */
  predicate Delivered(d: Delivery) {
    d.Answered? && 200 <= d.status <= 299
  }

  /** The `/send` request: the `token` query parameter and the JSON `text`. */
  datatype Request = Request(tokenParam: string, text: string)

  /**
   * `encodeURIComponent(token)` as the server reads it back: the token
   * itself, or the string `"null"` when the page has no token.
   */
  function TokenParam(token: Option<string>): (p: string)
    ensures token.Some? ==> p == token.value
    ensures token.None? ==> p == "null"
  {
    if token.Some? then token.value else "null"
  }

  /**
   * The page's token at load: the `token` query parameter when it is a
   * non-empty string (and then it is cached), otherwise the cached one.
   * Returns the token and the cache afterwards.
   */
  function PickToken(fromUrl: Option<string>, cached: Option<string>): (r: (Option<string>, Option<string>))
    ensures Server.Truthy(fromUrl) ==> r.0 == fromUrl && r.1 == fromUrl
    ensures !Server.Truthy(fromUrl) ==> r.0 == cached && r.1 == cached
  {
    if Server.Truthy(fromUrl) then (fromUrl, fromUrl) else (cached, cached)
  }

  /** The request `doSend` makes for the state `n`: none when the textarea is empty. */
  function RequestFor(n: History.Nav, token: Option<string>): (r: Option<Request>)
    ensures r.None? <==> n.text == ""
    ensures r.Some? ==> r.value.text == n.text && r.value.tokenParam == TokenParam(token)
  {
    if n.text == "" then None else Some(Request(TokenParam(token), n.text))
  }

  /** The history state after `doSend`: recorded when the server answered with success. */
  function AfterSend(n: History.Nav, outcome: Delivery): (r: History.Nav)
    requires History.Valid(n)
    ensures History.Valid(r)
    ensures n.text == "" || !Delivered(outcome) ==> r == n
    ensures n.text != "" && Delivered(outcome) ==> r == History.Record(n)
  {
    if n.text == "" || !Delivered(outcome) then n else History.Record(n)
  }

  /** A send that was delivered appends the text sent, and nothing else changes in the log. */
  lemma {:induction false} DeliveredSendAppends(n: History.Nav, token: Option<string>, outcome: Delivery)
    requires History.Valid(n) && Delivered(outcome) && n.text != ""
    ensures var r := AfterSend(n, outcome);
      r.log == n.log + [RequestFor(n, token).value.text]
      && r.idx == |r.log| && r.draft == "" && r.text == ""
  {
    var r := AfterSend(n, outcome);
    assert r.log == r.log[..|n.log|] + [r.log[|n.log|]];
  }

  /** A failed send keeps the text, the draft and the history as they were. */
  lemma {:induction false} FailedSendKeepsState(n: History.Nav, outcome: Delivery)
    requires History.Valid(n) && !Delivered(outcome)
    ensures AfterSend(n, outcome) == n
  {
  }

  class Page {
    /** `subEntries`: the substitution table, longest phrase first. */
    const entries: seq<Entry>
    /** `CONFIG.voice_send`. */
    const voice: Option<VoiceConfig>
    const token: Option<string>

    /** `txt.value`. */
    var text: string
    /** `history`, `histIdx` and `draft`. */
    var log: seq<string>
    var idx: nat
    var draft: string
    /** The trigger of the running `voiceTimer`, if any. */
    var pending: Option<Trigger>

    ghost predicate Valid()
      reads this
    {
      && idx <= |log|
      && Descending(entries)
      && (pending.Some? ==> VoiceOn(voice))
      && (pending.Some? ==> pending.value.word != [] && NoSpace(pending.value.word))
    }

    /** The history state of the page. */
    function View(): (n: History.Nav)
      reads this
      ensures n.log == log && n.idx == idx && n.draft == draft && n.text == text
    {
      History.Nav(log, idx, draft, text)
    }

    /** The page as loaded: an empty textarea, no history, no timer. */
    constructor(table: seq<Entry>, voice: Option<VoiceConfig>, token: Option<string>)
      ensures Valid()
      ensures entries == SortByLength(table) && this.voice == voice && this.token == token
      ensures View() == History.Initial("") && pending == None
    {
      entries := SortByLength(table);
      this.voice := voice;
      this.token := token;
      text := "";
      log := [];
      idx := 0;
      draft := "";
      pending := None;
    }

    /**
     * `checkVoiceCommand`: with voice send on, any armed trigger is dropped
     * and the trailing word of the textarea decides afresh.
     */
    method CheckVoiceCommand()
      requires Valid()
      modifies this`pending
      ensures Valid()
      ensures VoiceOn(voice) ==> pending == Decide(voice.value, text)
      ensures !VoiceOn(voice) ==> pending == old(pending)
    {
      if voice.None? || !voice.value.enabled {
        return;
      }
      pending := None;
      var t := TrimEnd(text);
      if t == [] {
        return;
      }
      var w := LowerStr(LastToken(t));
      LastWordEndsBuffer(text, w);
      if Includes(voice.value.sendWords, w) {
        pending := Some(Trigger(w, Send));
      } else if Includes(voice.value.clearWords, w) {
        pending := Some(Trigger(w, Clear));
      }
    }

    /**
     * The `input` listener: the edited textarea is rewritten by the
     * substitutions, then the voice trigger is decided on the result.
     * `pos` is the caret after the edit; the caret afterwards is returned.
     */
    method Input(edited: string, pos: nat) returns (caret: nat)
      requires Valid() && pos <= |edited|
      modifies this
      ensures Valid()
      ensures text == RewriteWith(entries, edited).text
      ensures caret == Caret(edited, RewriteWith(entries, edited), pos) && caret <= |text|
      ensures pending == (if VoiceOn(voice) then Decide(voice.value, text) else None)
      ensures log == old(log) && idx == old(idx) && draft == old(draft)
    {
      text, caret := ApplySubstitutions(entries, edited, pos);
      CheckVoiceCommand();
    }

    /** `clearText`. */
    method ClearText()
      requires Valid()
      modifies this`text
      ensures Valid()
      ensures View() == old(View()).(text := "")
    {
      text := "";
    }

    /**
     * `doSend`: nothing for an empty textarea; otherwise the request is
     * made, and a successful answer records the text in the history.
     */
    method DoSend(outcome: Delivery) returns (req: Option<Request>)
      requires Valid()
      modifies this`log, this`idx, this`draft, this`text
      ensures Valid()
      ensures req == RequestFor(old(View()), token)
      ensures View() == AfterSend(old(View()), outcome)
    {
      if text == "" {
        return None;
      }
      req := Some(Request(TokenParam(token), text));
      if Delivered(outcome) {
        log := log + [text];
        idx := |log|;
        draft := "";
        text := "";
      }
    }

    /** `histBack`; the armed trigger is left as it is. */
    method HistBack()
      requires Valid()
      modifies this`idx, this`draft, this`text
      ensures Valid()
      ensures View() == History.Back(old(View()))
    {
      if idx <= 0 {
        return;
      }
      if idx == |log| {
        draft := text;
      }
      idx := idx - 1;
      text := log[idx];
    }

    /** `histForward`; the armed trigger is left as it is. */
    method HistForward()
      requires Valid()
      modifies this`idx, this`text
      ensures Valid()
      ensures View() == History.Forward(old(View()))
    {
      if idx >= |log| {
        return;
      }
      idx := idx + 1;
      text := if idx < |log| then log[idx] else draft;
    }

    /**
     * The armed timer runs: the trigger word is cut from the end of the
     * textarea as it is now, then the page sends or clears.
     */
    method Fire(outcome: Delivery) returns (req: Option<Request>)
      requires Valid() && pending.Some?
      modifies this
      ensures Valid() && pending == None
      ensures CutAtLeftmostMatch(old(text), old(pending).value.word, StripTrigger(old(text), old(pending).value.word))
      ensures var t := old(pending).value;
        var cut := old(View()).(text := StripTrigger(old(text), t.word));
        if t.action == Send then req == RequestFor(cut, token) && View() == AfterSend(cut, outcome)
        else req == None && View() == cut.(text := "")
    {
      var t := pending.value;
      StripIsLeftmostMatch(text, t.word);
      pending := None;
      text := StripTrigger(text, t.word);
      if t.action == Send {
        req := DoSend(outcome);
      } else {
        ClearText();
        req := None;
      }
    }
  }

  // ---------------------------------------------------------------------
  // The page and the server together
  // ---------------------------------------------------------------------

  /**
   * A page loaded with the server's token is let through by `/send`, and
   * one without a token is refused unless the token in use is the string
   * "null".
   */
  lemma {:induction false} RequestPassesGate(s: Server.Settings, serverToken: string, pageToken: Option<string>,
                          text: string, status: Server.Command -> Server.ExitStatus)
    requires s.useToken
    ensures pageToken == Some(serverToken) ==>
      Server.Send(s, serverToken, Some(TokenParam(pageToken)), Some(text), status).0 != Server.Forbidden
    ensures pageToken.None? && serverToken != "null" ==>
      Server.Send(s, serverToken, Some(TokenParam(pageToken)), Some(text), status) == (Server.Forbidden, [])
  {
    Server.SendChecksTokenFirst(s, serverToken, Some(TokenParam(pageToken)), Some(text), status);
  }

  /**
   * `res.ok` holds for the answer of `/send` exactly when the text was
   * injected, so the page records a send in its history exactly then.
   */
  lemma {:induction false} RecordedIffSent(s: Server.Settings, serverToken: string, supplied: Option<string>,
                        n: History.Nav, status: Server.Command -> Server.ExitStatus)
    requires History.Valid(n) && n.text != ""
    ensures var reply := Server.Send(s, serverToken, supplied, Some(n.text), status).0;
      && (Delivered(Answered(Server.StatusOf(reply))) <==> reply == Server.Sent)
      && AfterSend(n, Answered(Server.StatusOf(reply))) == (if reply == Server.Sent then History.Record(n) else n)
  {
  }

  /**
   * The permanent link end to end: after the first start the QR code
   * carries the token and the page caches it; on a later start the QR code
   * is the bare URL, `/` serves the page without a token, and the page's
   * cached token is accepted by `/send`.
   */
  lemma {:induction false} PermanentLinkFlow(s: Server.Settings, stored: Option<string>, drawn: string, drawn': string,
                          cached: Option<string>, text: string, status: Server.Command -> Server.ExitStatus)
    requires s.permanent && s.useToken && drawn != ""
    ensures var first := Server.ResolveToken(true, false, true, stored, drawn);
      var qr1 := Server.QrToken(s, first);
      var (token1, cache1) := PickToken(qr1, cached);
      var second := Server.ResolveToken(true, false, true, first.storedAfter, drawn');
      var qr2 := Server.QrToken(s, second);
      var (token2, cache2) := PickToken(qr2, cache1);
      && (first.isNew ==> qr1 == Some(first.token) && token1 == Some(first.token))
      && qr2.None?
      && Server.Index(s, second, qr2) == Server.EditingPage(Some(second.token))
      && (first.isNew ==>
            (token2 == Some(second.token)
             && Server.Send(s, second.token, Some(TokenParam(token2)), Some(text), status).0 != Server.Forbidden))
  {
    var first := Server.ResolveToken(true, false, true, stored, drawn);
    Server.PermanentTokenSurvivesRestart(false, stored, drawn, drawn');
  }
}
