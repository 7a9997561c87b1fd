/**
 * The script of the page served by the packaged `input-from-web.py`: the
 * same substitutions and voice trigger as the main page, but no history,
 * and the token comes from the page's URL only.
 */
module LegacyClient {
  import opened Options
  import opened Text
  import opened Substitution
  import opened Voice
  import Client

  class LegacyPage {
    const entries: seq<Entry>
    const voice: Option<VoiceConfig>
    /** `new URLSearchParams(location.search).get("token")`. */
    const token: Option<string>

    var text: string
    var pending: Option<Trigger>

    ghost predicate Valid()
      reads this
    {
      && Descending(entries)
      && (pending.Some? ==> VoiceOn(voice))
      && (pending.Some? ==> pending.value.word != [] && NoSpace(pending.value.word))
    }

    constructor(table: seq<Entry>, voice: Option<VoiceConfig>, token: Option<string>)
      ensures Valid()
      ensures entries == SortByLength(table) && this.voice == voice && this.token == token
      ensures text == "" && pending == None
    {
      entries := SortByLength(table);
      this.voice := voice;
      this.token := token;
      text := "";
      pending := None;
    }

    /** `checkVoiceCommand`, as in the main page. */
    method CheckVoiceCommand()
      requires Valid()
      modifies this`pending
      ensures Valid()
      ensures VoiceOn(voice) ==> pending == Decide(voice.value, text)
      ensures !VoiceOn(voice) ==> pending == old(pending)
    {
      if voice.None? || !voice.value.enabled {
        return;
      }
      pending := None;
      var t := TrimEnd(text);
      if t == [] {
        return;
      }
      var w := LowerStr(LastToken(t));
      LastWordEndsBuffer(text, w);
      if Includes(voice.value.sendWords, w) {
        pending := Some(Trigger(w, Send));
      } else if Includes(voice.value.clearWords, w) {
        pending := Some(Trigger(w, Clear));
      }
    }

    /** The `input` listener: substitutions, then the voice trigger. */
    method Input(edited: string, pos: nat) returns (caret: nat)
      requires Valid() && pos <= |edited|
      modifies this
      ensures Valid()
      ensures text == RewriteWith(entries, edited).text
      ensures caret == Caret(edited, RewriteWith(entries, edited), pos) && caret <= |text|
      ensures pending == (if VoiceOn(voice) then Decide(voice.value, text) else None)
    {
      text, caret := ApplySubstitutions(entries, edited, pos);
      CheckVoiceCommand();
    }

    method ClearText()
      requires Valid()
      modifies this`text
      ensures Valid() && text == ""
    {
      text := "";
    }

    /**
     * `doSend`: nothing for an empty textarea; otherwise the request is
     * made, and a successful answer only empties the textarea.
     */
    method DoSend(outcome: Client.Delivery) returns (req: Option<Client.Request>)
      requires Valid()
      modifies this`text
      ensures Valid()
      ensures old(text) == "" ==> req.None? && text == ""
      ensures old(text) != "" ==> req == Some(Client.Request(Client.TokenParam(token), old(text)))
      ensures old(text) != "" ==> text == (if Client.Delivered(outcome) then "" else old(text))
    {
      if text == "" {
        return None;
      }
      req := Some(Client.Request(Client.TokenParam(token), text));
      if Client.Delivered(outcome) {
        text := "";
      }
    }

    /** The armed timer runs: the trigger word is cut, then the page sends or clears. */
    method Fire(outcome: Client.Delivery) returns (req: Option<Client.Request>)
      requires Valid() && pending.Some?
      modifies this
      ensures Valid() && pending == None
      ensures CutAtLeftmostMatch(old(text), old(pending).value.word, StripTrigger(old(text), old(pending).value.word))
      ensures var t := old(pending).value;
        var cut := StripTrigger(old(text), t.word);
        if t.action == Send then
          (cut == "" ==> req.None? && text == "")
          && (cut != "" ==> req == Some(Client.Request(Client.TokenParam(token), cut))
                            && text == (if Client.Delivered(outcome) then "" else cut))
        else req == None && text == ""
    {
      var t := pending.value;
      StripIsLeftmostMatch(text, t.word);
      pending := None;
      text := StripTrigger(text, t.word);
      if t.action == Send {
        req := DoSend(outcome);
      } else {
        ClearText();
        req := None;
      }
    }
  }
}
