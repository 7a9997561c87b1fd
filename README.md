# input-from-web, modelled in Dafny

input-from-web lets a phone type into the focused desktop application. A
small Flask server serves an editing page; the page rewrites dictation
phrases as you type, arms a voice "send"/"clear" trigger on the last word,
keeps a history of sent messages, and posts the text to `/send`, where the
server checks the security token and injects the text with `ydotool` or
`wl-copy`. A packaged, older copy of the program has the same editing logic
without history, permanent link or auto-paste.

This project models the decision logic of both copies:

- `text.dfy` (module `Text`): the ECMAScript whitespace class `\s` written
  out as an explicit character set, ASCII lower-casing, `trimEnd`.
- `substitution.dfy` (module `Substitution`): the substitution table sorted
  longest phrase first, the global case-insensitive whole-word replace
  `(^|\s)PHRASE(?=\s|$)` as a left-to-right scan, one pass per phrase, the
  `changed` flag, and the caret correction; the loop of `applySubstitutions`
  is a method proved equal to the pure functions `RewriteWith` and `Caret`.
- `voice.dfy` (module `Voice`): the last word of the trimmed buffer, the
  send-before-clear decision, `escapeRegex`, and the removal of
  `\s*WORD\s*$` when the armed timer fires.
- `history.dfy` (module `History`): the sent-message log, its cursor, the
  draft slot and the navigation buttons, as pure transitions.
- `client.dfy` (module `Client`): the page of the main program as a class
  whose methods are the page's event handlers (`input`, the buttons, the
  voice timer firing), each proved against the pure functions above.
- `server.dfy` (module `Server`): `check_token`, `/`, `/send` with its
  403 → 400 → 500 order, `inject_text` as a plan of commands run against an
  oracle for their exit status, the settings and permanent-link token
  chosen in `main`, and the token in the QR code's URL. In permanent-link
  mode `/` skips the token check and the page embeds the whole profile,
  `permanent_token` included, so a request for the bare URL receives the
  token that `/send` accepts (`Server.PermanentPageRevealsToken`).
- `legacy_server.dfy`, `legacy_client.dfy` (modules `LegacyServer`,
  `LegacyClient`): the packaged copy.
- `examples_worked.dfy` (module `Worked`): the default dictation table on
  "hello full stop new line world", and a voice "send" fired or disarmed.
  The examples are stated for every text of the given shape; lemmas show
  the literal texts have that shape.
- `options.dfy`: the `Option` datatype.

The clock, the network, the browser's storage, random token generation and
the programs started are parameters: the fetch outcome is a `Delivery`, the
drawn token is an argument, and a function `Command -> ExitStatus` says how
each program ends.

## Model

Paths are relative to the repository root; `debian/.../input-from-web.py`
is written out in full.

| member | source | states |
|---|---|---|
| Text.TrimEnd | input-from-web.py:263 | `trimEnd` returns a prefix of the buffer, followed only by whitespace, that is empty or ends in a non-space |
| Text.TrimEndUnique | input-from-web.py:263 | those three properties determine the trimmed buffer uniquely |
| Text.TrimEndIdempotent | input-from-web.py:263 | trimming twice is trimming once |
| Text.Lower | input-from-web.py:267 | `toLowerCase` on one character: A–Z move to a–z, everything else is kept |
| Text.LowerKeepsSpace | input-from-web.py:267 | lower-casing never turns whitespace into non-whitespace or back |
| Substitution.SortByLength | input-from-web.py:234-235 | `subEntries` is sorted by descending phrase length and is a permutation of the table |
| Substitution.InsertKeepsDescending | input-from-web.py:235 | one insertion step of the sort keeps the order descending |
| Substitution.InsertIsPermutation | input-from-web.py:235 | one insertion step adds exactly the inserted entry |
| Substitution.SortKeepsOrderWithinLength | input-from-web.py:235 | the sort is stable: entries whose phrases have the same length keep their table order |
| Substitution.ScanUpToMatch | input-from-web.py:241-243 | the global replace (`ReplaceFrom`, the scan inside `ReplaceAll`) takes the leftmost match: every character before it, and the whitespace the match starts with, is kept verbatim and in order, then comes the replacement, and the scan resumes after the phrase |
| Substitution.ScanWithoutMatch | input-from-web.py:241-243 | past the last match the global replace keeps the rest of the text verbatim |
| Substitution.ReplaceAllLength | input-from-web.py:243 | `ReplaceAll`: the replaced text's length is the old length plus the number of matches times the length difference |
| Substitution.CountPositiveIffMatches | input-from-web.py:241-242 | `re.test` (`Matches`) is true exactly when the global replace finds at least one match |
| Substitution.NoMatchKeepsText | input-from-web.py:242-243 | a phrase that does not match leaves the text as it is |
| Substitution.MatchWithNewLengthChangesText | input-from-web.py:242-244 | a match whose replacement has another length changes the text's length |
| Substitution.PhraseCaseIrrelevant | input-from-web.py:241 | the `i` flag: phrases equal up to case replace identically |
| Substitution.TextCaseIrrelevant | input-from-web.py:241-242 | the `i` flag: texts equal up to case match a phrase alike |
| Substitution.UnchangedKeepsText | input-from-web.py:238-247 | `RewriteWith`: when no phrase matched, the text is the textarea's value unchanged |
| Substitution.ChangedIffSomePhraseMatched | input-from-web.py:239-245 | `changed` is set exactly when some phrase matched the text as it stood at that phrase's turn |
| Substitution.CaretWithinText | input-from-web.py:247-251 | `Caret`: the corrected caret `max(0, pos - diff)` lies within the new text |
| Substitution.ApplySubstitutions | input-from-web.py:237-253 | the loop computes the text of `RewriteWith` and the caret of `Caret` (each phrase once, longest first; caret moved by the whole-text length change, clamped at 0, only when something changed) |
| Voice.LastToken | input-from-web.py:266-267 | the last element of `split(/\s+/)`: a whitespace-free suffix preceded by whitespace or the start |
| Voice.LastTokenUnique | input-from-web.py:266-267 | those properties determine the last token uniquely |
| Voice.LastWordShape | input-from-web.py:263-267 | `LastWord`: there is no last word exactly when the buffer is all whitespace; otherwise it is the lower-cased maximal run of non-whitespace followed only by whitespace |
| Voice.Decide | input-from-web.py:263-274 | a trigger is armed exactly when the last word is a send or a clear word; it is a send exactly when the word is a send word |
| Voice.SendWordsComeFirst | input-from-web.py:273-274 | a word that is both a send and a clear word arms a send |
| Voice.StripIsLeftmostMatch | input-from-web.py:280-281 | `StripTrigger`, the fired timer's non-global replace of `\s*WORD\s*$` (case-insensitive) cuts the buffer at the leftmost position where the expression matches, or keeps it when it does not match |
| Voice.FireRemovesTriggerWord | input-from-web.py:276-281 | firing on the buffer that armed the trigger removes exactly the trailing word and the whitespace around it, keeping a prefix that does not end in whitespace |
| Voice.LastWordEndsBuffer | input-from-web.py:263-267 | the last word is non-empty, lower-case, whitespace-free, and the trimmed buffer ends with it up to case |
| Voice.LowerStrIdempotent | input-from-web.py:267-270 | lower-casing twice is lower-casing once |
| Voice.EscapeRegexIsLiteral | input-from-web.py:230-232 | `escapeRegex` (`EscapeRegex`) yields a pattern made only of ordinary characters and backslash-escaped special characters (no class escapes such as `\d`), which matches exactly the original string |
| Voice.LiteralPatternUnique | input-from-web.py:230-232 | every such literal pattern for a string is the one `escapeRegex` produces: each special character is escaped and nothing else is |
| History.Initial | input-from-web.py:195-197 | the page starts with an empty history and the cursor on the draft |
| History.Back | input-from-web.py:210-217 | `histBack`: a no-op at 0; otherwise the cursor moves back, shows that entry, and the textarea is saved as the draft only when leaving the draft |
| History.Forward | input-from-web.py:219-225 | `histForward`: a no-op on the draft; otherwise the cursor moves on and shows the next entry or, at the end, the draft |
| History.Record | input-from-web.py:311-315 | a delivered send appends the text (no deduplication, older entries untouched) and returns to an empty draft |
| History.ButtonsMatchMoves | input-from-web.py:199-208 | `updateNav` (`NavButtons`): a button is enabled exactly when pressing it changes the state; the label is `idx + 1 / length + 1`, shown once something was sent |
| History.BackFromDraft | input-from-web.py:210-214 | going back `k` times from the draft saves the draft once and shows entry `length - k` |
| History.ForwardToDraft | input-from-web.py:219-222 | going forward to the end from a past entry shows the draft |
| History.ForwardShift | input-from-web.py:219-222 | `k + 1` forward moves are one move followed by `k` |
| History.DraftRestored | input-from-web.py:187-225 | going back `k` times and forward `k` times restores the textarea, with the draft now holding it |
| History.LogOnlyGrows | input-from-web.py:187-318 | no sequence of button presses and sends removes or changes a sent entry |
| History.SendingTwiceKeepsBoth | input-from-web.py:192-193 | sending the same text twice records it twice |
| History.NavigationExample | input-from-web.py:210-225 | back from the draft over two entries, a no-op at 0, then forward to the draft again |
| Client.TokenParam | input-from-web.py:306 | the `token` query parameter is the page's token, or `"null"` when it has none |
| Client.PickToken | input-from-web.py:165-172 | a non-empty URL token is used and cached; otherwise the cached one is used |
| Client.RequestFor | input-from-web.py:300-310 | `doSend` makes no request for an empty textarea, otherwise one with the textarea and the token |
| Client.AfterSend | input-from-web.py:311-321 | only a response with a 2xx status records the text; a failure keeps the state |
| Client.DeliveredSendAppends | input-from-web.py:311-315 | a delivered send appends exactly the text that was sent, and the draft and textarea are emptied |
| Client.FailedSendKeepsState | input-from-web.py:319-324 | an error status or a network error changes nothing |
| Client.Page.constructor | input-from-web.py:165-235 | the page loads with the table sorted longest phrase first, an empty textarea, an empty history with the cursor on the draft, and nothing armed |
| Client.Page.View | input-from-web.py:195-197 | the page's history state as a `History.Nav` |
| Client.Page.CheckVoiceCommand | input-from-web.py:258-286 | with voice send off nothing changes; otherwise any armed trigger is replaced by the decision on the current text |
| Client.Page.Input | input-from-web.py:288-291 | an edit rewrites the textarea and the caret by the substitutions, then re-decides the trigger on the result; the history is untouched |
| Client.Page.ClearText | input-from-web.py:294-298 | only the textarea is emptied |
| Client.Page.DoSend | input-from-web.py:300-327 | the request and the new history state are those of `RequestFor` and `AfterSend` |
| Client.Page.HistBack | input-from-web.py:210-217 | the page moves as `History.Back`; the armed trigger is not cancelled |
| Client.Page.HistForward | input-from-web.py:219-225 | the page moves as `History.Forward`; the armed trigger is not cancelled |
| Client.Page.Fire | input-from-web.py:278-284 | the timer disarms, cuts the current textarea at the leftmost position where `\s*WORD\s*$` matches ignoring case (nothing is cut when it does not match), then sends or clears |
| Client.RecordedIffSent | input-from-web.py:306-322 | `res.ok` holds for the answer to `/send` exactly when the text was injected (`{"ok": True}`), and the history records the text exactly then |
| Client.RequestPassesGate | input-from-web.py:375-377 | a page holding the server's token passes `/send`; a page without a token is refused unless the server's token is `"null"` |
| Client.PermanentLinkFlow | input-from-web.py:430-471 | permanent link end to end: the first QR code carries the new token and the page caches it; later starts show the bare URL, `/` serves the page with the token in its profile, and the cached token passes `/send` |
| Server.ChooseMethod | input-from-web.py:425 | a non-empty `--method` wins; otherwise a missing `method` key means `type`, and a profile value selects typing only when it is the string `"type"` (`null`, a boolean or a number selects the clipboard) |
| Server.ChooseSettings | input-from-web.py:425-428 | a missing `auto_paste` means off and a missing `use_security_token` means on; a present value counts by Python truthiness (`null`, `false`, `0` and `""` are off); a refresh implies the permanent link |
| Server.ResolveToken | input-from-web.py:431-445 | without the permanent link (or without a token) the drawn token is used; a stored token is reused unless refreshed; otherwise the drawn token is stored and marked new |
| Server.QrToken | input-from-web.py:455-471 | the QR URL carries the token exactly when it is in use, except for a permanent link whose token is not new |
| Server.Index | input-from-web.py:380-387 | `/` refuses with 403 exactly when not in permanent mode, the token is in use and the supplied one differs; otherwise the page embeds the profile, whose `permanent_token` is the one `main` left there |
| Server.PermanentPageRevealsToken | input-from-web.py:380-387 | in permanent mode with the token in use, `/` asked without a token returns a page whose profile holds exactly the token `/send` accepts |
| Server.OrdinaryPageNeedsToken | input-from-web.py:380-387 | without the permanent link, `/` serves the page (and the stored `permanent_token` in it) exactly to a request carrying the token |
| Server.Plan | input-from-web.py:349-372 | `type` runs one `ydotool type`; the clipboard runs `wl-copy` and, with auto-paste, waits 100 ms and sends ctrl+v |
| Server.Execute | input-from-web.py:352-372 | programs run in order until one does not exit with 0; the outcome says which kind of failure stopped them |
| Server.RunsOf | input-from-web.py:349-372 | the programs of a plan are exactly its `Run` steps |
| Server.ExecuteRunsAll | input-from-web.py:349-372 | when nothing fails every program of the plan ran, in order |
| Server.ExecuteReports | input-from-web.py:352-372 | success exactly when every program exits with 0; `CalledProcessError` exactly when the last program started exited with another code; another exception exactly when it timed out or could not start |
| Server.Send | input-from-web.py:390-402 | `/send` answers only 403, 400, the JSON 500, `{"ok": True}` or Flask's own 500 |
| Server.SendChecksTokenFirst | input-from-web.py:375-392 | `check_token` (`TokenAccepted`) runs first: 403 exactly when the token is in use and the supplied one differs, and then no program is started |
| Server.EmptyTextInjectsNothing | input-from-web.py:393-396 | an accepted request is a 400 exactly when the text is missing or empty, and then no program is started |
| Server.SendReportsInjection | input-from-web.py:397-402 | `{"ok": True}` exactly when every program exits with 0 (and all ran); the JSON 500 exactly on a non-zero exit; Flask's 500 on a timeout or a program that cannot start |
| Server.TextFollowsDoubleDash | input-from-web.py:349-372 | the text is the last argument of every program but the paste, right after `--` |
| Server.PasteOnlyWhenAsked | input-from-web.py:358-372 | ctrl+v is sent exactly with the clipboard method and auto-paste, and then the programs are `wl-copy` with the text followed by the paste |
| Server.RefreshImpliesPermanent | input-from-web.py:428 | `--permanent-link-refresh` turns on the permanent link |
| Server.PermanentTokenSurvivesRestart | input-from-web.py:432-445 | once stored, a later start without refresh reuses the token and writes nothing |
| Server.RefreshRevokesOldToken | input-from-web.py:431-445 | after a refresh the previous token is refused by `/send` |
| Server.QrOmitsOnlyKnownPermanentToken | input-from-web.py:458-471 | with the token in use the QR URL is bare exactly in permanent mode, without refresh, with a non-empty stored token |
| Server.NoTokenNoGate | input-from-web.py:375-377 | without the token every request passes, `/` serves the page with the profile as stored, and the URL carries no token |
| LegacyServer.ChooseLegacySettings | debian/input-from-web/usr/share/input-from-web/input-from-web.py:325-326 | the packaged copy's method and token: the same choice as the main program, a `use_security_token` of `null`, `false`, `0` or `""` turning the gate off |
| LegacyServer.LegacyIndex | debian/input-from-web/usr/share/input-from-web/input-from-web.py:289-293 | `/` always applies the token check: 403 exactly when the token is in use and differs; otherwise the page embeds the profile with any `permanent_token` stored in it |
| LegacyServer.LegacyPlan | debian/input-from-web/usr/share/input-from-web/input-from-web.py:265-281 | exactly one program: `ydotool type` for `type`, `wl-copy` otherwise |
| LegacyServer.LegacySend | debian/input-from-web/usr/share/input-from-web/input-from-web.py:296-308 | the packaged `/send` answers only 403, 400, the JSON 500, ok or Flask's 500 |
| LegacyServer.LegacySendIsSendWithoutPaste | debian/input-from-web/usr/share/input-from-web/input-from-web.py:296-308 | the packaged `/send` is the main one with auto-paste off |
| LegacyServer.LegacyGate | debian/input-from-web/usr/share/input-from-web/input-from-web.py:284-302 | both routes refuse exactly the same requests; a refused or empty request starts no program |
| LegacyServer.LegacyRunsOneProgram | debian/input-from-web/usr/share/input-from-web/input-from-web.py:265-281 | an accepted request with text starts one program, never a paste, carrying the text; ok exactly on exit 0, the JSON 500 exactly on another exit code |
| LegacyServer.LegacyQrToken | debian/input-from-web/usr/share/input-from-web/input-from-web.py:336-339 | the printed URL carries the token exactly when it is in use |
| LegacyClient.LegacyPage.constructor | debian/input-from-web/usr/share/input-from-web/input-from-web.py:138-155 | the page loads with the table sorted longest phrase first, an empty textarea and nothing armed |
| LegacyClient.LegacyPage.CheckVoiceCommand | debian/input-from-web/usr/share/input-from-web/input-from-web.py:178-206 | as in the main page: off leaves the trigger; on re-decides it from the current text |
| LegacyClient.LegacyPage.Input | debian/input-from-web/usr/share/input-from-web/input-from-web.py:157-211 | an edit rewrites text and caret by the substitutions, longest phrase first, then re-decides the trigger |
| LegacyClient.LegacyPage.ClearText | debian/input-from-web/usr/share/input-from-web/input-from-web.py:214-218 | the textarea is emptied |
| LegacyClient.LegacyPage.DoSend | debian/input-from-web/usr/share/input-from-web/input-from-web.py:220-243 | nothing for an empty textarea; otherwise one request with the URL token, and a delivered send only empties the textarea |
| LegacyClient.LegacyPage.Fire | debian/input-from-web/usr/share/input-from-web/input-from-web.py:198-204 | the timer disarms, cuts the textarea at the leftmost match of `\s*WORD\s*$` ignoring case (nothing when it does not match), then sends or clears |
| Worked.DictationExample | input-from-web.py:237-253 | with the default "full stop" and "new line" entries, "hello full stop new line world" becomes "hello . \n world" and a caret at the end of the typed text lands at the end of the result |
| Worked.HelloSendArms | input-from-web.py:258-286 | with the default send word, "hello send" arms a send and firing leaves "hello" |
| Worked.OneMoreCharacterDisarms | input-from-web.py:261-274 | "hello sendx" arms nothing |
| Worked.VoiceSendExample | input-from-web.py:258-315 | on the page: "hello send" arms, and firing sends "hello"; a further edit to "hello sendx" leaves nothing armed |

## Left out

- Flask routing and `request.get_json`: a body that is not JSON, or JSON that is not an object, makes `send` fail in Flask before the text check; the model takes the `text` field as given (`None` when missing or `null`), and a non-string `text` is not modelled.
- `load_or_create_config`, `save_config` and the configuration file: the profile's values are parameters; `saved` in `Server.Startup` only records that the file is written back.
- `get_lan_ip`, the port choice, `app.run`, the QR code drawing and the printed warnings: network and terminal output.
- `subprocess.run` and `time.sleep`: each program's end is the oracle `Command -> ExitStatus`; the 100 ms pause is a `Sleep` step with no effect on the outcome.
- `secrets.token_urlsafe(32)`: the drawn token is a parameter; the lemmas that need it assume it is non-empty, as such a token always is.
- `setTimeout`, `clearTimeout` and `delay_seconds`: there is no clock; an armed trigger is a `pending` value and the timer running out is the `Fire` method.
- `fetch` is one atomic step whose outcome is a `Delivery`; other events that the browser could run while it is awaited, the disabled button and its label, focus, and the status line are not modelled.
- `localStorage`: the cache is a value passed to and returned from `Client.PickToken`.
- `encodeURIComponent` and Flask's query decoding are assumed to give the token back unchanged.
- Text.IsSpace: the set is the ECMAScript WhiteSpace and LineTerminator characters with the Zs (space separator) category of current Unicode written out; a character Unicode adds to Zs later is not in it.
- Text.Lower: ASCII letters only; `toLowerCase` also folds other letters.
- Lengths are counted in characters, not UTF-16 code units.
- Substitution.SortByLength: the order of `Object.entries` (integer-like keys come first in ascending order) is not modelled; the table is taken in its given order.
- The `delay_seconds || 1.5` default and the `send_words || []` defaults: the words are given as sequences.
- The caret moves by the change in the whole text's length, not by the change before the caret (input-from-web.py:247-251); a phrase replaced after the caret therefore moves the caret too.
- Only `input` events cancel an armed trigger (input-from-web.py:258-291); `Client.Page.HistBack` and `Client.Page.HistForward` leave it armed, as do the buttons, so a trigger armed before navigating fires on the text shown afterwards.
- Server.Json: a profile value that is a list, an object or a fraction is not modelled.
