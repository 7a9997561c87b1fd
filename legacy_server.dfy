/**
 * The Python side of the packaged `input-from-web.py` (under
 * `debian/.../usr/share/input-from-web/`): the same gate and `/send`
 * ordering as the main program, but no permanent link, no auto-paste, and
 * `/` always checks the token. The commands, the oracle and the replies
 * are those of module Server.
 */
module LegacyServer {
  import opened Options
  import opened Server

  /** What `main` keeps: `METHOD` and `USE_TOKEN`. */
  datatype LegacySettings = LegacySettings(injection: Method, useToken: bool)

  function ChooseLegacySettings(methodArg: Option<string>, profileMethod: Json,
                                useToken: Json): (s: LegacySettings)
    ensures s.injection == ChooseMethod(methodArg, profileMethod)
    ensures !s.useToken <==> useToken in {Null, Bool(false), Num(0), Str("")}
  {
    LegacySettings(ChooseMethod(methodArg, profileMethod), FlagOr(useToken, true))
  }

  /**
   * `index`: the token is checked on every page load. The page embeds the
   * profile, so a `permanent_token` stored there (`stored`) goes with it.
   */
  function LegacyIndex(s: LegacySettings, token: string, stored: Option<string>,
                       supplied: Option<string>): (r: Reply)
    ensures r == Forbidden || r == EditingPage(stored)
    ensures r == Forbidden <==> s.useToken && supplied != Some(token)
  {
    if !TokenAccepted(s.useToken, token, supplied) then Forbidden else EditingPage(stored)
  }

  /** `inject_text`: one program, never a paste keystroke. */
  function LegacyPlan(m: Method, text: string): (p: seq<Step>)
    ensures |p| == 1 && p[0].Run?
    ensures m == Type ==> p[0].cmd == TypeCommand(text)
    ensures m == Clipboard ==> p[0].cmd == CopyCommand(text)
  {
    match m
    case Type => [Run(TypeCommand(text))]
    case Clipboard => [Run(CopyCommand(text))]
  }

  /** `send`: token, then text, then the injection. */
  function LegacySend(s: LegacySettings, token: string, supplied: Option<string>, body: Body,
                      status: Command -> ExitStatus): (r: (Reply, seq<Command>))
    ensures r.0 in {Forbidden, EmptyText, InjectionFailed, Sent, ServerError}
  {
    if !TokenAccepted(s.useToken, token, supplied) then (Forbidden, [])
    else if body.None? || body.value == "" then (EmptyText, [])
    else
      var (outcome, ran) := Execute(LegacyPlan(s.injection, body.value), status);
      match outcome
      case Injected => (Sent, ran)
      case ProcessError => (InjectionFailed, ran)
      case OtherError => (ServerError, ran)
  }

  /** The packaged `/send` behaves like the main one with auto-paste off. */
  lemma {:induction false} LegacySendIsSendWithoutPaste(s: LegacySettings, token: string, supplied: Option<string>,
                                     body: Body, status: Command -> ExitStatus, permanent: bool)
    ensures LegacySend(s, token, supplied, body, status)
            == Send(Settings(s.injection, false, s.useToken, permanent), token, supplied, body, status)
  {
    if TokenAccepted(s.useToken, token, supplied) && body.Some? && body.value != "" {
      assert LegacyPlan(s.injection, body.value) == Plan(s.injection, false, body.value);
    }
  }

  /**
   * The packaged gate: 403 exactly when the token is wrong, on both routes,
   * and a refused or empty request starts no program.
   */
  lemma {:induction false} LegacyGate(s: LegacySettings, token: string, stored: Option<string>,
                   supplied: Option<string>, body: Body, status: Command -> ExitStatus)
    ensures LegacySend(s, token, supplied, body, status).0 == Forbidden
            <==> LegacyIndex(s, token, stored, supplied) == Forbidden
    ensures LegacySend(s, token, supplied, body, status).0 == Forbidden
            <==> s.useToken && supplied != Some(token)
    ensures LegacySend(s, token, supplied, body, status).0 in {Forbidden, EmptyText}
            ==> LegacySend(s, token, supplied, body, status).1 == []
  {
  }

  /** Exactly one program is started for an accepted request with text, and it is never a paste. */
  lemma {:induction false} LegacyRunsOneProgram(s: LegacySettings, token: string, supplied: Option<string>, text: string,
                             status: Command -> ExitStatus)
    requires TokenAccepted(s.useToken, token, supplied) && text != ""
    ensures var (reply, ran) := LegacySend(s, token, supplied, Some(text), status);
      |ran| == 1 && ran[0] != PasteCommand && ran[0].argv[|ran[0].argv| - 1] == text
      && (reply == Sent <==> status(ran[0]) == Exited(0))
      && (reply == InjectionFailed <==> status(ran[0]).Exited? && status(ran[0]) != Exited(0))
  {
  }

  /** The printed URL (and QR code) carries the token exactly when it is in use. */
  function LegacyQrToken(s: LegacySettings, token: string): (t: Option<string>)
    ensures t.Some? <==> s.useToken
    ensures t.Some? ==> t.value == token
  {
    if s.useToken then Some(token) else None
  }
}
