/**
 * The Python side of `input-from-web.py`: the token gate, the two request
 * handlers, the injection commands and the startup choices of `main`
 * (method, token, permanent link, the URL put in the QR code).
 *
 * Flask is not modelled: a request is its `token` query parameter and its
 * JSON `text` field, a reply is one of the responses the handlers return.
 * The external programs are an oracle from a command to how it ended.
 */
module Server {
  import opened Options

  // ---------------------------------------------------------------------
  // Settings resolved by main
  // ---------------------------------------------------------------------

  /** `METHOD`: `"type"` types the text, every other value goes through the clipboard. */
  datatype Method = Type | Clipboard

  /**
   * The value `PROFILE.get(key, default)` finds in the JSON profile: the key
   * is missing (the default is used), or holds `null`, a boolean, an integer
   * or a string.
   */
  datatype Json = Absent | Null | Bool(b: bool) | Num(n: int) | Str(s: string)

  /** Python's truth test of what `PROFILE.get(key, default)` returns. */
  predicate FlagOr(v: Json, default: bool) {
    match v
    case Absent => default
    case Null => false
    case Bool(b) => b
    case Num(n) => n != 0
    case Str(t) => t != ""
  }

  /**
   * `args.method or PROFILE.get("method", "type")`, then the test
   * `METHOD == "type"` of `inject_text`. An empty string is falsy in Python;
   * `null`, a boolean or a number in the profile never equals `"type"`.
   */
  function ChooseMethod(arg: Option<string>, profile: Json): (m: Method)
    ensures arg.Some? && arg.value != "" ==> (m == Type <==> arg.value == "type")
    ensures (arg.None? || arg.value == "") ==> (m == Type <==> profile in {Absent, Str("type")})
  {
    if arg.Some? && arg.value != "" then
      if arg.value == "type" then Type else Clipboard
    else
      match profile
      case Absent => Type
      case Str(t) => if t == "type" then Type else Clipboard
      case _ => Clipboard
  }

  /** What `main` keeps from the profile and the command line. */
  datatype Settings = Settings(injection: Method, autoPaste: bool, useToken: bool, permanent: bool)

  /**
   * `PERMANENT_LINK = args.permanent_link or args.permanent_link_refresh`;
   * `auto_paste` defaults to off and `use_security_token` to on, and each is
   * then used by its truth value.
   */
  function ChooseSettings(methodArg: Option<string>, profileMethod: Json,
                          autoPaste: Json, useToken: Json,
                          permanentFlag: bool, refreshFlag: bool): (s: Settings)
    ensures s.injection == ChooseMethod(methodArg, profileMethod)
    ensures !s.autoPaste <==> autoPaste in {Absent, Null, Bool(false), Num(0), Str("")}
    ensures !s.useToken <==> useToken in {Null, Bool(false), Num(0), Str("")}
    ensures s.permanent <==> permanentFlag || refreshFlag
  {
    Settings(ChooseMethod(methodArg, profileMethod),
             FlagOr(autoPaste, false),
             FlagOr(useToken, true),
             permanentFlag || refreshFlag)
  }

  // ---------------------------------------------------------------------
  // The token at startup and the URL in the QR code
  // ---------------------------------------------------------------------

  /** Python truthiness of `PROFILE.get("permanent_token")`. */
  predicate Truthy(v: Option<string>) {
    v.Some? && v.value != ""
  }

  /**
   * What `main` settles on: the token every request is checked against,
   * whether it was just generated for the permanent link, and the value of
   * the profile's `permanent_token` afterwards (`saved` when written back).
   */
  datatype Startup = Startup(token: string, isNew: bool, storedAfter: Option<string>, saved: bool)

  /**
   * The permanent-link block of `main`. `drawn` is the token
   * `secrets.token_urlsafe(32)` drew at import time.
   */
  function ResolveToken(permanent: bool, refresh: bool, useToken: bool,
                        stored: Option<string>, drawn: string): (r: Startup)
    ensures !(permanent && useToken) ==> r == Startup(drawn, false, stored, false)
    ensures permanent && useToken && Truthy(stored) && !refresh ==>
              r == Startup(stored.value, false, stored, false)
    ensures permanent && useToken && (refresh || !Truthy(stored)) ==>
              r == Startup(drawn, true, Some(drawn), true)
  {
    if permanent && useToken then
      var kept := if refresh && Truthy(stored) then None else stored;
      if Truthy(kept) then Startup(kept.value, false, stored, false)
      else Startup(drawn, true, Some(drawn), true)
    else Startup(drawn, false, stored, false)
  }

  /**
   * The token carried by the URL put in the QR code (`None`: the bare base
   * URL). `token_url` carries it when the token is in use; the permanent
   * link shows the bare URL once the token is no longer new.
   */
  function QrToken(s: Settings, st: Startup): (t: Option<string>)
    ensures t.Some? ==> t.value == st.token
    ensures t.Some? <==> s.useToken && !(s.permanent && !st.isNew)
  {
    if s.permanent && s.useToken then
      if st.isNew then Some(st.token) else None
    else if s.useToken then Some(st.token) else None
  }

  // ---------------------------------------------------------------------
  // The gate and the handlers
  // ---------------------------------------------------------------------

  /** The responses of the two routes. */
  datatype Reply =
    | Forbidden         // abort(403)
    | EmptyText         // {"error": "empty"}, 400
    | InjectionFailed   // {"error": "injection failed"}, 500
    | Sent              // {"ok": True}
    | ServerError       // an exception the handler does not catch: Flask's own 500
    | EditingPage(profileToken: Option<string>)
                        // the HTML page with the whole profile as its CONFIG,
                        // `permanent_token` included

  /** The HTTP status code of each reply. */
  function StatusOf(r: Reply): int {
    match r
    case Forbidden => 403
    case EmptyText => 400
    case InjectionFailed => 500
    case Sent => 200
    case ServerError => 500
    case EditingPage(_) => 200
  }

  /**
   * `check_token`: a request passes unless the token is in use and the
   * query parameter (absent: `None`) differs from it.
   */
  predicate TokenAccepted(useToken: bool, token: string, supplied: Option<string>) {
    !useToken || supplied == Some(token)
  }

  /**
   * `index`: the permanent link serves the page without looking at the
   * token. The page embeds the profile as `main` left it, so its
   * `permanent_token` is the one `st` records.
   */
  function Index(s: Settings, st: Startup, supplied: Option<string>): (r: Reply)
    ensures r == Forbidden || r == EditingPage(st.storedAfter)
    ensures r == Forbidden <==> !s.permanent && s.useToken && supplied != Some(st.token)
  {
    if !s.permanent && !TokenAccepted(s.useToken, st.token, supplied) then Forbidden
    else EditingPage(st.storedAfter)
  }

  /** One external program run by `subprocess.run(..., check=True, timeout=...)`. */
  datatype Command = Command(argv: seq<string>, timeoutSeconds: nat, quiet: bool)

  /** A step of `inject_text`: run a program, or `time.sleep`. */
  datatype Step = Run(cmd: Command) | Sleep(millis: nat)

  const TypeTimeout: nat := 30
  const ClipboardTimeout: nat := 5
  const PasteTimeout: nat := 5
  const PasteSettleMillis: nat := 100

  function TypeCommand(text: string): Command {
    Command(["ydotool", "type", "--key-delay", "0", "--", text], TypeTimeout, false)
  }

  /** `wl-copy` runs with its standard streams on `/dev/null`. */
  function CopyCommand(text: string): Command {
    Command(["wl-copy", "-o", "--", text], ClipboardTimeout, true)
  }

  const PasteCommand: Command := Command(["ydotool", "key", "--delay", "100", "ctrl+v"], PasteTimeout, false)

  /** The steps `inject_text` takes for a text. */
  function Plan(m: Method, autoPaste: bool, text: string): (p: seq<Step>)
    ensures m == Type ==> p == [Run(TypeCommand(text))]
    ensures m == Clipboard && !autoPaste ==> p == [Run(CopyCommand(text))]
    ensures m == Clipboard && autoPaste ==>
              p == [Run(CopyCommand(text)), Sleep(PasteSettleMillis), Run(PasteCommand)]
  {
    match m
    case Type => [Run(TypeCommand(text))]
    case Clipboard =>
      [Run(CopyCommand(text))] + (if autoPaste then [Sleep(PasteSettleMillis), Run(PasteCommand)] else [])
  }

  /** How a program ended: its exit code, killed at its timeout, or never started. */
  datatype ExitStatus = Exited(code: int) | TimedOut | CannotStart

  /**
   * How `inject_text` ended: every program exited with 0; one exited with
   * another code (`CalledProcessError`); or one raised something else
   * (`TimeoutExpired`, `FileNotFoundError`).
   */
  datatype Injection = Injected | ProcessError | OtherError

  /**
   * Running a plan: the programs run in order and the first one that does
   * not exit with 0 stops the rest. Returns the outcome and the programs
   * that were started.
   */
  function Execute(plan: seq<Step>, status: Command -> ExitStatus): (r: (Injection, seq<Command>))
    ensures |r.1| <= |plan|
    ensures r.0 == Injected <==> forall i :: 0 <= i < |plan| && plan[i].Run? ==> status(plan[i].cmd) == Exited(0)
    ensures forall c :: c in r.1 ==> Run(c) in plan
    ensures r.0 != Injected ==> r.1 != [] && status(r.1[|r.1| - 1]) != Exited(0)
    ensures r.0 == ProcessError ==> r.1 != [] && status(r.1[|r.1| - 1]).Exited?
    ensures r.0 == OtherError ==> r.1 != [] && !status(r.1[|r.1| - 1]).Exited?
  {
    if plan == [] then (Injected, [])
    else
      assert forall i :: 1 <= i < |plan| ==> plan[i] == plan[1..][i - 1];
      assert forall st :: st in plan[1..] ==> st in plan;
      match plan[0]
      case Sleep(_) => Execute(plan[1..], status)
      case Run(c) =>
        match status(c)
        case Exited(code) =>
          if code == 0 then
            var rest := Execute(plan[1..], status);
            (rest.0, [c] + rest.1)
          else (ProcessError, [c])
        case TimedOut => (OtherError, [c])
        case CannotStart => (OtherError, [c])
  }

  /** The JSON body's `text`: `None` when the field is missing or `null`. */
  type Body = Option<string>

  /**
   * `send`: the token first, then the text, then the injection; only a
   * `CalledProcessError` is turned into the JSON 500. Returns the reply and
   * the programs started.
   */
  function Send(s: Settings, token: string, supplied: Option<string>, body: Body,
                status: Command -> ExitStatus): (r: (Reply, seq<Command>))
    ensures r.0 in {Forbidden, EmptyText, InjectionFailed, Sent, ServerError}
  {
    if !TokenAccepted(s.useToken, token, supplied) then (Forbidden, [])
    else if body.None? || body.value == "" then (EmptyText, [])
    else
      var (outcome, ran) := Execute(Plan(s.injection, s.autoPaste, body.value), status);
      match outcome
      case Injected => (Sent, ran)
      case ProcessError => (InjectionFailed, ran)
      case OtherError => (ServerError, ran)
  }

  /** 403 exactly when the token is wrong, and then no program is started. */
  lemma {:induction false} SendChecksTokenFirst(s: Settings, token: string, supplied: Option<string>, body: Body,
                             status: Command -> ExitStatus)
    ensures Send(s, token, supplied, body, status).0 == Forbidden
            <==> s.useToken && supplied != Some(token)
    ensures Send(s, token, supplied, body, status).0 == Forbidden ==> Send(s, token, supplied, body, status).1 == []
  {
  }

  /** An accepted request without text is a 400 and starts no program. */
  lemma {:induction false} EmptyTextInjectsNothing(s: Settings, token: string, supplied: Option<string>, body: Body,
                                status: Command -> ExitStatus)
    requires TokenAccepted(s.useToken, token, supplied)
    ensures Send(s, token, supplied, body, status).0 == EmptyText <==> body.None? || body.value == ""
    ensures Send(s, token, supplied, body, status).0 == EmptyText ==> Send(s, token, supplied, body, status).1 == []
  {
  }

  /**
   * Injection outcomes of an accepted request with text: `{"ok": True}` when
   * every program exits with 0 (and then all of them ran); the JSON 500 when
   * one exits with another code; Flask's own 500 on a timeout or a program
   * that cannot start.
   */
  lemma {:induction false} SendReportsInjection(s: Settings, token: string, supplied: Option<string>, text: string,
                             status: Command -> ExitStatus)
    requires TokenAccepted(s.useToken, token, supplied) && text != ""
    ensures var (reply, ran) := Send(s, token, supplied, Some(text), status);
      var plan := Plan(s.injection, s.autoPaste, text);
      && (reply == Sent <==> forall i :: 0 <= i < |plan| && plan[i].Run? ==> status(plan[i].cmd) == Exited(0))
      && (reply == Sent ==> ran == RunsOf(plan))
      && (reply == InjectionFailed <==> ran != [] && status(ran[|ran| - 1]).Exited? && status(ran[|ran| - 1]) != Exited(0))
      && (reply == ServerError <==> ran != [] && !status(ran[|ran| - 1]).Exited?)
  {
    SendRunsThePlan(s, token, supplied, text, status);
    ExecuteReports(Plan(s.injection, s.autoPaste, text), status);
  }

  /** An accepted request with text is answered from the outcome of running its plan. */
  lemma {:induction false} SendRunsThePlan(s: Settings, token: string, supplied: Option<string>, text: string,
                                           status: Command -> ExitStatus)
    requires TokenAccepted(s.useToken, token, supplied) && text != ""
    ensures var r := Send(s, token, supplied, Some(text), status);
      var e := Execute(Plan(s.injection, s.autoPaste, text), status);
      && r.1 == e.1
      && (r.0 == Sent <==> e.0 == Injected)
      && (r.0 == InjectionFailed <==> e.0 == ProcessError)
      && (r.0 == ServerError <==> e.0 == OtherError)
  {
  }

  /** What the outcome of running any plan says about the programs started. */
  lemma {:induction false} ExecuteReports(plan: seq<Step>, status: Command -> ExitStatus)
    ensures var (outcome, ran) := Execute(plan, status);
      && (outcome == Injected <==> forall i :: 0 <= i < |plan| && plan[i].Run? ==> status(plan[i].cmd) == Exited(0))
      && (outcome == Injected ==> ran == RunsOf(plan))
      && (outcome == ProcessError <==> ran != [] && status(ran[|ran| - 1]).Exited? && status(ran[|ran| - 1]) != Exited(0))
      && (outcome == OtherError <==> ran != [] && !status(ran[|ran| - 1]).Exited?)
  {
    var (outcome, ran) := Execute(plan, status);
    if outcome == Injected {
      ExecuteRunsAll(plan, status);
      if ran != [] {
        // The last program started is a step of the plan, so it exited with 0.
        var c := ran[|ran| - 1];
        assert c in RunsOf(plan);
        assert Run(c) in plan;
      }
    }
  }

  /** The programs of a plan, in order. */
  function RunsOf(plan: seq<Step>): (cs: seq<Command>)
    ensures |cs| <= |plan|
    ensures forall c :: c in cs <==> Run(c) in plan
  {
    if plan == [] then []
    else
      var rest := RunsOf(plan[1..]);
      assert forall st :: st in plan <==> st == plan[0] || st in plan[1..];
      match plan[0]
      case Sleep(_) => rest
      case Run(c) => [c] + rest
  }

  /** When nothing fails, every program of the plan ran, in order. */
  lemma {:induction false} ExecuteRunsAll(plan: seq<Step>, status: Command -> ExitStatus)
    requires Execute(plan, status).0 == Injected
    ensures Execute(plan, status).1 == RunsOf(plan)
  {
    if plan != [] {
      assert forall i :: 1 <= i < |plan| ==> plan[i] == plan[1..][i - 1];
      ExecuteRunsAll(plan[1..], status);
    }
  }

  /**
   * The text reaches every program as one argument after `--`, so it is
   * never read as an option; only the paste keystroke does not carry it.
   */
  lemma {:induction false} TextFollowsDoubleDash(m: Method, autoPaste: bool, text: string)
    ensures forall c :: c in RunsOf(Plan(m, autoPaste, text)) ==>
      c == PasteCommand || (|c.argv| >= 2 && c.argv[|c.argv| - 1] == text && c.argv[|c.argv| - 2] == "--")
    ensures Plan(m, autoPaste, text)[0].Run? && Plan(m, autoPaste, text)[0].cmd.argv[|Plan(m, autoPaste, text)[0].cmd.argv| - 1] == text
  {
  }

  /** A paste keystroke is sent only by the clipboard method with auto-paste on, and after the copy. */
  lemma {:induction false} PasteOnlyWhenAsked(m: Method, autoPaste: bool, text: string)
    ensures Run(PasteCommand) in Plan(m, autoPaste, text) <==> m == Clipboard && autoPaste
    ensures m == Clipboard && autoPaste ==> RunsOf(Plan(m, autoPaste, text)) == [CopyCommand(text), PasteCommand]
  {
    var p := Plan(m, autoPaste, text);
    if m == Type {
      assert p == [Run(TypeCommand(text))];
    } else if !autoPaste {
      assert p == [Run(CopyCommand(text))];
    } else {
      assert RunsOf(p) == [CopyCommand(text), PasteCommand];
    }
  }

  // ---------------------------------------------------------------------
  // Startup properties
  // ---------------------------------------------------------------------

  /** A refresh implies the permanent link. */
  lemma {:induction false} RefreshImpliesPermanent(methodArg: Option<string>, profileMethod: Json,
                                autoPaste: Json, useToken: Json, permanentFlag: bool)
    ensures ChooseSettings(methodArg, profileMethod, autoPaste, useToken, permanentFlag, true).permanent
  {
  }

  /**
   * The permanent token survives a restart: once stored, a later start with
   * the permanent link and no refresh uses it again and writes nothing.
   * (`token_urlsafe(32)` never returns an empty string.)
   */
  lemma {:induction false} PermanentTokenSurvivesRestart(refresh: bool, stored: Option<string>, drawn: string, drawn': string)
    requires drawn != ""
    ensures var first := ResolveToken(true, refresh, true, stored, drawn);
      var second := ResolveToken(true, false, true, first.storedAfter, drawn');
      second.token == first.token && !second.isNew && !second.saved
  {
  }

  /**
   * A refresh discards the stored token: with a drawn token that differs
   * from it, a request that presents the old token is refused after the
   * restart, and no program is started.
   */
  lemma {:induction false} RefreshRevokesOldToken(s: Settings, previous: string, drawn: string, body: Body,
                               status: Command -> ExitStatus)
    requires s.permanent && s.useToken && drawn != previous
    ensures var st := ResolveToken(s.permanent, true, s.useToken, Some(previous), drawn);
      st.token == drawn && st.storedAfter == Some(drawn)
      && Send(s, st.token, Some(previous), body, status) == (Forbidden, [])
  {
  }

  /**
   * The QR code leaves the token out exactly in the permanent link with a
   * token that was already stored; the URL is then the bare base URL.
   */
  lemma {:induction false} QrOmitsOnlyKnownPermanentToken(s: Settings, refresh: bool, stored: Option<string>, drawn: string)
    requires s.useToken && drawn != ""
    ensures var st := ResolveToken(s.permanent, refresh, s.useToken, stored, drawn);
      QrToken(s, st).None? <==> s.permanent && !refresh && Truthy(stored)
  {
  }

  /** Without the token in use every request passes the gate and the QR code has no token. */
  lemma {:induction false} NoTokenNoGate(s: Settings, st: Startup, supplied: Option<string>)
    requires !s.useToken
    ensures Index(s, st, supplied) == EditingPage(st.storedAfter)
    ensures QrToken(s, st).None?
    ensures TokenAccepted(s.useToken, st.token, supplied)
  {
  }

  /**
   * With the permanent link, `/` asked without any token returns a page
   * whose profile holds the very token `/send` checks: the page gives a
   * caller who knows only the base URL what the QR code withheld.
   */
  lemma {:induction false} PermanentPageRevealsToken(s: Settings, refresh: bool, stored: Option<string>, drawn: string,
                                  body: Body, status: Command -> ExitStatus)
    requires s.permanent && s.useToken
    ensures var st := ResolveToken(s.permanent, refresh, s.useToken, stored, drawn);
      var page := Index(s, st, None);
      && page == EditingPage(Some(st.token))
      && Send(s, st.token, page.profileToken, body, status).0 != Forbidden
  {
    var st := ResolveToken(s.permanent, refresh, s.useToken, stored, drawn);
    SendChecksTokenFirst(s, st.token, Some(st.token), body, status);
  }

  /**
   * Without the permanent link, `/` without the token is refused, so the
   * stored `permanent_token` reaches only a caller who already has the token.
   */
  lemma {:induction false} OrdinaryPageNeedsToken(s: Settings, refresh: bool, stored: Option<string>, drawn: string,
                               supplied: Option<string>)
    requires !s.permanent && s.useToken
    ensures var st := ResolveToken(s.permanent, refresh, s.useToken, stored, drawn);
      Index(s, st, supplied).EditingPage? <==> supplied == Some(drawn)
  {
  }
}
