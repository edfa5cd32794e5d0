/** The light/dark theme of scripts/theme.js.

    The browser state the script touches is one record: `localStorage`
    (a map from keys to strings), the attributes of the root `<html>` element,
    whether the operating system prefers a dark colour scheme, and the class
    of the theme button's `<i>` icon (`None` when the button or its icon is
    missing).  Each function of the script is a transition on that record. */
module Theme {
  import opened Options

  const ThemeKey: string := "portfolio-theme"
  const ThemeAttr: string := "data-theme"
  const Light: string := "light"
  const Dark: string := "dark"
  const SunIcon: string := "fas fa-sun"
  const MoonIcon: string := "fas fa-moon"

  datatype Env = Env(
    storage: map<string, string>,
    rootAttrs: map<string, string>,
    systemDark: bool,
    icon: Option<string>)

  /** `localStorage.getItem` / `getAttribute`: `None` for a missing key. */
  function Get(m: map<string, string>, key: string): Option<string> {
    if key in m then Some(m[key]) else None
  }

  /** JavaScript truthiness of a string that may be `null`: `null` and ""
      are falsy. */
  predicate Truthy(v: Option<string>) {
    v.Some? && v.value != ""
  }

  function StoredTheme(env: Env): Option<string> {
    Get(env.storage, ThemeKey)
  }

  function ThemeAttribute(env: Env): Option<string> {
    Get(env.rootAttrs, ThemeAttr)
  }

  /** `getInitialTheme`: a saved theme wins, unchecked; otherwise the system
      preference decides between dark and light. */
  function InitialTheme(env: Env): (t: string)
    ensures t != ""
    ensures Truthy(StoredTheme(env)) ==> t == StoredTheme(env).value
    ensures !Truthy(StoredTheme(env)) ==> t in {Light, Dark} && (t == Dark <==> env.systemDark)
  {
    var saved := StoredTheme(env);
    if Truthy(saved) then saved.value
    else if env.systemDark then Dark
    else Light
  }

  /** The icon class shown for a theme: a sun while dark (to switch to
      light), a moon otherwise. */
  function IconFor(theme: string): (c: string)
    ensures c in {SunIcon, MoonIcon}
    ensures c == SunIcon <==> theme == Dark
  {
    if theme == Dark then SunIcon else MoonIcon
  }

  /** `applyTheme`: sets the root attribute and the saved key to `theme` and
      updates the icon if there is one; nothing else changes. */
  function ApplyTheme(env: Env, theme: string): (r: Env)
    ensures ThemeAttribute(r) == Some(theme) && StoredTheme(r) == Some(theme)
    ensures forall k :: k != ThemeKey ==> Get(r.storage, k) == Get(env.storage, k)
    ensures forall k :: k != ThemeAttr ==> Get(r.rootAttrs, k) == Get(env.rootAttrs, k)
    ensures r.systemDark == env.systemDark
    ensures r.icon.Some? <==> env.icon.Some?
    ensures r.icon.Some? ==> r.icon.value == IconFor(theme)
  {
    var icon := match env.icon
      case None => None
      case Some(_) => Some(IconFor(theme));
    env.(storage := env.storage[ThemeKey := theme],
         rootAttrs := env.rootAttrs[ThemeAttr := theme],
         icon := icon)
  }

  /** Applying a theme overwrites whatever an earlier application did. */
  lemma ApplyLastWins(env: Env, t1: string, t2: string)
    ensures ApplyTheme(ApplyTheme(env, t1), t2) == ApplyTheme(env, t2)
  {
  }

  /** The theme `toggleTheme` reads: the root attribute, or light when it is
      missing or empty. */
  function CurrentTheme(env: Env): string {
    var attr := ThemeAttribute(env);
    if Truthy(attr) then attr.value else Light
  }

  /** The theme `toggleTheme` switches to: dark after light, light after
      anything else. */
  function NextTheme(theme: string): (t: string)
    ensures t in {Light, Dark}
    ensures t == Dark <==> theme == Light
  {
    if theme == Light then Dark else Light
  }

  /** `toggleTheme`. */
  function ToggleTheme(env: Env): (r: Env)
    ensures CurrentTheme(r) in {Light, Dark}
    ensures CurrentTheme(r) == Dark <==> CurrentTheme(env) == Light
    ensures ThemeAttribute(env).None? ==> CurrentTheme(r) == Dark
    ensures ThemeAttribute(r) == StoredTheme(r) == Some(NextTheme(CurrentTheme(env)))
    ensures forall k :: k != ThemeKey ==> Get(r.storage, k) == Get(env.storage, k)
    ensures forall k :: k != ThemeAttr ==> Get(r.rootAttrs, k) == Get(env.rootAttrs, k)
    ensures r.systemDark == env.systemDark
    ensures r.icon.Some? <==> env.icon.Some?
    ensures r.icon.Some? ==> r.icon.value == IconFor(CurrentTheme(r))
  {
    ApplyTheme(env, NextTheme(CurrentTheme(env)))
  }

  /** Toggling twice gives back a light or dark theme, and the page looks as
      if that theme had just been applied. */
  lemma ToggleTwice(env: Env)
    requires CurrentTheme(env) in {Light, Dark}
    ensures CurrentTheme(ToggleTheme(ToggleTheme(env))) == CurrentTheme(env)
    ensures ToggleTheme(ToggleTheme(env)) == ApplyTheme(env, CurrentTheme(env))
  {
  }

  /** A theme other than light or dark (from an edited saved value) is
      replaced by light on the first toggle, so two toggles give dark, not
      the original value. */
  lemma ToggleNormalises(env: Env)
    requires CurrentTheme(env) !in {Light, Dark}
    ensures CurrentTheme(ToggleTheme(env)) == Light
    ensures CurrentTheme(ToggleTheme(ToggleTheme(env))) == Dark
  {
  }

  /** The listener on `(prefers-color-scheme: dark)`: the preference changes
      to `matches`, and the theme follows it only when no theme is saved. */
  function SystemChange(env: Env, matches: bool): (r: Env)
    ensures r.systemDark == matches
    ensures Truthy(StoredTheme(env)) ==> r == env.(systemDark := matches)
    ensures !Truthy(StoredTheme(env)) ==>
              r == ApplyTheme(env.(systemDark := matches), if matches then Dark else Light)
    ensures !Truthy(StoredTheme(env)) ==> (ThemeAttribute(r) == Some(Dark) <==> matches)
  {
    var env' := env.(systemDark := matches);
    if !Truthy(StoredTheme(env)) then ApplyTheme(env', if matches then Dark else Light)
    else env'
  }

  /** `initTheme`. */
  function InitTheme(env: Env): (r: Env)
    ensures Truthy(StoredTheme(r))
    ensures CurrentTheme(r) == InitialTheme(env)
    ensures Truthy(StoredTheme(env)) ==> CurrentTheme(r) == StoredTheme(env).value
    ensures Settled(r)
  {
    ApplyTheme(env, InitialTheme(env))
  }

  /** What `initTheme` establishes and every later event keeps: a non-empty
      theme is saved, the root attribute shows the same theme, and the icon,
      if any, matches it. */
  predicate Settled(env: Env) {
    && Truthy(StoredTheme(env))
    && ThemeAttribute(env) == StoredTheme(env)
    && (env.icon.Some? ==> env.icon.value == IconFor(CurrentTheme(env)))
  }

  /** The events that reach theme.js after start-up. */
  datatype ThemeEvent = ToggleClick | SchemeChange(matches: bool)

  function Handle(env: Env, e: ThemeEvent): Env {
    match e
    case ToggleClick => ToggleTheme(env)
    case SchemeChange(m) => SystemChange(env, m)
  }

  /** The page after a sequence of events. */
  function Replay(env: Env, events: seq<ThemeEvent>): Env
    decreases |events|
  {
    if events == [] then env else Replay(Handle(env, events[0]), events[1..])
  }

  /** Every event keeps the page settled. */
  lemma HandleKeepsSettled(env: Env, e: ThemeEvent)
    requires Settled(env)
    ensures Settled(Handle(env, e))
  {
  }

  lemma {:induction false} ReplayKeepsSettled(env: Env, events: seq<ThemeEvent>)
    requires Settled(env)
    ensures Settled(Replay(env, events))
    decreases |events|
  {
    if events != [] {
      HandleKeepsSettled(env, events[0]);
      ReplayKeepsSettled(Handle(env, events[0]), events[1..]);
    }
  }

  /** Once a theme is saved, a change of system preference is ignored: only
      `systemDark` moves. */
  lemma {:induction false} SchemeChangesIgnoredOnceSaved(env: Env, events: seq<ThemeEvent>)
    requires Settled(env)
    requires forall i :: 0 <= i < |events| ==> events[i].SchemeChange?
    ensures Replay(env, events) == if events == [] then env else env.(systemDark := events[|events| - 1].matches)
    decreases |events|
  {
    if events != [] {
      var env' := Handle(env, events[0]);
      var rest := events[1..];
      assert forall i :: 0 <= i < |rest| ==> rest[i].SchemeChange? by {
        forall i | 0 <= i < |rest| ensures rest[i].SchemeChange? {
          assert rest[i] == events[i + 1];
        }
      }
      SchemeChangesIgnoredOnceSaved(env', rest);
    }
  }

  /** After `initTheme`, whatever happens next, a non-empty theme stays saved,
      so the system-change listener never applies a theme again. */
  lemma SavedAfterInit(env: Env, events: seq<ThemeEvent>, matches: bool)
    ensures Truthy(StoredTheme(Replay(InitTheme(env), events)))
    ensures var now := Replay(InitTheme(env), events);
            SystemChange(now, matches) == now.(systemDark := matches)
  {
    ReplayKeepsSettled(InitTheme(env), events);
  }

  /** A fresh visitor whose system prefers light: `initTheme` saves "light",
      so when the system later switches to dark the listener keeps the page
      light, although no preference was ever set by hand. */
  lemma FreshPageIgnoresSchemeChange()
    ensures var blank := Env(map[], map[], false, None);
            ThemeAttribute(SystemChange(InitTheme(blank), true)) == Some(Light)
  {
    var blank := Env(map[], map[], false, None);
    assert !Truthy(StoredTheme(blank));
    assert InitialTheme(blank) == Light;
  }

  /** Shows a theme (root attribute and icon) without saving it. */
  function ShowTheme(env: Env, theme: string): (r: Env)
    ensures ThemeAttribute(r) == Some(theme)
    ensures r.storage == env.storage && r.systemDark == env.systemDark
    ensures forall k :: k != ThemeAttr ==> Get(r.rootAttrs, k) == Get(env.rootAttrs, k)
    ensures r.icon.Some? <==> env.icon.Some?
    ensures r.icon.Some? ==> r.icon.value == IconFor(theme)
  {
    var icon := match env.icon
      case None => None
      case Some(_) => Some(IconFor(theme));
    env.(rootAttrs := env.rootAttrs[ThemeAttr := theme], icon := icon)
  }

  /** `initTheme` as the listener's comment evidently intends: a theme taken
      from the system preference is shown but not saved, so only a manual
      choice (a toggle click) is ever saved. */
  function InitThemeIntended(env: Env): (r: Env)
    ensures CurrentTheme(r) == InitialTheme(env)
    ensures StoredTheme(r) == StoredTheme(env)
    ensures !Truthy(StoredTheme(env)) ==> r.storage == env.storage
    ensures Truthy(StoredTheme(env)) ==> r == InitTheme(env)
  {
    if Truthy(StoredTheme(env)) then ApplyTheme(env, InitialTheme(env))
    else ShowTheme(env, InitialTheme(env))
  }

  /** The system-change listener as evidently intended: with nothing saved,
      the new preference is shown but not saved. */
  function SystemChangeIntended(env: Env, matches: bool): (r: Env)
    ensures r.systemDark == matches
    ensures r.storage == env.storage
    ensures Truthy(StoredTheme(env)) ==> r == env.(systemDark := matches)
    ensures !Truthy(StoredTheme(env)) ==> (ThemeAttribute(r) == Some(Dark) <==> matches)
  {
    var env' := env.(systemDark := matches);
    if !Truthy(StoredTheme(env)) then ShowTheme(env', if matches then Dark else Light)
    else env'
  }

  /** The intended listener run on a sequence of preference changes. */
  function SchemeChangesIntended(env: Env, changes: seq<bool>): Env
    decreases |changes|
  {
    if changes == [] then env else SchemeChangesIntended(SystemChangeIntended(env, changes[0]), changes[1..])
  }

  /** With nothing saved by hand, the intended page follows every change of
      the system preference: after a run of changes the theme is dark exactly
      when the last change says dark, and still nothing is saved. */
  lemma {:induction false} FollowsSchemeWhileUnsaved(env: Env, changes: seq<bool>)
    requires !Truthy(StoredTheme(env))
    requires |changes| > 0
    ensures SchemeChangesIntended(env, changes).storage == env.storage
    ensures ThemeAttribute(SchemeChangesIntended(env, changes)) == Some(if changes[|changes| - 1] then Dark else Light)
    decreases |changes|
  {
    var env' := SystemChangeIntended(env, changes[0]);
    if |changes| > 1 {
      FollowsSchemeWhileUnsaved(env', changes[1..]);
      assert changes[1..][|changes| - 2] == changes[|changes| - 1];
    }
  }

  /** On the same fresh page, the intended start-up and listener follow the
      preference through dark, light and dark again. */
  lemma FreshPageFollowsSchemeWhenIntended()
    ensures var blank := Env(map[], map[], false, None);
            ThemeAttribute(SchemeChangesIntended(InitThemeIntended(blank), [true, false, true])) == Some(Dark)
  {
    var blank := Env(map[], map[], false, None);
    FollowsSchemeWhileUnsaved(InitThemeIntended(blank), [true, false, true]);
  }
}
