/** Which raygui style file is loaded before a control is drawn
    (src/Melkam/ui/Ui.cpp:111-170, 1087-1160). The renderer keeps two
    strings, the global style path set by `SetUiThemeStyle` and the path of
    the style currently loaded, and a flag for a Melkam theme requested
    before the window was ready. The loads themselves are foreign calls; the
    model returns them as a list so their number and order can be stated. */
module UiTheme {
  import opened Wrappers
  import opened Components
  import opened SceneStore
  import opened EntityHandle
  import opened UiTree

  datatype Theme = Theme(global: string, current: string, melkamPending: bool)

  /** The renderer's state before any style call. */
  const InitialTheme := Theme("", "", false)

  /** The name the built-in Melkam theme is recorded under. */
  const MelkamName := "melkam"

  /** A call into the style loader. `LoadMelkam` stands for loading the
      default style and then writing the Melkam font and palette over it. */
  datatype StyleLoad = LoadDefault | LoadFile(path: string) | LoadMelkam

  /** The path a request asks for: "default" when the default style is
      requested either way, otherwise the path itself. */
  function Requested(path: string, useDefault: bool): string {
    if useDefault || path == "default" then "default" else path
  }

  /** The style loaded once `loads` have run, starting from `current`. */
  function LoadedAfter(current: string, loads: seq<StyleLoad>): string {
    if loads == [] then current
    else
      var last := loads[|loads| - 1];
      match last
      case LoadDefault => "default"
      case LoadMelkam => MelkamName
      case LoadFile(p) => p
  }

  /** `applyStylePath`. A request for the default style loads it unless it
      is already current; an empty path, or the path already current, loads
      nothing; any other path is loaded and becomes current. The global path
      is never touched. */
  function ApplyStylePath(t: Theme, path: string, useDefault: bool): (r: (Theme, seq<StyleLoad>))
    ensures r.0.global == t.global && r.0.melkamPending == t.melkamPending
    ensures r.0.current == LoadedAfter(t.current, r.1)
    ensures |r.1| <= 1
    ensures r.1 != [] <==> r.0.current != t.current
    ensures Requested(path, useDefault) == "" ==> r.0 == t && r.1 == []
    ensures Requested(path, useDefault) != "" ==> r.0.current == Requested(path, useDefault)
    ensures forall l | l in r.1 :: !l.LoadMelkam? && (l.LoadFile? ==> l.path != "" && l.path != "default")
  {
    if useDefault || path == "default" then
      if t.current != "default" then (t.(current := "default"), [LoadDefault])
      else (t, [])
    else if path == "" || path == t.current then (t, [])
    else (t.(current := path), [LoadFile(path)])
  }

  /** Asking for the same style twice loads it at most once. */
  lemma ApplyStylePathIdempotent(t: Theme, path: string, useDefault: bool)
    ensures var (t1, _) := ApplyStylePath(t, path, useDefault);
      ApplyStylePath(t1, path, useDefault) == (t1, [])
  {
  }

  /** The default style is loaded by one route only: a LoadFile is never
      issued for the name "default", and asking for it by name or by flag
      has the same effect. */
  lemma DefaultByNameOrFlag(t: Theme, path: string)
    ensures ApplyStylePath(t, "default", false) == ApplyStylePath(t, path, true)
  {
  }

  /** The first id of `a` holding a UiStyle. */
  function FirstStyle(s: Scene, a: seq<EntityId>): Option<EntityId> {
    FirstWhere(a, (x: EntityId) => GetStyle(s, x).Some?)
  }

  /** The style request of the walk up from `e`: the nearest valid
      ancestor-or-self holding a UiStyle decides it; with none, the request
      is for no path and no default. */
  function StyleOf(s: Scene, e: Entity, fuel: nat): (r: UiStyle)
    ensures FirstStyle(s, Ancestry(s, e, fuel)).None? ==> r == UiStyle("", false)
    ensures FirstStyle(s, Ancestry(s, e, fuel)).Some? ==> r == GetStyle(s, FirstStyle(s, Ancestry(s, e, fuel)).value).value
    decreases fuel
  {
    if fuel == 0 || !HandleValid(s, e) then UiStyle("", false)
    else match GetStyle(s, e.id)
      case Some(st) => st
      case None =>
        var rest := Ancestry(s, Parent(s, e), fuel - 1);
        assert Ancestry(s, e, fuel) == [e.id] + rest;
        assert ([e.id] + rest)[1..] == rest;
        StyleOf(s, Parent(s, e), fuel - 1)
  }

  /** `applyStyleFor`: apply the style request of the nearest styled
      ancestor-or-self; with no such ancestor, or one whose request names no
      path and no default, the global path is applied instead. */
  function ApplyStyleFor(t: Theme, s: Scene, e: Entity, fuel: nat): (r: (Theme, seq<StyleLoad>))
    ensures r.0.global == t.global
    ensures var f := FirstStyle(s, Ancestry(s, e, fuel));
      f.Some? && (GetStyle(s, f.value).value.useDefault || GetStyle(s, f.value).value.stylePath != "") ==>
        r == ApplyStylePath(t, GetStyle(s, f.value).value.stylePath, GetStyle(s, f.value).value.useDefault)
    ensures var f := FirstStyle(s, Ancestry(s, e, fuel));
      f.None? || (!GetStyle(s, f.value).value.useDefault && GetStyle(s, f.value).value.stylePath == "") ==>
        r == ApplyStylePath(t, t.global, false)
  {
    var st := StyleOf(s, e, fuel);
    var path := if st.stylePath == "" && !st.useDefault then t.global else st.stylePath;
    ApplyStylePath(t, path, st.useDefault)
  }

  /** An entity whose walk finds no style gets the global style, or keeps
      the current one when no global style is set. */
  lemma UnstyledUsesGlobal(t: Theme, s: Scene, e: Entity, fuel: nat)
    requires FirstStyle(s, Ancestry(s, e, fuel)).None?
    ensures var (t1, loads) := ApplyStyleFor(t, s, e, fuel);
      (t.global == "" ==> t1 == t && loads == []) &&
      (t.global != "" ==> t1.current == Requested(t.global, false))
  {
  }

  /** A style of its own decides an entity's style whatever its ancestors
      hold. */
  lemma OwnStyleWins(t: Theme, s: Scene, e: Entity, fuel: nat)
    requires HandleValid(s, e) && GetStyle(s, e.id).Some?
    requires GetStyle(s, e.id).value.useDefault || GetStyle(s, e.id).value.stylePath != ""
    ensures var st := GetStyle(s, e.id).value;
      ApplyStyleFor(t, s, e, fuel + 1) == ApplyStylePath(t, st.stylePath, st.useDefault)
  {
  }

  /** `SetUiThemeStyle`: record the global path and, when it is not empty,
      apply it at once. */
  function SetUiThemeStyle(t: Theme, path: string): (r: (Theme, seq<StyleLoad>))
    ensures r.0.global == path
    ensures path == "" ==> r.0.current == t.current && r.1 == []
    ensures path != "" ==> r.0.current == Requested(path, false) && r.0.current == LoadedAfter(t.current, r.1)
  {
    var t1 := t.(global := path);
    if path == "" then (t1, []) else ApplyStylePath(t1, path, false)
  }

  /** Once a global style is set, drawing an unstyled control loads
      nothing more. */
  lemma GlobalStyleIsSticky(t: Theme, path: string, s: Scene, e: Entity, fuel: nat)
    requires FirstStyle(s, Ancestry(s, e, fuel)).None?
    ensures var (t1, _) := SetUiThemeStyle(t, path);
      ApplyStyleFor(t1, s, e, fuel) == (t1, [])
  {
  }

  /** `SetUiThemeMelkam`. Before the window is ready only the request is
      remembered; once it is, the default style is loaded, the Melkam font
      and palette are written over it, the global path is cleared and
      "melkam" becomes the current style. */
  function SetUiThemeMelkam(t: Theme, windowReady: bool): (r: (Theme, seq<StyleLoad>))
    ensures !windowReady ==> r.1 == [] && r.0.melkamPending
    ensures !windowReady ==> r.0.global == t.global && r.0.current == t.current
    ensures windowReady ==> r.0.melkamPending == t.melkamPending
    ensures windowReady ==> r.0.global == "" && r.0.current == LoadedAfter(t.current, r.1) == MelkamName
    ensures windowReady ==> r.1 == [LoadMelkam]
  {
    if !windowReady then (t.(melkamPending := true), [])
    else (Theme("", MelkamName, t.melkamPending), [LoadMelkam])
  }

  /** `applyPendingMelkamTheme`, run at the start of each UI update and
      draw: a deferred Melkam request is carried out, and its flag lowered,
      as soon as the window is ready. */
  function ApplyPendingMelkam(t: Theme, windowReady: bool): (r: (Theme, seq<StyleLoad>))
    ensures !t.melkamPending || !windowReady ==> r == (t, [])
    ensures t.melkamPending && windowReady ==> !r.0.melkamPending && r.0.current == MelkamName && r.1 == [LoadMelkam]
  {
    if !t.melkamPending || !windowReady then (t, [])
    else SetUiThemeMelkam(t.(melkamPending := false), true)
  }

  /** A Melkam request made before the window is ready ends, at the first
      UI pass after the window opens, exactly where a request made with the
      window ready ends, with the flag lowered. */
  lemma DeferredMelkamCatchesUp(t: Theme)
    requires !t.melkamPending
    ensures var (t1, l1) := SetUiThemeMelkam(t, false);
      var (t2, l2) := ApplyPendingMelkam(t1, true);
      (t2, l1 + l2) == SetUiThemeMelkam(t, true)
  {
    assert [] + [LoadMelkam] == [LoadMelkam];
  }

  /** While the window is not ready a deferred request stays pending and
      loads nothing, however many passes run. */
  lemma PendingWaitsForWindow(t: Theme)
    requires t.melkamPending
    ensures ApplyPendingMelkam(t, false) == (t, [])
  {
  }

  /** The Melkam theme clears the global path, so controls with no style
      of their own keep the Melkam style and load nothing. */
  lemma MelkamStaysForUnstyled(t: Theme, s: Scene, e: Entity, fuel: nat)
    requires FirstStyle(s, Ancestry(s, e, fuel)).None?
    ensures var (t1, _) := SetUiThemeMelkam(t, true);
      ApplyStyleFor(t1, s, e, fuel) == (t1, [])
  {
  }
}
