/** The named-action layer over the keyboard (src/Melkam/platform/Input.cpp):
    a table from action names to ordered key bindings, the action queries, and
    the mouse mode. The device state the source reads through raylib becomes
    three key sets passed to each query: the keys held down this frame, the keys
    that went down this frame and the keys that came up this frame. */
module InputActions {

  datatype Key = A | D | W | S | Left | Right | Up | Down | Space

  datatype MouseMode = Visible | Hidden | Captured

  /** One binding: a key and the amount it contributes to the action. */
  datatype Binding = Binding(key: Key, scale: real)

  datatype Axis2D = Axis2D(x: real, y: real)

  /** The module-level state of the source: the action table and the mouse
      mode. */
  datatype Input = Input(actions: map<string, seq<Binding>>, mouseMode: MouseMode)

  /** The state at program start: no actions, a visible cursor. */
  const InitialInput: Input := Input(map[], Visible)

  /** The bindings of an action, or none for an action never added. */
  function BindingsOf(inp: Input, action: string): seq<Binding> {
    if action in inp.actions then inp.actions[action] else []
  }

  // ---------------------------------------------------------------------
  // The action table

  /** `AddAction`: create the action with no bindings when it is absent; an
      existing action keeps its bindings. */
  function AddAction(inp: Input, action: string): (r: Input)
    ensures action in r.actions
    ensures r.actions.Keys == inp.actions.Keys + {action}
    ensures forall a | a in r.actions :: r.actions[a] == BindingsOf(inp, a)
    ensures r.mouseMode == inp.mouseMode
  {
    if action in inp.actions then inp else inp.(actions := inp.actions[action := []])
  }

  /** `ClearAction`: empty an existing action's bindings; an unknown action is
      left unknown. */
  function ClearAction(inp: Input, action: string): (r: Input)
    ensures r.actions.Keys == inp.actions.Keys
    ensures action in r.actions ==> r.actions[action] == []
    ensures forall a | a in r.actions && a != action :: r.actions[a] == inp.actions[a]
    ensures r.mouseMode == inp.mouseMode
  {
    if action in inp.actions then inp.(actions := inp.actions[action := []]) else inp
  }

  /** `BindKey`: append the binding, creating the action when absent; order is
      kept and duplicates are allowed. */
  function BindKey(inp: Input, action: string, key: Key, scale: real := 1.0): (r: Input)
    ensures r.actions.Keys == inp.actions.Keys + {action}
    ensures r.actions[action] == BindingsOf(inp, action) + [Binding(key, scale)]
    ensures forall a | a in r.actions && a != action :: r.actions[a] == inp.actions[a]
    ensures r.mouseMode == inp.mouseMode
  {
    inp.(actions := inp.actions[action := BindingsOf(inp, action) + [Binding(key, scale)]])
  }

  /** Adding an action twice is adding it once, and adding a known action
      changes nothing. */
  lemma AddActionIdempotent(inp: Input, action: string)
    ensures AddAction(AddAction(inp, action), action) == AddAction(inp, action)
    ensures action in inp.actions ==> AddAction(inp, action) == inp
  {
  }

  /** Adding never discards bindings already made. */
  lemma AddActionKeepsBindings(inp: Input, action: string, key: Key, scale: real)
    ensures AddAction(BindKey(inp, action, key, scale), action) == BindKey(inp, action, key, scale)
  {
  }

  // ---------------------------------------------------------------------
  // Queries

  /** Some binding's key is in `keys`: the early-exit scan of the source. */
  function AnyBound(bs: seq<Binding>, keys: set<Key>): (r: bool)
    ensures r <==> exists i | 0 <= i < |bs| :: bs[i].key in keys
    decreases |bs|
  {
    if bs == [] then false
    else if bs[0].key in keys then true
    else
      assert forall i | 1 <= i < |bs| :: bs[i] == bs[1..][i - 1];
      AnyBound(bs[1..], keys)
  }

  /** `IsActionPressed`: false for an unknown action, otherwise whether a bound
      key is held. */
  predicate IsActionPressed(inp: Input, action: string, down: set<Key>) {
    action in inp.actions && AnyBound(inp.actions[action], down)
  }

  /** `IsActionJustPressed`: the same test against the keys that went down. */
  predicate IsActionJustPressed(inp: Input, action: string, pressed: set<Key>) {
    action in inp.actions && AnyBound(inp.actions[action], pressed)
  }

  /** `IsActionJustReleased`: the same test against the keys that came up. */
  predicate IsActionJustReleased(inp: Input, action: string, released: set<Key>) {
    action in inp.actions && AnyBound(inp.actions[action], released)
  }

  /** The three queries answer through the bindings alone. */
  lemma ActionQueries(inp: Input, action: string, keys: set<Key>)
    ensures IsActionPressed(inp, action, keys) <==>
      action in inp.actions && exists b | b in inp.actions[action] :: b.key in keys
    ensures IsActionJustPressed(inp, action, keys) == IsActionPressed(inp, action, keys)
    ensures IsActionJustReleased(inp, action, keys) == IsActionPressed(inp, action, keys)
  {
    if IsActionPressed(inp, action, keys) {
      var bs := inp.actions[action];
      var i :| 0 <= i < |bs| && bs[i].key in keys;
      assert bs[i] in bs;
    }
  }

  /** The sum of the scales of the held bindings, in binding order. */
  function SumHeld(bs: seq<Binding>, down: set<Key>): real
    decreases |bs|
  {
    if bs == [] then 0.0
    else (if bs[0].key in down then bs[0].scale else 0.0) + SumHeld(bs[1..], down)
  }

  /** A binding appended at the end adds its scale when its key is held. */
  lemma {:induction false} SumHeldAppend(bs: seq<Binding>, b: Binding, down: set<Key>)
    ensures SumHeld(bs + [b], down) == SumHeld(bs, down) + (if b.key in down then b.scale else 0.0)
    decreases |bs|
  {
    if bs != [] {
      assert (bs + [b])[1..] == bs[1..] + [b];
      SumHeldAppend(bs[1..], b, down);
    }
  }

  /** With no bound key held the sum is zero. */
  lemma {:induction false} SumHeldNoneHeld(bs: seq<Binding>, down: set<Key>)
    requires !AnyBound(bs, down)
    ensures SumHeld(bs, down) == 0.0
    decreases |bs|
  {
    if bs != [] {
      assert bs[0].key !in down;
      assert !AnyBound(bs[1..], down);
      SumHeldNoneHeld(bs[1..], down);
    }
  }

  /** `clampAxis`: into [-1, 1]. */
  function ClampAxis(v: real): (r: real)
    ensures -1.0 <= r <= 1.0
    ensures -1.0 <= v <= 1.0 ==> r == v
    ensures v > 1.0 ==> r == 1.0
    ensures v < -1.0 ==> r == -1.0
  {
    if v > 1.0 then 1.0 else if v < -1.0 then -1.0 else v
  }

  /** `GetActionStrength`: 0 for an unknown action, otherwise the clamped sum
      of the scales of the held bindings. */
  function GetActionStrength(inp: Input, action: string, down: set<Key>): (r: real)
    ensures -1.0 <= r <= 1.0
    ensures action !in inp.actions ==> r == 0.0
    ensures action in inp.actions ==> r == ClampAxis(SumHeld(inp.actions[action], down))
  {
    if action !in inp.actions then 0.0 else ClampAxis(SumHeld(inp.actions[action], down))
  }

  /** An action none of whose keys is held has strength 0 and is not
      pressed. */
  lemma IdleActionIsZero(inp: Input, action: string, down: set<Key>)
    requires !IsActionPressed(inp, action, down)
    ensures GetActionStrength(inp, action, down) == 0.0
  {
    if action in inp.actions {
      SumHeldNoneHeld(inp.actions[action], down);
    }
  }

  /** A cleared action reports nothing. */
  lemma ClearedActionIsIdle(inp: Input, action: string, down: set<Key>)
    ensures !IsActionPressed(ClearAction(inp, action), action, down)
    ensures GetActionStrength(ClearAction(inp, action), action, down) == 0.0
  {
  }

  /** Binding a held key adds its scale to the raw sum before the clamp. */
  lemma BindKeyAddsStrength(inp: Input, action: string, key: Key, scale: real, down: set<Key>)
    ensures var r := BindKey(inp, action, key, scale);
      SumHeld(r.actions[action], down) ==
        SumHeld(BindingsOf(inp, action), down) + (if key in down then scale else 0.0)
    ensures key in down ==> IsActionPressed(BindKey(inp, action, key, scale), action, down)
  {
    SumHeldAppend(BindingsOf(inp, action), Binding(key, scale), down);
    var bs := BindKey(inp, action, key, scale).actions[action];
    assert bs[|bs| - 1] == Binding(key, scale);
  }

  /** One key bound with scale 1 and held gives full strength; bound with
      scale 2 it is clamped to 1. */
  lemma StrengthExamples(down: set<Key>)
    requires Right in down
    ensures GetActionStrength(BindKey(InitialInput, "right", Right, 1.0), "right", down) == 1.0
    ensures GetActionStrength(BindKey(InitialInput, "right", Right, 2.0), "right", down) == 1.0
    ensures GetActionStrength(BindKey(InitialInput, "right", Right, -0.5), "right", down) == -0.5
  {
    var i1 := BindKey(InitialInput, "right", Right, 1.0);
    assert SumHeld(i1.actions["right"], down) == 1.0 by {
      assert i1.actions["right"] == [Binding(Right, 1.0)];
    }
    var i2 := BindKey(InitialInput, "right", Right, 2.0);
    assert SumHeld(i2.actions["right"], down) == 2.0 by {
      assert i2.actions["right"] == [Binding(Right, 2.0)];
    }
    var i3 := BindKey(InitialInput, "right", Right, -0.5);
    assert SumHeld(i3.actions["right"], down) == -0.5 by {
      assert i3.actions["right"] == [Binding(Right, -0.5)];
    }
  }

  // ---------------------------------------------------------------------
  // Two-dimensional axis

  /** `GetActionAxis2D` before normalisation: positive minus negative strength
      on each axis. */
  function RawAxis2D(inp: Input, negX: string, posX: string, negY: string, posY: string, down: set<Key>): (r: Axis2D)
    ensures -2.0 <= r.x <= 2.0 && -2.0 <= r.y <= 2.0
    ensures r.x == GetActionStrength(inp, posX, down) - GetActionStrength(inp, negX, down)
    ensures r.y == GetActionStrength(inp, posY, down) - GetActionStrength(inp, negY, down)
  {
    Axis2D(GetActionStrength(inp, posX, down) - GetActionStrength(inp, negX, down),
           GetActionStrength(inp, posY, down) - GetActionStrength(inp, negY, down))
  }

  function LengthSquared(a: Axis2D): real { a.x * a.x + a.y * a.y }

  /** For a non-negative length, being above 1 is the same as its square being
      above 1. */
  lemma AboveOne(len: real)
    requires len >= 0.0
    ensures len > 1.0 <==> len * len > 1.0
  {
    if len > 1.0 {
      assert len * len > 1.0 * len;
    } else {
      assert len * len <= 1.0 * len;
    }
  }

  /** The normalisation step; `len` is the square root the source computes,
      given with its defining property. A vector no longer than 1 is returned
      as it is; a longer one is scaled onto the unit circle, keeping its
      direction. */
  function Normalise(a: Axis2D, len: real): (r: Axis2D)
    requires len >= 0.0 && len * len == LengthSquared(a)
    ensures LengthSquared(a) <= 1.0 ==> r == a
    ensures LengthSquared(a) > 1.0 ==> LengthSquared(r) == 1.0 && r.x * len == a.x && r.y * len == a.y
  {
    AboveOne(len);
    if len > 1.0 then
      var r := Axis2D(a.x / len, a.y / len);
      UnitAfterDivide(a, len);
      r
    else a
  }

  lemma UnitAfterDivide(a: Axis2D, len: real)
    requires len > 1.0 && len * len == LengthSquared(a)
    ensures LengthSquared(Axis2D(a.x / len, a.y / len)) == 1.0
    ensures (a.x / len) * len == a.x && (a.y / len) * len == a.y
  {
    var (u, v) := (a.x / len, a.y / len);
    assert a.x == u * len && a.y == v * len;
    var sq := len * len;
    assert sq > 0.0 by { AboveOne(len); }
    assert a.x * a.x == (u * u) * sq by { assert a.x * a.x == (u * len) * (u * len); }
    assert a.y * a.y == (v * v) * sq by { assert a.y * a.y == (v * len) * (v * len); }
    assert sq == a.x * a.x + a.y * a.y;
    CancelPositive(u * u, v * v, sq, a.x * a.x, a.y * a.y);
  }

  /** Two shares of a positive whole that sum to it come from fractions
      summing to one. */
  lemma CancelPositive(k1: real, k2: real, q: real, p1: real, p2: real)
    requires q > 0.0 && p1 == k1 * q && p2 == k2 * q && q == p1 + p2
    ensures k1 + k2 == 1.0
  {
    assert (k1 + k2 - 1.0) * q == 0.0;
  }

  /** `GetActionAxis2D`, with the square root of the raw length passed in. */
  function GetActionAxis2D(inp: Input, negX: string, posX: string, negY: string, posY: string,
                           down: set<Key>, len: real): (r: Axis2D)
    requires len >= 0.0 && len * len == LengthSquared(RawAxis2D(inp, negX, posX, negY, posY, down))
    ensures LengthSquared(RawAxis2D(inp, negX, posX, negY, posY, down)) <= 1.0 ==>
      r == RawAxis2D(inp, negX, posX, negY, posY, down)
    ensures LengthSquared(r) <= 1.0
  {
    Normalise(RawAxis2D(inp, negX, posX, negY, posY, down), len)
  }

  // ---------------------------------------------------------------------
  // Mouse mode

  /** The cursor calls the source makes into the window layer. */
  datatype CursorCall = EnableCursor | DisableCursor | ShowCursor | HideCursor

  /** The window layer's cursor: locked (disabled) or free, shown or hidden. */
  datatype Cursor = Cursor(enabled: bool, shown: bool)

  function ApplyCalls(c: Cursor, calls: seq<CursorCall>): Cursor
    decreases |calls|
  {
    if calls == [] then c
    else
      var c1 := match calls[0]
        case EnableCursor => c.(enabled := true)
        case DisableCursor => c.(enabled := false)
        case ShowCursor => c.(shown := true)
        case HideCursor => c.(shown := false);
      ApplyCalls(c1, calls[1..])
  }

  /** What each mode means for the cursor. */
  predicate CursorMatches(m: MouseMode, c: Cursor) {
    match m
    case Visible => c.enabled && c.shown
    case Hidden => c.enabled && !c.shown
    case Captured => !c.enabled && !c.shown
  }

  /** `SetMouseMode`: nothing for the current mode; otherwise the cursor calls
      for the new mode, then the mode is recorded. */
  function SetMouseMode(inp: Input, m: MouseMode): (r: (Input, seq<CursorCall>))
    ensures inp.mouseMode == m ==> r.0 == inp && r.1 == []
    ensures GetMouseMode(r.0) == m && r.0.actions == inp.actions
    ensures inp.mouseMode != m ==> forall c :: CursorMatches(m, ApplyCalls(c, r.1))
  {
    if inp.mouseMode == m then (inp, [])
    else
      var calls := match m
        case Visible => [EnableCursor, ShowCursor]
        case Hidden => [EnableCursor, HideCursor]
        case Captured => [DisableCursor, HideCursor];
      (inp.(mouseMode := m), calls)
  }

  function GetMouseMode(inp: Input): MouseMode { inp.mouseMode }

  /** The recorded mode and the real cursor agree after any sequence of mode
      changes, starting from the visible cursor the window opens with. */
  lemma ModeTracksCursor(inp: Input, c: Cursor, m: MouseMode)
    requires CursorMatches(inp.mouseMode, c)
    ensures var (r, calls) := SetMouseMode(inp, m);
      CursorMatches(GetMouseMode(r), ApplyCalls(c, calls))
  {
  }

  lemma InitialCursorMatches()
    ensures CursorMatches(GetMouseMode(InitialInput), Cursor(true, true))
  {
  }
}
