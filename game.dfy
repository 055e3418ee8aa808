/**
  The Game object of main.go without its drawing: the simulator it drives, one trail and
  one last position per body, the selection, the force histories and the add tool.
*/
module GameState {
  import opened Wrappers
  import opened Vectors
  import opened Colors
  import opened Physics
  import opened Integrator
  import opened Config
  import opened Simulation
  import opened Interaction

  /** The zero colour color.RGBA{} is replaced by the default colour; any other is kept. */
  function FixColor(b: Body): (c: Body)
    ensures c.color != Transparent
    ensures b.color == Transparent ==> c == b.(color := DefaultColor)
    ensures b.color != Transparent ==> c == b
  {
    if b.color == Transparent then b.(color := DefaultColor) else b
  }

  function FixedColors(s: seq<Body>): (t: seq<Body>)
    ensures |t| == |s|
  {
    seq(|s|, k requires 0 <= k < |s| => FixColor(s[k]))
  }

  /** The fix-up of the zero colour never changes a simulator built from a configuration. */
  lemma FixedColorsOfBuilt(s: seq<BodyConfig>)
    ensures FixedColors(Built(s)) == Built(s)
  {
    forall k | 0 <= k < |s|
      ensures FixedColors(Built(s))[k] == Built(s)[k]
    {
      BuiltNeverTransparent(s, k);
    }
  }

  /** The selected body after the L key: Locked flips, and the colour shows the new flag. */
  function ToggledLocked(b: Body): (c: Body)
    ensures c.locked == !b.locked
    ensures c.color == (if c.locked then LockedColor else DefaultColor)
    ensures c == b.(locked := !b.locked, color := c.color)
  {
    var c := b.(locked := !b.locked);
    c.(color := if c.locked then LockedColor else DefaultColor)
  }

  /** The selected body after the V key: Anti flips, and the colour shows the new flag. */
  function ToggledAnti(b: Body): (c: Body)
    ensures c.anti == !b.anti
    ensures c.color == (if c.anti then AntiColor else DefaultColor)
    ensures c == b.(anti := !b.anti, color := c.color)
  {
    var c := b.(anti := !b.anti);
    c.(color := if c.anti then AntiColor else DefaultColor)
  }

  /** The selected body after a mass key: only its mass is multiplied by `f`. Any factor other than 0 keeps a nonzero mass nonzero. */
  function ScaledMass(b: Body, f: real): (c: Body)
    ensures c == b.(mass := c.mass) && c.mass == b.mass * f
    ensures f != 0.0 && b.mass != 0.0 ==> c.mass != 0.0
  {
    b.(mass := b.mass * f)
  }

  /** The selected body after a radius key: only its radius is multiplied by `f`. Positive factors keep a positive radius positive. */
  function ScaledRadius(b: Body, f: real): (c: Body)
    ensures c == b.(radius := c.radius) && c.radius == b.radius * f
    ensures 0.0 < f && 0.0 < b.radius ==> 0.0 < c.radius
  {
    b.(radius := b.radius * f)
  }

  /**
    Pressing L twice gives the Locked flag back, but not a colour of the body's own: the
    body ends grey if it was locked and in the default colour otherwise.
  */
  lemma ToggledLockedTwice(b: Body)
    ensures ToggledLocked(ToggledLocked(b)) == b.(color := if b.locked then LockedColor else DefaultColor)
  {
  }

  /**
    The V key on body k of the slice reverses that body's pull on any observer: the
    acceleration it contributes is negated, and the sum moves by twice its old term.
  */
  lemma ToggledAntiFlipsPull(b1: Body, s: seq<Body>, k: nat, sqrt: real -> real)
    requires b1.mass != 0.0
    requires k < |s|
    ensures Contribution(b1, ToggledAnti(s[k]), sqrt) == Contribution(b1, s[k], sqrt).Mul(-1.0)
    ensures AccelSum(b1, s[k := ToggledAnti(s[k])], sqrt)
         == AccelSum(b1, s, sqrt).Sub(Contribution(b1, s[k], sqrt).Mul(2.0))
  {
    var flipped := s[k].(anti := !s[k].anti);
    AntiNegates(b1, s[k], sqrt);
    assert Contribution(b1, ToggledAnti(s[k]), sqrt) == Contribution(b1, flipped, sqrt);
    AccelReplace(b1, s, k, ToggledAnti(s[k]), sqrt);
  }

  /** After the L key has locked body k, the next sweep leaves that body where it is. */
  lemma ToggledLockedStaysPut(s: seq<Body>, k: nat, dt: real, sqrt: real -> real)
    requires k < |s| && AllMassive(s) && !s[k].locked
    ensures Step(s[k := ToggledLocked(s[k])], dt, sqrt)[k].pos == s[k].pos
  {
    var t := s[k := ToggledLocked(s[k])];
    assert AllMassive(t) by {
      forall i | 0 <= i < |t| ensures t[i].mass != 0.0 {
        assert t[i].mass == s[i].mass;
      }
    }
    LockedStepKeepsPlace(t, dt, sqrt, k);
  }

  /** The position of every body, in order. */
  function Positions(s: seq<Body>): (p: seq<Vec2>)
    ensures |p| == |s| && forall i :: 0 <= i < |s| ==> p[i] == s[i].pos
  {
    seq(|s|, i requires 0 <= i < |s| => s[i].pos)
  }

  /** A trail as advanceOneStep leaves it: at most 600 segments, none of them faded out. */
  predicate TrailOk(t: seq<TrailSegment>)
  {
    |t| <= MaxTrailSegments && forall j :: 0 <= j < |t| ==> t[j].life > 0.0
  }

  predicate TrailsOk(ts: seq<seq<TrailSegment>>)
  {
    forall i :: 0 <= i < |ts| ==> TrailOk(ts[i])
  }

  /** The three force histories have one length, within the cap. */
  predicate HistoriesOk(f: seq<real>, fx: seq<real>, fy: seq<real>, max: nat)
  {
    |fx| == |f| && |fy| == |f| && |f| <= max
  }

  /**
    The helper arrays main and resetSimulation set up after loading: the last position
    of every body is its position and its trail is empty; a body of the zero colour is
    given the default colour.
  */
  method InitHelpers(a: array<Body>) returns (lastPos: seq<Vec2>, trails: seq<seq<TrailSegment>>)
    modifies a
    ensures a[..] == FixedColors(old(a[..]))
    ensures lastPos == Positions(a[..])
    ensures |trails| == a.Length && TrailsOk(trails) && forall i :: 0 <= i < a.Length ==> trails[i] == []
  {
    ghost var s := a[..];
    lastPos, trails := [], [];
    for i := 0 to a.Length
      invariant |lastPos| == i && |trails| == i
      invariant forall k :: 0 <= k < i ==> a[k] == FixColor(s[k]) && lastPos[k] == a[k].pos && trails[k] == []
      invariant forall k :: i <= k < a.Length ==> a[k] == s[k]
    {
      lastPos := lastPos + [a[i].pos];
      trails := trails + [[]];
      if a[i].color == Transparent {
        a[i] := a[i].(color := DefaultColor);
      }
    }
    assert lastPos == Positions(a[..]);
  }

  /** The body the add tool places at world position `pos`: red if anti, grey if locked, else the default colour. */
  function AddedBody(pos: Vec2, mass: real, radius: real, locked: bool, anti: bool): (b: Body)
    ensures b.color.a == 255 && FixColor(b) == b
  {
    var c := if anti then AntiColor else if locked then LockedColor else DefaultColor;
    Body(mass, pos, Vec2(0.0, 0.0), Vec2(0.0, 0.0), radius, c, locked, anti)
  }

  /** The added body is at rest where it was placed, with the tool's settings and a colour showing its flags. */
  lemma AddedBodyShape(pos: Vec2, mass: real, radius: real, locked: bool, anti: bool)
    ensures var b := AddedBody(pos, mass, radius, locked, anti);
      b.pos == pos && b.vel == Zero && b.acc == Zero && b.mass == mass && b.radius == radius &&
      b.locked == locked && b.anti == anti &&
      (anti ==> b.color == AntiColor) && (!anti && locked ==> b.color == LockedColor) &&
      (!anti && !locked ==> b.color == DefaultColor)
  {
  }

  /** append on the body slice: a new array holding the old bodies followed by `b`. */
  method AppendBody(a: array<Body>, b: Body) returns (r: array<Body>)
    ensures fresh(r) && r[..] == a[..] + [b]
  {
    r := new Body[a.Length + 1](k requires 0 <= k <= a.Length reads a => if k < a.Length then a[k] else b);
  }

  /** The trail bookkeeping of advanceOneStep for one body: append, cap at 600, fade and compact. */
  method UpdateTrail(trail: seq<TrailSegment>, last: Vec2, b: Body, dt: real) returns (r: seq<TrailSegment>)
    ensures r == TrailStep(trail, last, b, dt)
  {
    var t := trail + [NewSegment(last, b)];
    if |t| > MaxTrailSegments {
      t := t[|t| - MaxTrailSegments..];
    }
    var a := new TrailSegment[|t|](k requires 0 <= k < |t| => t[k]);
    assert a[..] == t;
    var n := CompactTrail(a, dt);
    r := a[..n];
  }

  /** The history bookkeeping of advanceOneStep: append, then keep the last `cap` entries. */
  method PushHistory(h: seq<real>, x: real, cap: nat) returns (r: seq<real>)
    ensures r == KeepLast(h + [x], cap)
  {
    r := h + [x];
    if |r| > cap {
      r := r[|r| - cap..];
    }
  }

  /** Every trail of `nt` is the step of the trail of `t` at the same index, drawn from its last position to its body. */
  predicate TrailsStepped(nt: seq<seq<TrailSegment>>, t: seq<seq<TrailSegment>>, last: seq<Vec2>, bodies: seq<Body>, dt: real)
  {
    |nt| == |t| && |last| == |t| && |bodies| == |t| &&
    forall i :: 0 <= i < |nt| ==> nt[i] == TrailStep(t[i], last[i], bodies[i], dt)
  }

  /** The trail loop of advanceOneStep over all bodies: each trail steps, each last position moves to its body. */
  method UpdateTrails(trails: seq<seq<TrailSegment>>, lastPos: seq<Vec2>, bodies: seq<Body>, dt: real)
    returns (nt: seq<seq<TrailSegment>>, nl: seq<Vec2>)
    requires |trails| == |bodies| && |lastPos| == |bodies|
    ensures TrailsStepped(nt, trails, lastPos, bodies, dt) && TrailsOk(nt)
    ensures nl == Positions(bodies)
  {
    nt, nl := trails, lastPos;
    for i := 0 to |bodies|
      invariant |nt| == |bodies| && |nl| == |bodies|
      invariant forall k :: 0 <= k < i ==> nt[k] == TrailStep(trails[k], lastPos[k], bodies[k], dt) && nl[k] == bodies[k].pos
      invariant forall k :: i <= k < |bodies| ==> nt[k] == trails[k] && nl[k] == lastPos[k]
    {
      var b := bodies[i];
      var t := UpdateTrail(nt[i], nl[i], b, dt);
      nl := nl[i := b.pos];
      nt := nt[i := t];
    }
    assert nl == Positions(bodies);
  }

  class Game {
    var sim: Simulator
    var trails: seq<seq<TrailSegment>>
    var lastPos: seq<Vec2>
    var paused: bool
    var selA: int
    var selB: int
    var showComponents: bool
    var forceHistory: seq<real>
    var forceHistoryMax: nat
    var fxHistory: seq<real>
    var fyHistory: seq<real>
    var addMode: bool
    var addLocked: bool
    var addAnti: bool
    var addMass: real
    var addRadius: real
    var initialConfigPath: string
    var resetModalOpen: bool

    /**
      The bookkeeping invariant: one last position (the body's position) and one trail
      (at most 600 live segments) per body, a well-formed selection, three histories of
      one length within the cap, and the add tool's defaults while it is on.
    */
    ghost predicate Valid()
      reads this, sim, sim.bodies
    {
      lastPos == Positions(sim.bodies[..]) &&
      |trails| == sim.bodies.Length && TrailsOk(trails) &&
      SelectionOk(selA, selB, sim.bodies.Length) &&
      HistoriesOk(forceHistory, fxHistory, fyHistory, forceHistoryMax) &&
      (addMode ==> addMass == 100.0 && addRadius == 8.0)
    }

    /** The three force histories and their cap, compared as one value in frame clauses. */
    ghost function Histories(): (seq<real>, seq<real>, seq<real>, nat)
      reads this
    {
      (forceHistory, fxHistory, fyHistory, forceHistoryMax)
    }

    /** The add tool's settings other than its on/off switch. */
    ghost function Tool(): (bool, bool, real, real)
      reads this
    {
      (addLocked, addAnti, addMass, addRadius)
    }

    /** The Game main builds around a loaded simulator: helpers set up, nothing selected, history cap 600. */
    constructor (s: Simulator, path: string)
      modifies s.bodies
      ensures Valid() && sim == s && s.bodies == old(s.bodies)
      ensures s.bodies[..] == FixedColors(old(s.bodies[..]))
      ensures forall i :: 0 <= i < |trails| ==> trails[i] == []
      ensures selA == -1 && selB == -1
      ensures forceHistoryMax == DefaultHistoryMax && forceHistory == [] && fxHistory == [] && fyHistory == []
      ensures !paused && !addMode && !resetModalOpen && !showComponents && initialConfigPath == path
    {
      var lp, tr := InitHelpers(s.bodies);
      sim := s;
      trails := tr;
      lastPos := lp;
      paused := false;
      selA, selB := -1, -1;
      showComponents := false;
      forceHistory, fxHistory, fyHistory := [], [], [];
      forceHistoryMax := DefaultHistoryMax;
      addMode, addLocked, addAnti := false, false, false;
      addMass, addRadius := 0.0, 0.0;
      initialConfigPath := path;
      resetModalOpen := false;
    }

    /** The Add button: the tool flips; switched on, it is reset to mass 100, radius 8, unlocked, attracting. */
    method ToggleAddMode()
      requires Valid()
      modifies this
      ensures sim == old(sim) && trails == old(trails) && lastPos == old(lastPos)
      ensures selA == old(selA) && selB == old(selB) && Histories() == old(Histories())
      ensures paused == old(paused) && showComponents == old(showComponents)
      ensures initialConfigPath == old(initialConfigPath) && resetModalOpen == old(resetModalOpen)
      ensures Valid()
      ensures addMode == !old(addMode)
      ensures addMode ==> addMass == 100.0 && addRadius == 8.0 && !addLocked && !addAnti
      ensures !addMode ==> Tool() == old(Tool())
    {
      addMode := !addMode;
      if addMode {
        addMass := 100.0;
        addRadius := 8.0;
        addLocked := false;
        addAnti := false;
      }
    }

    /** The Comp button: the component view flips only while two bodies are selected; nothing else changes. */
    method ToggleComponents()
      requires Valid()
      modifies this
      ensures sim == old(sim) && trails == old(trails) && lastPos == old(lastPos)
      ensures selA == old(selA) && selB == old(selB) && Histories() == old(Histories())
      ensures addMode == old(addMode) && Tool() == old(Tool())
      ensures paused == old(paused) && initialConfigPath == old(initialConfigPath) && resetModalOpen == old(resetModalOpen)
      ensures Valid()
      ensures showComponents == if old(selA) != -1 && old(selB) != -1 then !old(showComponents) else old(showComponents)
    {
      if selA != -1 && selB != -1 {
        showComponents := !showComponents;
      }
    }

    /**
      The L key: with the add tool on it flips the tool's Locked flag; otherwise it flips
      Locked of body selA and recolours it, and does nothing when no body is selected.
    */
    method KeyLocked()
      requires Valid()
      modifies this, sim.bodies
      ensures sim == old(sim) && sim.bodies == old(sim.bodies)
      ensures sim.name == old(sim.name) && sim.dt == old(sim.dt)
      ensures trails == old(trails) && lastPos == old(lastPos)
      ensures selA == old(selA) && selB == old(selB) && Histories() == old(Histories())
      ensures addMode == old(addMode) && paused == old(paused) && showComponents == old(showComponents)
      ensures initialConfigPath == old(initialConfigPath) && resetModalOpen == old(resetModalOpen)
      ensures Valid()
      ensures old(addMode) ==>
        sim.bodies[..] == old(sim.bodies[..]) && Tool() == (!old(addLocked), old(addAnti), old(addMass), old(addRadius))
      ensures !old(addMode) ==> Tool() == old(Tool())
      ensures !old(addMode) && old(selA) == -1 ==> sim.bodies[..] == old(sim.bodies[..])
      ensures !old(addMode) && old(selA) != -1 ==>
        sim.bodies[..] == old(sim.bodies[..])[old(selA) := ToggledLocked(old(sim.bodies[selA]))]
    {
      if addMode {
        addLocked := !addLocked;
      } else if selA != -1 {
        sim.bodies[selA] := ToggledLocked(sim.bodies[selA]);
        assert Positions(sim.bodies[..]) == Positions(old(sim.bodies[..]));
      }
    }

    /**
      The V key: with the add tool on it flips the tool's Anti flag; otherwise it flips
      Anti of body selA and recolours it, and does nothing when no body is selected.
    */
    method KeyAnti()
      requires Valid()
      modifies this, sim.bodies
      ensures sim == old(sim) && sim.bodies == old(sim.bodies)
      ensures sim.name == old(sim.name) && sim.dt == old(sim.dt)
      ensures trails == old(trails) && lastPos == old(lastPos)
      ensures selA == old(selA) && selB == old(selB) && Histories() == old(Histories())
      ensures addMode == old(addMode) && paused == old(paused) && showComponents == old(showComponents)
      ensures initialConfigPath == old(initialConfigPath) && resetModalOpen == old(resetModalOpen)
      ensures Valid()
      ensures old(addMode) ==>
        sim.bodies[..] == old(sim.bodies[..]) && Tool() == (old(addLocked), !old(addAnti), old(addMass), old(addRadius))
      ensures !old(addMode) ==> Tool() == old(Tool())
      ensures !old(addMode) && old(selA) == -1 ==> sim.bodies[..] == old(sim.bodies[..])
      ensures !old(addMode) && old(selA) != -1 ==>
        sim.bodies[..] == old(sim.bodies[..])[old(selA) := ToggledAnti(old(sim.bodies[selA]))]
    {
      if addMode {
        addAnti := !addAnti;
      } else if selA != -1 {
        sim.bodies[selA] := ToggledAnti(sim.bodies[selA]);
        assert Positions(sim.bodies[..]) == Positions(old(sim.bodies[..]));
      }
    }

    /**
      The mass keys and buttons (=/K and -/J, + and - next to the mass): the mass of body
      selA is multiplied by `f` (1.1 or 0.9 in main.go); nothing happens without a selection.
      A nonzero factor keeps every mass nonzero, as the integrator needs.
    */
    method ScaleMass(f: real)
      requires Valid()
      modifies sim.bodies
      ensures unchanged(this) && unchanged(sim)
      ensures Valid()
      ensures old(selA) == -1 ==> sim.bodies[..] == old(sim.bodies[..])
      ensures old(selA) != -1 ==>
        sim.bodies[..] == old(sim.bodies[..])[old(selA) := ScaledMass(old(sim.bodies[selA]), f)]
      ensures f != 0.0 && AllMassive(old(sim.bodies[..])) ==> AllMassive(sim.bodies[..])
    {
      if selA != -1 {
        sim.bodies[selA] := ScaledMass(sim.bodies[selA], f);
        assert Positions(sim.bodies[..]) == Positions(old(sim.bodies[..]));
        assert forall i :: 0 <= i < sim.bodies.Length && i != selA ==> sim.bodies[i] == old(sim.bodies[i]);
      }
    }

    /**
      The radius keys and buttons (R and T, + and - next to the radius): the radius of body
      selA is multiplied by `f` (1.1 or 0.9 in main.go); nothing happens without a selection.
    */
    method ScaleRadius(f: real)
      requires Valid()
      modifies sim.bodies
      ensures unchanged(this) && unchanged(sim)
      ensures Valid()
      ensures old(selA) == -1 ==> sim.bodies[..] == old(sim.bodies[..])
      ensures old(selA) != -1 ==>
        sim.bodies[..] == old(sim.bodies[..])[old(selA) := ScaledRadius(old(sim.bodies[selA]), f)]
    {
      if selA != -1 {
        sim.bodies[selA] := ScaledRadius(sim.bodies[selA], f);
        assert Positions(sim.bodies[..]) == Positions(old(sim.bodies[..]));
      }
    }

    /**
      A click outside the buttons with the add tool off: the hit body toggles in the
      selection, and the histories are emptied exactly when the selection changed.
    */
    method SelectAt(mx: int, my: int, sqrt: real -> real) returns (clicked: int)
      requires Valid()
      modifies this
      ensures sim == old(sim) && trails == old(trails) && lastPos == old(lastPos)
      ensures forceHistoryMax == old(forceHistoryMax) && addMode == old(addMode) && Tool() == old(Tool())
      ensures paused == old(paused) && showComponents == old(showComponents)
      ensures initialConfigPath == old(initialConfigPath) && resetModalOpen == old(resetModalOpen)
      ensures Valid()
      ensures -1 <= clicked < sim.bodies.Length
      ensures clicked == -1 <==> forall k :: 0 <= k < sim.bodies.Length ==> !Hittable(sim.bodies[k], MouseWorld(mx, my), sqrt)
      ensures clicked == -1 ==> selA == old(selA) && selB == old(selB)
      ensures clicked != -1 ==> (selA, selB) == NextSelection(old(selA), old(selB), clicked)
      ensures (selA, selB) != (old(selA), old(selB)) ==> forceHistory == [] && fxHistory == [] && fyHistory == []
      ensures (selA, selB) == (old(selA), old(selB)) ==>
        forceHistory == old(forceHistory) && fxHistory == old(fxHistory) && fyHistory == old(fyHistory)
    {
      var mouse := MouseWorld(mx, my);
      clicked := HitTest(sim.bodies[..], mouse, sqrt);
      if clicked >= 0 {
        NextSelectionOk(selA, selB, clicked, sim.bodies.Length);
        var next := NextSelection(selA, selB, clicked);
        SetSelection(next.0, next.1);
      }
    }

    /** The selection becomes (a, b); the histories are emptied exactly when that changes it. */
    method SetSelection(a: int, b: int)
      modifies this
      ensures sim == old(sim) && trails == old(trails) && lastPos == old(lastPos)
      ensures forceHistoryMax == old(forceHistoryMax) && addMode == old(addMode) && Tool() == old(Tool())
      ensures paused == old(paused) && showComponents == old(showComponents)
      ensures initialConfigPath == old(initialConfigPath) && resetModalOpen == old(resetModalOpen)
      ensures selA == a && selB == b
      ensures (a, b) != (old(selA), old(selB)) ==> forceHistory == [] && fxHistory == [] && fyHistory == []
      ensures (a, b) == (old(selA), old(selB)) ==>
        forceHistory == old(forceHistory) && fxHistory == old(fxHistory) && fyHistory == old(fyHistory)
    {
      if a != selA || b != selB {
        forceHistory, fxHistory, fyHistory := [], [], [];
      }
      selA, selB := a, b;
    }

    /**
      A click outside the buttons with the add tool on: a body with the tool's settings is
      appended at the clicked world position, with its last position and an empty trail.
    */
    method AddBodyAt(mx: int, my: int)
      requires Valid() && addMode
      modifies this, sim
      ensures sim == old(sim) && fresh(sim.bodies)
      ensures sim.name == old(sim.name) && sim.dt == old(sim.dt)
      ensures selA == old(selA) && selB == old(selB) && Histories() == old(Histories())
      ensures addMode && Tool() == old(Tool())
      ensures paused == old(paused) && showComponents == old(showComponents)
      ensures initialConfigPath == old(initialConfigPath) && resetModalOpen == old(resetModalOpen)
      ensures Valid()
      ensures sim.bodies[..] == old(sim.bodies[..]) + [AddedBody(MouseWorld(mx, my), addMass, addRadius, addLocked, addAnti)]
      ensures lastPos == old(lastPos) + [MouseWorld(mx, my)] && trails == old(trails) + [[]]
      ensures AllMassive(old(sim.bodies[..])) ==> AllMassive(sim.bodies[..])
    {
      var pos := MouseWorld(mx, my);
      var nb := Body(addMass, pos, Vec2(0.0, 0.0), Vec2(0.0, 0.0), addRadius, DefaultColor, addLocked, addAnti);
      if nb.anti {
        nb := nb.(color := AntiColor);
      } else if nb.locked {
        nb := nb.(color := LockedColor);
      }
      ghost var before := sim.bodies[..];
      sim.bodies := AppendBody(sim.bodies, nb);
      lastPos := lastPos + [nb.pos];
      trails := trails + [[]];
      assert Positions(before + [nb]) == Positions(before) + [nb.pos];
      assert TrailOk([]);
    }

    /**
      A click on the world: with the add tool on, a body is added as AddBodyAt says and
      `clicked` is -1; otherwise the click selects as SelectAt says and `clicked` is the
      body hit, or -1.
    */
    method ClickWorld(mx: int, my: int, sqrt: real -> real) returns (clicked: int)
      requires Valid()
      modifies this, sim
      ensures sim == old(sim) && sim.name == old(sim.name) && sim.dt == old(sim.dt)
      ensures addMode == old(addMode) && Tool() == old(Tool())
      ensures paused == old(paused) && showComponents == old(showComponents)
      ensures initialConfigPath == old(initialConfigPath) && resetModalOpen == old(resetModalOpen)
      ensures Valid()
      ensures old(addMode) ==>
        clicked == -1 && fresh(sim.bodies) && selA == old(selA) && selB == old(selB) &&
        Histories() == old(Histories()) &&
        sim.bodies[..] == old(sim.bodies[..]) + [AddedBody(MouseWorld(mx, my), addMass, addRadius, addLocked, addAnti)] &&
        lastPos == old(lastPos) + [MouseWorld(mx, my)] && trails == old(trails) + [[]]
      ensures !old(addMode) ==>
        sim.bodies == old(sim.bodies) && sim.bodies[..] == old(sim.bodies[..]) &&
        trails == old(trails) && lastPos == old(lastPos) && forceHistoryMax == old(forceHistoryMax) &&
        -1 <= clicked < sim.bodies.Length &&
        (clicked == -1 <==> forall k :: 0 <= k < sim.bodies.Length ==> !Hittable(sim.bodies[k], MouseWorld(mx, my), sqrt)) &&
        (clicked == -1 ==> selA == old(selA) && selB == old(selB)) &&
        (clicked != -1 ==> (selA, selB) == NextSelection(old(selA), old(selB), clicked)) &&
        ((selA, selB) != (old(selA), old(selB)) ==> forceHistory == [] && fxHistory == [] && fyHistory == []) &&
        ((selA, selB) == (old(selA), old(selB)) ==>
          forceHistory == old(forceHistory) && fxHistory == old(fxHistory) && fyHistory == old(fyHistory))
    {
      if addMode {
        AddBodyAt(mx, my);
        clicked := -1;
      } else {
        clicked := SelectAt(mx, my, sqrt);
      }
    }

    /**
      The bookkeeping of advanceOneStep after the sweep: with two bodies selected their
      readout is pushed on the three histories, each trimmed to the cap (600 if it was 0);
      then every trail gains its segment, is capped, faded and compacted, and every last
      position is moved to its body.
    */
    method Refresh(sqrt: real -> real)
      requires IsSqrt(sqrt)
      requires |trails| == sim.bodies.Length && |lastPos| == sim.bodies.Length
      requires SelectionOk(selA, selB, sim.bodies.Length)
      requires HistoriesOk(forceHistory, fxHistory, fyHistory, forceHistoryMax)
      requires addMode ==> addMass == 100.0 && addRadius == 8.0
      modifies this
      ensures sim == old(sim) && selA == old(selA) && selB == old(selB)
      ensures addMode == old(addMode) && Tool() == old(Tool())
      ensures paused == old(paused) && showComponents == old(showComponents)
      ensures initialConfigPath == old(initialConfigPath) && resetModalOpen == old(resetModalOpen)
      ensures Valid()
      ensures TrailsStepped(trails, old(trails), old(lastPos), sim.bodies[..], sim.dt)
      ensures old(selA) != -1 && old(selB) != -1 ==>
        var r := PairForce(sim.bodies[selA], sim.bodies[selB], sqrt);
        forceHistoryMax == HistoryCap(old(forceHistoryMax)) &&
        forceHistory == KeepLast(old(forceHistory) + [r.0], forceHistoryMax) &&
        fxHistory == KeepLast(old(fxHistory) + [r.1], forceHistoryMax) &&
        fyHistory == KeepLast(old(fyHistory) + [r.2], forceHistoryMax)
      ensures old(selA) == -1 || old(selB) == -1 ==> Histories() == old(Histories())
    {
      var cap, f, fx, fy := forceHistoryMax, forceHistory, fxHistory, fyHistory;
      if selA != -1 && selB != -1 {
        var r := PairForce(sim.bodies[selA], sim.bodies[selB], sqrt);
        cap := HistoryCap(cap);
        f := PushHistory(f, r.0, cap);
        fx := PushHistory(fx, r.1, cap);
        fy := PushHistory(fy, r.2, cap);
      }
      var nt, nl := UpdateTrails(trails, lastPos, sim.bodies[..], sim.dt);
      Store(cap, f, fx, fy, nt, nl);
    }

    /** Replaces the histories, their cap, the trails and the last positions; nothing else changes. */
    method Store(cap: nat, f: seq<real>, fx: seq<real>, fy: seq<real>, nt: seq<seq<TrailSegment>>, nl: seq<Vec2>)
      modifies this
      ensures sim == old(sim) && selA == old(selA) && selB == old(selB)
      ensures addMode == old(addMode) && Tool() == old(Tool())
      ensures paused == old(paused) && showComponents == old(showComponents)
      ensures initialConfigPath == old(initialConfigPath) && resetModalOpen == old(resetModalOpen)
      ensures forceHistoryMax == cap && forceHistory == f && fxHistory == fx && fyHistory == fy
      ensures trails == nt && lastPos == nl
    {
      forceHistoryMax, forceHistory, fxHistory, fyHistory, trails, lastPos := cap, f, fx, fy, nt, nl;
    }

    /** advanceOneStep: one integrator sweep with the simulator's step, then the bookkeeping of Refresh. */
    method AdvanceOneStep(sqrt: real -> real)
      requires Valid() && AllMassive(sim.bodies[..]) && IsSqrt(sqrt)
      modifies this, sim, sim.bodies
      ensures sim == old(sim) && sim.bodies == old(sim.bodies)
      ensures sim.name == old(sim.name) && sim.dt == old(sim.dt)
      ensures selA == old(selA) && selB == old(selB)
      ensures addMode == old(addMode) && Tool() == old(Tool())
      ensures paused == old(paused) && showComponents == old(showComponents)
      ensures initialConfigPath == old(initialConfigPath) && resetModalOpen == old(resetModalOpen)
      ensures Valid()
      ensures sim.bodies[..] == Step(old(sim.bodies[..]), sim.dt, sqrt)
      ensures TrailsStepped(trails, old(trails), old(lastPos), sim.bodies[..], sim.dt)
      ensures old(selA) != -1 && old(selB) != -1 ==>
        var r := PairForce(sim.bodies[selA], sim.bodies[selB], sqrt);
        forceHistoryMax == HistoryCap(old(forceHistoryMax)) &&
        forceHistory == KeepLast(old(forceHistory) + [r.0], forceHistoryMax) &&
        fxHistory == KeepLast(old(fxHistory) + [r.1], forceHistoryMax) &&
        fyHistory == KeepLast(old(fyHistory) + [r.2], forceHistoryMax)
      ensures old(selA) == -1 || old(selB) == -1 ==> Histories() == old(Histories())
    {
      sim.Update(sqrt);
      Refresh(sqrt);
    }

    /**
      The end of Game.Update: while paused nothing changes; otherwise the simulation
      advances by one advanceOneStep.
    */
    method Tick(sqrt: real -> real)
      requires Valid() && AllMassive(sim.bodies[..]) && IsSqrt(sqrt)
      modifies this, sim, sim.bodies
      ensures sim == old(sim) && sim.bodies == old(sim.bodies)
      ensures sim.name == old(sim.name) && sim.dt == old(sim.dt)
      ensures selA == old(selA) && selB == old(selB)
      ensures addMode == old(addMode) && Tool() == old(Tool())
      ensures paused == old(paused) && showComponents == old(showComponents)
      ensures initialConfigPath == old(initialConfigPath) && resetModalOpen == old(resetModalOpen)
      ensures Valid()
      ensures old(paused) ==>
        sim.bodies[..] == old(sim.bodies[..]) && trails == old(trails) && lastPos == old(lastPos) &&
        Histories() == old(Histories())
      ensures !old(paused) ==>
        sim.bodies[..] == Step(old(sim.bodies[..]), sim.dt, sqrt) &&
        TrailsStepped(trails, old(trails), old(lastPos), sim.bodies[..], sim.dt)
      ensures !old(paused) && old(selA) != -1 && old(selB) != -1 ==>
        var r := PairForce(sim.bodies[selA], sim.bodies[selB], sqrt);
        forceHistoryMax == HistoryCap(old(forceHistoryMax)) &&
        forceHistory == KeepLast(old(forceHistory) + [r.0], forceHistoryMax) &&
        fxHistory == KeepLast(old(fxHistory) + [r.1], forceHistoryMax) &&
        fyHistory == KeepLast(old(fyHistory) + [r.2], forceHistoryMax)
      ensures !old(paused) && (old(selA) == -1 || old(selB) == -1) ==> Histories() == old(Histories())
    {
      if paused {
        return;
      }
      AdvanceOneStep(sqrt);
    }

    /** The part of resetSimulation after a successful load: the new simulator with fresh helpers and no selection. */
    method Install(s: Simulator)
      requires Valid()
      modifies this, s.bodies
      ensures sim == s && s.bodies == old(s.bodies)
      ensures forceHistoryMax == old(forceHistoryMax) && addMode == old(addMode) && Tool() == old(Tool())
      ensures paused == old(paused) && showComponents == old(showComponents)
      ensures initialConfigPath == old(initialConfigPath) && resetModalOpen == old(resetModalOpen)
      ensures Valid()
      ensures s.bodies[..] == FixedColors(old(s.bodies[..]))
      ensures forall i :: 0 <= i < |trails| ==> trails[i] == []
      ensures selA == -1 && selB == -1 && forceHistory == [] && fxHistory == [] && fyHistory == []
    {
      var lp, tr := InitHelpers(s.bodies);
      sim := s;
      lastPos := lp;
      trails := tr;
      selA, selB := -1, -1;
      forceHistory, fxHistory, fyHistory := [], [], [];
    }

    /**
      resetSimulation with `loaded`, the outcome of reading and decoding the file at
      initialConfigPath: without a path, or when loading failed, the error is returned and
      nothing changes; otherwise the new simulator replaces the old one, the helpers are set
      up again, the selection and histories are cleared, and the add tool, the modal and
      the pause are switched off.
    */
    method Reset(loaded: Result<EnvironmentConfig, string>, sqrt: real -> real) returns (err: Option<string>)
      requires Valid()
      requires loaded.Success? && loaded.value.autoOrbit ==> OrbitsDefined(loaded.value.bodies, sqrt)
      modifies this
      ensures initialConfigPath == old(initialConfigPath) && forceHistoryMax == old(forceHistoryMax)
      ensures Tool() == old(Tool()) && showComponents == old(showComponents)
      ensures Valid()
      ensures old(initialConfigPath) == "" ==> err == Some("no initial config path set")
      ensures old(initialConfigPath) != "" && loaded.Failure? ==> err == Some(loaded.error)
      ensures err.Some? ==>
        sim == old(sim) && trails == old(trails) && lastPos == old(lastPos) &&
        selA == old(selA) && selB == old(selB) && Histories() == old(Histories()) &&
        addMode == old(addMode) && paused == old(paused) && resetModalOpen == old(resetModalOpen)
      ensures old(initialConfigPath) != "" && loaded.Success? ==>
        err == None && fresh(sim) && fresh(sim.bodies) &&
        sim.name == loaded.value.name && sim.dt == loaded.value.dt &&
        sim.bodies[..] == Built(Prepared(loaded.value, sqrt).bodies) &&
        (forall i :: 0 <= i < |trails| ==> trails[i] == []) &&
        selA == -1 && selB == -1 && forceHistory == [] && fxHistory == [] && fyHistory == [] &&
        !addMode && !resetModalOpen && !paused
    {
      if initialConfigPath == "" {
        return Some("no initial config path set");
      }
      var r := LoadConfig(loaded, sqrt);
      if r.Failure? {
        return Some(r.error);
      }
      FixedColorsOfBuilt(Prepared(loaded.value, sqrt).bodies);
      Install(r.value);
      addMode := false;
      resetModalOpen := false;
      paused := false;
      return None;
    }
  }
}
