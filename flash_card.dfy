/**
 * The flash card (src/components/flash-card/flash-card.tsx): two sides, A
 * and B, each hidden or shown. The display mode sets both flags; a click on
 * a side, or on its eye button, flips that side alone.
 */
module FlashCard {
  import opened Wrappers

  /** `FlashCardMode`. */
  datatype Mode = ShowA | ShowB | ShowBoth | HideBoth

  datatype Side = A | B

  /** The hidden flags of the two sides, A first. */
  datatype Flags = Flags(hideA: bool, hideB: bool)

  function Hidden(f: Flags, side: Side): bool
  {
    if side == A then f.hideA else f.hideB
  }

  /** The initial state `useState(mode === "showB")`, `useState(mode === "showA")`. */
  function InitialFlags(mode: Mode): (f: Flags)
    ensures f.hideA <==> mode == ShowB
    ensures f.hideB <==> mode == ShowA
  {
    Flags(mode == ShowB, mode == ShowA)
  }

  /** The flags the mode effect sets: a side is hidden when the mode hides it. */
  function ModeFlags(mode: Mode): (f: Flags)
    ensures f.hideA <==> mode == ShowB || mode == HideBoth
    ensures f.hideB <==> mode == ShowA || mode == HideBoth
  {
    match mode
    case ShowA => Flags(false, true)
    case ShowB => Flags(true, false)
    case ShowBoth => Flags(false, false)
    case HideBoth => Flags(true, true)
  }

  /** Before the effect first runs the flags already agree with the mode, except for `hideBoth`. */
  lemma InitialMatchesModeExceptHideBoth(mode: Mode)
    ensures InitialFlags(mode) == ModeFlags(mode) <==> mode != HideBoth
    ensures InitialFlags(HideBoth) == Flags(false, false)
  {
  }

  /** A side's setter `setHideA` / `setHideB`: that flag set to the given value. */
  function WithHidden(f: Flags, side: Side, hidden: bool): (r: Flags)
    ensures Hidden(r, side) == hidden
    ensures forall other :: other != side ==> Hidden(r, other) == Hidden(f, other)
  {
    if side == A then f.(hideA := hidden) else f.(hideB := hidden)
  }

  /** One side flipped: its flag negated, the other side's kept. */
  function Toggled(f: Flags, side: Side): (r: Flags)
    ensures Hidden(r, side) == !Hidden(f, side)
    ensures forall other :: other != side ==> Hidden(r, other) == Hidden(f, other)
  {
    if side == A then f.(hideA := !f.hideA) else f.(hideB := !f.hideB)
  }

  /** Flipping a side twice restores it; flips of different sides commute. */
  lemma ToggleLaws(f: Flags, s: Side, t: Side)
    ensures Toggled(Toggled(f, s), s) == f
    ensures Toggled(Toggled(f, s), t) == Toggled(Toggled(f, t), s)
  {
  }

  /**
   * `side.setHidden(!side.hidden)` sets the flag to the negation of the
   * value read at render. Flipping is that setter, and calling it a second
   * time with the same rendered value changes nothing, so a click flips a
   * side once however many of its handlers run.
   */
  lemma RenderedSetterLaws(f: Flags, side: Side)
    ensures Toggled(f, side) == WithHidden(f, side, !Hidden(f, side))
    ensures WithHidden(WithHidden(f, side, !Hidden(f, side)), side, !Hidden(f, side)) == Toggled(f, side)
  {
  }

  /** What a side shows for its flag: the eye icon and the eye button's aria-label. */
  datatype Icon = Eye | EyeOff

  datatype SideView = SideView(icon: Icon, ariaLabel: string, blurred: bool)

  function SideId(side: Side): string
  {
    if side == A then "A" else "B"
  }

  function ViewOf(side: Side, hidden: bool): (v: SideView)
    ensures v.icon == EyeOff <==> hidden
    ensures v.blurred == hidden
    ensures v.ariaLabel == SideId(side) + (if hidden then "面を表示" else "面を隠す")
  {
    if hidden then SideView(EyeOff, SideId(side) + "面を表示", true)
    else SideView(Eye, SideId(side) + "面を隠す", false)
  }

  /**
   * A flip switches that side's view between its two forms (icon, eye
   * button label and blur all change) and leaves the other side's view.
   */
  lemma ToggleSwitchesView(f: Flags, side: Side)
    ensures var before := ViewOf(side, Hidden(f, side));
            var after := ViewOf(side, Hidden(Toggled(f, side), side));
            && before.icon != after.icon
            && before.ariaLabel != after.ariaLabel
            && before.blurred != after.blurred
            && {before.ariaLabel, after.ariaLabel} == {SideId(side) + "面を表示", SideId(side) + "面を隠す"}
    ensures forall other :: other != side ==>
              ViewOf(other, Hidden(Toggled(f, side), other)) == ViewOf(other, Hidden(f, other))
  {
    var id := SideId(side);
    assert (id + "面を表示")[|id| + 2] != (id + "面を隠す")[|id| + 2];
  }

  /** `Math.max(0, Math.min(1, sideAWidthRatio))`. */
  function ClampRatio(x: real): (r: real)
    ensures 0.0 <= r <= 1.0
    ensures 0.0 <= x <= 1.0 ==> r == x
    ensures x < 0.0 ==> r == 0.0
    ensures x > 1.0 ==> r == 1.0
  {
    var upper := if x < 1.0 then x else 1.0;
    if upper > 0.0 then upper else 0.0
  }

  const DEFAULT_RATIO: real := 0.5

  /** The widths of the two columns: A's clamped ratio, and the rest for B. */
  function Ratios(sideAWidthRatio: Option<real>): (r: (real, real))
    ensures 0.0 <= r.0 <= 1.0 && 0.0 <= r.1 <= 1.0
    ensures r.0 + r.1 == 1.0
    ensures sideAWidthRatio.None? ==> r == (0.5, 0.5)
  {
    var ratioA := ClampRatio(if sideAWidthRatio.Some? then sideAWidthRatio.value else DEFAULT_RATIO);
    (ratioA, 1.0 - ratioA)
  }

  /** Where a click lands: a side's container, or the eye button inside it. */
  datatype Target = Container | EyeButton

  /** The state of one mounted card. */
  class Card {
    var mode: Mode
    var hideA: bool
    var hideB: bool

    function State(): Flags
      reads this
    {
      Flags(hideA, hideB)
    }

    /** Mounting: the state hooks take their initial values. */
    constructor (mode: Mode)
      ensures this.mode == mode && State() == InitialFlags(mode)
    {
      this.mode := mode;
      hideA := mode == ShowB;
      hideB := mode == ShowA;
    }

    /** The effect on `[mode]`: runs after mounting and after every mode change. */
    method ApplyMode()
      modifies this
      ensures mode == old(mode) && State() == ModeFlags(mode)
    {
      if mode == ShowA {
        hideA := false;
        hideB := true;
      } else if mode == ShowB {
        hideA := true;
        hideB := false;
      } else if mode == ShowBoth {
        hideA := false;
        hideB := false;
      } else if mode == HideBoth {
        hideA := true;
        hideB := true;
      }
    }

    /**
     * A `mode` prop passed to the card. The effect depends on `[mode]`, so it
     * runs only when the value changes; passing the current mode again keeps
     * whatever the reader has revealed or hidden.
     */
    method SetMode(m: Mode)
      modifies this
      ensures mode == m
      ensures old(mode) != m ==> State() == ModeFlags(m)
      ensures old(mode) == m ==> State() == old(State())
    {
      if m != mode {
        mode := m;
        ApplyMode();
      }
    }

    /** The setter of one side's `useState` flag. */
    method SetHidden(side: Side, hidden: bool)
      modifies this
      ensures mode == old(mode) && State() == WithHidden(old(State()), side, hidden)
    {
      if side == A {
        hideA := hidden;
      } else {
        hideB := hidden;
      }
    }

    /**
     * A click dispatched to a side. Both handlers call the setter with the
     * negation of the flag read at render. The eye button's handler runs
     * first and stops propagation, so the container's handler runs only for
     * a click on the container itself; the side flips once either way.
     */
    method Click(side: Side, target: Target)
      modifies this
      ensures mode == old(mode) && State() == Toggled(old(State()), side)
    {
      var rendered := Hidden(State(), side);
      var propagationStopped := false;
      if target == EyeButton {
        SetHidden(side, !rendered);
        propagationStopped := true;
      }
      if !propagationStopped {
        SetHidden(side, !rendered);
      }
    }

    /** What a side currently shows. */
    function View(side: Side): SideView
      reads this
    {
      ViewOf(side, Hidden(State(), side))
    }
  }
}
