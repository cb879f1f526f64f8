/** Windows on the screen: the layout engine's rectangles handed out by the slot assignment. */
module Placement {
  import opened Assignments
  import opened Geometry
  import opened Layout

  /** Where the window of instance i goes. */
  function WindowRect(spec: LayoutSpec, area: Rect, slots: seq<nat>, i: nat): Rect
    requires Permutation(slots) && i < |slots|
  {
    SlotRect(spec, area, |slots|, slots[i])
  }

  /** Layouts that divide the area rather than pile windows up. */
  predicate Divides(spec: LayoutSpec, area: Rect, n: nat) {
    && n > 0
    && match spec.kind
       case Stacked => false
       case Grid => area.w >= 0 && area.h >= 0
       case Pip => 2 <= n <= TWO32 && PipFits(spec, area)
  }

  function Rows(spec: LayoutSpec, n: nat): int {
    if spec.rows <= 0 || spec.cols <= 0 then GridRows(n) else spec.rows
  }

  function Cols(spec: LayoutSpec, n: nat): int {
    if spec.rows <= 0 || spec.cols <= 0 then GridCols(n) else spec.cols
  }

  lemma GridIsReal(spec: LayoutSpec, n: nat)
    requires n > 0
    ensures Rows(spec, n) > 0 && Cols(spec, n) > 0
    ensures spec.rows <= 0 || spec.cols <= 0 ==> n <= Rows(spec, n) * Cols(spec, n) < n + Cols(spec, n)
  {
    DerivedGridFits(n);
  }

  /** The slot that a pixel of the area belongs to. */
  function SlotOfPixel(spec: LayoutSpec, area: Rect, n: nat, x: int, y: int): int
    requires Divides(spec, area, n) && area.Contains(x, y)
  {
    if spec.kind.Pip? then PipIndex(spec, area, n, x, y)
    else
      GridIsReal(spec, n);
      CellIndex(area, Rows(spec, n), Cols(spec, n), x, y)
  }

  lemma SlotTiles(spec: LayoutSpec, area: Rect, n: nat, slot: nat, x: int, y: int)
    requires Divides(spec, area, n) && slot < n
    ensures SlotRect(spec, area, n, slot).Contains(x, y)
            <==> area.Contains(x, y) && slot == SlotOfPixel(spec, area, n, x, y)
    ensures area.Contains(x, y) ==> SlotOfPixel(spec, area, n, x, y) >= 0
    ensures area.Contains(x, y) && spec.kind.Pip? ==> SlotOfPixel(spec, area, n, x, y) < n
  {
    if spec.kind.Pip? {
      PipTiles(spec, area, n, slot, x, y);
    } else {
      GridIsReal(spec, n);
      GridTiles(area, Rows(spec, n), Cols(spec, n), slot, x, y);
    }
  }

  /** Is the pixel's slot one that somebody has? */
  predicate Occupied(spec: LayoutSpec, area: Rect, n: nat, x: int, y: int)
    requires Divides(spec, area, n)
  {
    area.Contains(x, y) && 0 <= SlotOfPixel(spec, area, n, x, y) < n
  }

  /**
   * Whatever the assignment has become, windows never overlap, never leave the area, and a pixel whose slot is taken
   * shows exactly one window: that of the instance holding the slot.
   */
  lemma WindowsTile(spec: LayoutSpec, area: Rect, slots: seq<nat>, i: nat, x: int, y: int)
    requires Permutation(slots) && i < |slots| && Divides(spec, area, |slots|)
    ensures WindowRect(spec, area, slots, i).Contains(x, y)
            <==> Occupied(spec, area, |slots|, x, y) && i == InstanceAt(slots, SlotOfPixel(spec, area, |slots|, x, y))
    ensures Occupied(spec, area, |slots|, x, y) ==> 0 <= InstanceAt(slots, SlotOfPixel(spec, area, |slots|, x, y)) < |slots|
    ensures spec.kind.Pip? && area.Contains(x, y) ==> Occupied(spec, area, |slots|, x, y)
  {
    SlotTiles(spec, area, |slots|, slots[i], x, y);
    InstanceAtInverts(slots);
  }

  /** A swap trades the two windows' rectangles and leaves every other window where it was. */
  lemma SwapTradesWindows(spec: LayoutSpec, area: Rect, slots: seq<nat>, next: nat, i: nat)
    requires Permutation(slots) && next < |slots| && i < |slots|
    ensures Permutation(WithMaster(slots, next)) && |WithMaster(slots, next)| == |slots| && MasterOf(slots) < |slots|
    ensures
      WindowRect(spec, area, WithMaster(slots, next), i)
      == WindowRect(spec, area, slots, if i == next then MasterOf(slots) else if i == MasterOf(slots) then next else i)
    ensures WindowRect(spec, area, WithMaster(slots, next), next) == SlotRect(spec, area, |slots|, 0)
  {
    SetMasterEffect(slots, next);
    InstanceAtInverts(slots);
  }
}
