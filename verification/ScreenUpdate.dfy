/** Screen updates on electronic paper: what is drawn in a prepare phase stays hidden until a later update shows it. */
module ScreenUpdate {
  import opened Pixels

  datatype Rect = Rect(left: int, top: int, right: int, bottom: int)

  const EMPTY: Rect := Rect(0, 0, 0, 0)

  predicate IsEmpty(r: Rect) {
    r.left >= r.right || r.top >= r.bottom
  }

  function Area(r: Rect): set<(int, int)> {
    set x, y | r.left <= x < r.right && r.top <= y < r.bottom :: (x, y)
  }

  /** A rectangle to be updated lies on the screen, whose coordinates are not negative. */
  predicate OnScreen(r: Rect) {
    IsEmpty(r) || (0 <= r.left && 0 <= r.top)
  }

  datatype Mode = NormalMode | PrepareMode

  /** The update fields of the screen, and the pixels drawn while automatic drawing was off and not shown since. */
  datatype State = State(mode: Mode, forceNext: bool, forceRect: Rect, hidden: set<(int, int)>)

  const INITIAL: State := State(NormalMode, false, EMPTY, {})

  function SetMode(s: State, mode: Mode): State {
    if s.mode == mode then s
    else if mode == PrepareMode then s.(mode := mode, forceNext := true, forceRect := EMPTY)
    else s.(mode := mode)
  }

  /** The update rectangle, grown up to the rectangle of the prepared image. */
  function Enlarge(r: Rect, to: Rect): Rect {
    Rect(if r.left > to.left then to.left else r.left, if r.top > to.top then to.top else r.top,
         if r.right < to.right then to.right else r.right, if r.bottom < to.bottom then to.bottom else r.bottom)
  }

  /** The rectangle of the prepared image, grown by one more update; a zero right or bottom edge means "none yet". */
  function Accumulate(f: Rect, r: Rect): Rect {
    Rect(if f.left > r.left || f.right == 0 then r.left else f.left,
         if f.top > r.top || f.bottom == 0 then r.top else f.top,
         if f.right < r.right then r.right else f.right,
         if f.bottom < r.bottom then r.bottom else f.bottom)
  }

  /** Drawing `r`: hidden in a prepare phase, shown otherwise. `got` says whether the image could be fetched. */
  function Draw(s: State, r: Rect, got: bool): State {
    if IsEmpty(r) || !got then s
    else if s.mode == PrepareMode then s.(forceRect := Accumulate(s.forceRect, r), hidden := s.hidden + Area(r))
    else s.(hidden := s.hidden - Area(r))
  }

  /** `update`; `got` and `redrawn` say whether fetching the image and the forced redraw succeed. */
  function Update(s: State, r: Rect, got: bool, redrawn: bool): State {
    if s.forceNext && !IsEmpty(s.forceRect) && s.mode == NormalMode then
      var t := s.(forceNext := false, forceRect := EMPTY);
      if IsEmpty(r) then (if redrawn then t.(hidden := {}) else t)
      else Draw(t, Enlarge(r, s.forceRect), got)
    else Draw(s, r, got)
  }

  class CRXCBScreen {
    var mode: Mode
    var forceNextUpdate: bool
    var forceUpdateRect: Rect
    ghost var hidden: set<(int, int)>

    ghost function Abs(): State
      reads this
    {
      State(mode, forceNextUpdate, forceUpdateRect, hidden)
    }

    constructor ()
      ensures Abs() == INITIAL
    {
      mode, forceNextUpdate, forceUpdateRect, hidden := NormalMode, false, EMPTY, {};
    }

    method SetTurboUpdateMode(newMode: Mode)
      modifies this
      ensures Abs() == SetMode(old(Abs()), newMode)
    {
      if mode == newMode {
        return;
      }
      if newMode == PrepareMode {
        forceNextUpdate := true;
        forceUpdateRect := EMPTY;
      }
      mode := newMode;
    }

    method UpdateScreen(area: Rect, got: bool, redrawn: bool)
      modifies this
      ensures Abs() == Update(old(Abs()), area, got, redrawn)
    {
      var rc := area;
      if forceNextUpdate && !IsEmpty(forceUpdateRect) {
        if mode == NormalMode {
          if IsEmpty(rc) {
            if redrawn {
              hidden := {};
            }
            forceNextUpdate := false;
            forceUpdateRect := EMPTY;
            return;
          }
          rc := GrowToForced(rc);
          forceNextUpdate := false;
          forceUpdateRect := EMPTY;
        }
      }
      if IsEmpty(rc) {
        return;
      }
      if !got {
        return;
      }
      hidden := if mode == PrepareMode then hidden + Area(rc) else hidden - Area(rc);
      if mode == PrepareMode {
        GrowForced(rc);
      }
    }

    method GrowToForced(area: Rect) returns (rc: Rect)
      ensures rc == Enlarge(area, forceUpdateRect)
    {
      rc := area;
      if rc.right < forceUpdateRect.right {
        rc := rc.(right := forceUpdateRect.right);
      }
      if rc.left > forceUpdateRect.left {
        rc := rc.(left := forceUpdateRect.left);
      }
      if rc.bottom < forceUpdateRect.bottom {
        rc := rc.(bottom := forceUpdateRect.bottom);
      }
      if rc.top > forceUpdateRect.top {
        rc := rc.(top := forceUpdateRect.top);
      }
    }

    method GrowForced(rc: Rect)
      modifies this`forceUpdateRect
      ensures forceUpdateRect == Accumulate(old(forceUpdateRect), rc)
    {
      if forceUpdateRect.left > rc.left || forceUpdateRect.right == 0 {
        forceUpdateRect := forceUpdateRect.(left := rc.left);
      }
      if forceUpdateRect.right < rc.right {
        forceUpdateRect := forceUpdateRect.(right := rc.right);
      }
      if forceUpdateRect.top > rc.top || forceUpdateRect.bottom == 0 {
        forceUpdateRect := forceUpdateRect.(top := rc.top);
      }
      if forceUpdateRect.bottom < rc.bottom {
        forceUpdateRect := forceUpdateRect.(bottom := rc.bottom);
      }
    }
  }

  // ---- what stays covered ----

  /** Everything hidden lies inside the rectangle of the prepared image, which the next normal update will show. */
  predicate Covered(s: State) {
    && s.hidden <= Area(s.forceRect)
    && (s.hidden != {} ==> s.forceNext)
    && (s.forceRect == EMPTY || (!IsEmpty(s.forceRect) && OnScreen(s.forceRect)))
    && (s.mode == PrepareMode ==> s.forceNext)
  }

  lemma AccumulateCovers(f: Rect, r: Rect)
    requires !IsEmpty(r) && OnScreen(r) && (f == EMPTY || (!IsEmpty(f) && OnScreen(f)))
    ensures var g := Accumulate(f, r);
            Area(f) + Area(r) <= Area(g) && !IsEmpty(g) && OnScreen(g)
  {
  }

  lemma EnlargeCovers(r: Rect, f: Rect)
    requires !IsEmpty(r)
    ensures Area(r) + Area(f) <= Area(Enlarge(r, f)) && !IsEmpty(Enlarge(r, f))
  {
  }

  /** The rectangles grow no further than they must: any rectangle that holds both of the two that were joined holds the
      result. */
  lemma GrowsNoFurther(f: Rect, r: Rect, h: Rect)
    requires !IsEmpty(r) && Area(r) <= Area(h)
    ensures f == EMPTY && OnScreen(r) ==> Accumulate(f, r) == r
    ensures !IsEmpty(f) && OnScreen(f) && Area(f) <= Area(h) ==> Area(Accumulate(f, r)) <= Area(h)
    ensures !IsEmpty(f) && Area(f) <= Area(h) ==> Area(Enlarge(r, f)) <= Area(h)
  {
    Edges(r, h);
    if !IsEmpty(f) && Area(f) <= Area(h) {
      Edges(f, h);
    }
  }

  lemma Edges(r: Rect, h: Rect)
    requires !IsEmpty(r) && Area(r) <= Area(h)
    ensures h.left <= r.left && r.right <= h.right && h.top <= r.top && r.bottom <= h.bottom
  {
    assert (r.left, r.top) in Area(r) && (r.right - 1, r.bottom - 1) in Area(r);
  }

  /** An update in a prepare phase that gets the image hides exactly the pixels of its area, in addition; one without an
      area, or without the image, changes nothing. */
  lemma PrepareHides(s: State, r: Rect, got: bool, redrawn: bool)
    requires s.mode == PrepareMode
    ensures var t := Update(s, r, got, redrawn);
            && t.mode == s.mode && t.forceNext == s.forceNext
            && (forall x, y :: (x, y) in t.hidden <==>
                  (x, y) in s.hidden || (got && r.left <= x < r.right && r.top <= y < r.bottom))
            && (!got || IsEmpty(r) ==> t == s)
  {
  }

  /** An update in normal mode that gets the image shows the pixels of its area, and hides none. It shows no others when no
      rectangle is kept. */
  lemma NormalShows(s: State, r: Rect, redrawn: bool)
    requires s.mode == NormalMode
    ensures var t := Update(s, r, true, redrawn);
            && (forall x, y :: (x, y) in t.hidden ==>
                  (x, y) in s.hidden && !(r.left <= x < r.right && r.top <= y < r.bottom))
            && (IsEmpty(s.forceRect) ==>
                  forall x, y :: (x, y) in s.hidden && !(r.left <= x < r.right && r.top <= y < r.bottom) ==>
                    (x, y) in t.hidden)
  {
    hide Accumulate;
  }

  /** An update in normal mode whose drawing calls succeed leaves nothing hidden, and nothing to be forced. */
  lemma NormalShowsAll(s: State, r: Rect)
    requires Covered(s) && s.mode == NormalMode
    ensures var t := Update(s, r, true, true);
            t.hidden == {} && Covered(t) && t.mode == NormalMode
  {
    if !IsEmpty(r) {
      EnlargeCovers(r, s.forceRect);
    }
  }

  lemma PrepareKeepsCovered(s: State, r: Rect, got: bool, redrawn: bool)
    requires Covered(s) && s.mode == PrepareMode && OnScreen(r)
    ensures var t := Update(s, r, got, redrawn); Covered(t) && t.mode == PrepareMode
  {
    if !IsEmpty(r) && got {
      AccumulateCovers(s.forceRect, r);
    }
  }

  /** Starting a prepare phase keeps the hidden pixels covered exactly when there are none: it forgets the rectangle. */
  lemma PrepareStartsCovered(s: State)
    requires Covered(s) && s.mode == NormalMode
    ensures Covered(SetMode(s, PrepareMode)) <==> s.hidden == {}
  {
    assert Area(EMPTY) == {};
  }

  // ---- runs ----

  datatype Operation = Switch(mode: Mode) | Show(area: Rect)

  function Act(s: State, op: Operation): State {
    match op
    case Switch(mode) => SetMode(s, mode)
    case Show(area) => Update(s, area, true, true)
  }

  function Run(s: State, ops: seq<Operation>): State
    decreases |ops|
  {
    if ops == [] then s else Run(Act(s, ops[0]), ops[1..])
  }

  /** A run in which every prepare phase is followed by a normal-mode update before the next prepare phase; `pending`
      says that a prepare phase has begun since the last normal-mode update. */
  predicate WellPaced(mode: Mode, pending: bool, ops: seq<Operation>)
    decreases |ops|
  {
    ops == []
    || match ops[0]
       case Switch(m) =>
         if m == mode then WellPaced(mode, pending, ops[1..])
         else if m == PrepareMode then !pending && WellPaced(m, true, ops[1..])
         else WellPaced(m, pending, ops[1..])
       case Show(area) => OnScreen(area) && WellPaced(mode, pending && mode == PrepareMode, ops[1..])
  }

  /** In a well-paced run the hidden pixels stay covered, and a normal-mode update at its end leaves none. */
  lemma {:induction false} RunCovered(s: State, pending: bool, ops: seq<Operation>)
    requires Covered(s) && WellPaced(s.mode, pending, ops)
    requires s.mode == NormalMode && !pending ==> s.hidden == {}
    requires s.mode == PrepareMode ==> pending
    ensures Covered(Run(s, ops))
    decreases |ops|
  {
    if ops != [] {
      match ops[0] {
        case Switch(m) =>
          PrepareSwitch(s, m);
          RunCovered(SetMode(s, m), if m == PrepareMode then true else pending, ops[1..]);
        case Show(area) =>
          if s.mode == NormalMode {
            NormalShowsAll(s, area);
            RunCovered(Update(s, area, true, true), false, ops[1..]);
          } else {
            PrepareKeepsCovered(s, area, true, true);
            RunCovered(Update(s, area, true, true), true, ops[1..]);
          }
      }
    }
  }

  lemma PrepareSwitch(s: State, m: Mode)
    requires Covered(s) && (m == PrepareMode && s.mode == NormalMode ==> s.hidden == {})
    ensures Covered(SetMode(s, m)) && SetMode(s, m).hidden == s.hidden && SetMode(s, m).mode == m
  {
    if s.mode != m && m == PrepareMode {
      PrepareStartsCovered(s);
    }
  }

  /** Main result: after any well-paced run from the start, a normal-mode update shows everything that was drawn. */
  lemma NothingStaysHidden(ops: seq<Operation>, area: Rect)
    requires WellPaced(NormalMode, false, ops) && Run(INITIAL, ops).mode == NormalMode
    ensures Run(INITIAL, ops).hidden <= Area(Run(INITIAL, ops).forceRect)
    ensures Update(Run(INITIAL, ops), area, true, true).hidden == {}
  {
    RunCovered(INITIAL, false, ops);
    NormalShowsAll(Run(INITIAL, ops), area);
  }

  /** Whether the drawing call that a normal-mode update makes succeeds: the forced redraw when nothing has changed since,
      fetching the image otherwise. */
  predicate Succeeds(r: Rect, got: bool, redrawn: bool) {
    if IsEmpty(r) then redrawn else got
  }

  /** Exactly which normal-mode updates show what is hidden: those whose drawing call succeeds. The others forget the
      rectangle without showing any of it. */
  lemma ShowsExactly(s: State, r: Rect, got: bool, redrawn: bool)
    requires Covered(s) && s.mode == NormalMode && s.hidden != {}
    ensures var t := Update(s, r, got, redrawn);
            && t.hidden == (if Succeeds(r, got, redrawn) then {} else s.hidden)
            && t.forceRect == EMPTY && !t.forceNext
  {
    assert Area(EMPTY) == {};
    if !IsEmpty(r) {
      EnlargeCovers(r, s.forceRect);
    }
  }

  /** After a drawing call that failed, pixels that lie outside the rectangle of the next update stay hidden. */
  lemma FailureForgets(s: State, r: Rect, got: bool, redrawn: bool, next: Rect)
    requires Covered(s) && s.mode == NormalMode && s.hidden != {} && !Succeeds(r, got, redrawn)
    ensures var t := Update(s, r, got, redrawn);
            Update(t, next, true, true).hidden == s.hidden - Area(next)
  {
    hide Covered, Succeeds, Enlarge, Accumulate;
    ShowsExactly(s, r, got, redrawn);
    assert IsEmpty(next) ==> Area(next) == {};
  }

  // ---- conversion of a row ----

  /** The inner loop of the conversion from four pixels in a byte to one palette entry for each pixel, with its rolling
      shift: pixel `x` is pixel `x % 4` of byte `x / 4`. */
  method ConvertRow(src: array<bv8>, dst: array<int>, width: nat, pal: seq<int>)
    requires src as object != dst && width <= dst.Length && width <= 4 * src.Length && |pal| == 4
    modifies dst
    ensures forall x :: 0 <= x < width ==> dst[x] == Color(src[x / 4], x % 4, pal)
    ensures forall x :: width <= x < dst.Length ==> dst[x] == old(dst[x])
  {
    var shift := 6;
    for x := 0 to width
      invariant shift == 6 - 2 * (x % 4)
      invariant forall k :: 0 <= k < x ==> dst[k] == Color(src[k / 4], k % 4, pal)
      invariant forall k :: x <= k < dst.Length ==> dst[k] == old(dst[k])
    {
      var data := src[x / 4];
      var pixel := (data >> shift) & 3;
      ShiftIsPixel(data, x % 4);
      dst[x] := pal[pixel as nat];
      shift := shift - 2;
      if shift < 0 {
        shift := 6;
      }
    }
  }

  /** The palette entry of a pixel. */
  function Color(b: bv8, k: nat, pal: seq<int>): int
    requires k < 4 && |pal| == 4
  {
    pal[Pixel(b, k) as nat]
  }

  lemma ShiftIsPixel(data: bv8, k: nat)
    requires k < 4
    ensures (data >> (6 - 2 * k)) & 3 == Pixel(data, k)
  {
    if k == 0 {
      assert (data >> 6) & 3 == Pixel(data, 0);
    } else if k == 1 {
      assert (data >> 4) & 3 == Pixel(data, 1);
    } else if k == 2 {
      assert (data >> 2) & 3 == Pixel(data, 2);
    } else {
      assert (data >> 0) & 3 == Pixel(data, 3);
    }
  }
}
