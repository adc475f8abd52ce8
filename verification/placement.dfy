/**
 * Where the tooltip goes: the automatic choice of a side from the precedence
 * list, the side-to-offset table with its arrow classes, and the padded box
 * of the helper layer. Boxes and the window size are integer parameters in
 * CSS pixels; halves are computed in reals as JavaScript division does.
 */
module Placement {

  /** A box as _getOffset measures it, relative to the document. */
  datatype Box = Box(top: int, left: int, width: int, height: int)

  /** A width and a height: the tooltip's, or the window's. */
  datatype Size = Size(width: int, height: int)

  /** The four sides the automatic placement knows about. */
  const Sides: set<string> := {"bottom", "top", "right", "left"}

  // ---------------------------------------------------------------------------
  // _removeEntry
  // ---------------------------------------------------------------------------

  /** Array.prototype.indexOf: the first index holding x, or -1. */
  function IndexOf<T(==)>(list: seq<T>, x: T): (i: int)
    ensures -1 <= i < |list|
    ensures i == -1 <==> x !in list
    ensures i >= 0 ==> list[i] == x && x !in list[..i]
  {
    if |list| == 0 then -1
    else if list[0] == x then 0
    else
      var j := IndexOf(list[1..], x);
      assert list[1..][..if j < 0 then 0 else j] == list[1..1 + (if j < 0 then 0 else j)];
      if j == -1 then -1 else j + 1
  }

  /**
   * _removeEntry: the first occurrence of x spliced out, the list unchanged
   * when x is absent. The source mutates the array in place; here the
   * shortened list is the result.
   */
  function RemoveEntry<T(==)>(list: seq<T>, x: T): (r: seq<T>)
    ensures x !in list ==> r == list
    ensures forall s :: s in r ==> s in list
  {
    if |list| == 0 then []
    else if list[0] == x then list[1..]
    else [list[0]] + RemoveEntry(list[1..], x)
  }

  /** One copy of x leaves the list and nothing else changes in its contents. */
  lemma {:induction false} RemoveEntryCount<T>(list: seq<T>, x: T)
    ensures multiset(RemoveEntry(list, x)) == multiset(list) - multiset{x}
  {
    if |list| > 0 {
      assert list == [list[0]] + list[1..];
      if list[0] != x {
        RemoveEntryCount(list[1..], x);
      }
    }
  }

  /** The element removed is the one at indexOf: the list is spliced there. */
  lemma RemoveEntrySplices<T>(list: seq<T>, x: T)
    requires x in list
    ensures var i := IndexOf(list, x);
      0 <= i && RemoveEntry(list, x) == list[..i] + list[i + 1..]
  {
    var i := IndexOf(list, x);
    assert list == list[..i] + [x] + list[i + 1..];
    RemoveAfterPrefix(list[..i], x, list[i + 1..]);
  }

  /** With no copy of x in front of it, the x between a and b is the one removed. */
  lemma {:induction false} RemoveAfterPrefix<T>(a: seq<T>, x: T, b: seq<T>)
    requires x !in a
    ensures RemoveEntry(a + [x] + b, x) == a + b
  {
    if |a| == 0 {
      assert a + [x] + b == [x] + b;
      assert ([x] + b)[1..] == b;
    } else {
      var list := a + [x] + b;
      assert list[0] == a[0] && list[0] != x;
      assert list[1..] == a[1..] + [x] + b;
      assert x !in a[1..];
      RemoveAfterPrefix(a[1..], x, b);
      assert a + b == [a[0]] + (a[1..] + b);
    }
  }

  /** Only the first copy goes: with x twice, one copy stays. */
  lemma RemoveEntryKeepsLaterCopy()
    ensures RemoveEntry(["bottom", "top", "bottom"], "bottom") == ["top", "bottom"]
  {
  }

  // ---------------------------------------------------------------------------
  // _determineAutoPosition
  // ---------------------------------------------------------------------------

  /** The tooltip with its margins would spill off the window horizontally. */
  predicate HorizontalOverflow(target: Box, tooltip: Size, window: Size) {
    var tw := tooltip.width + 20;
    target.left + tw > window.width || (target.left as real + target.width as real / 2.0) - tw as real < 0.0
  }

  /** A side that the automatic placement eliminates for these boxes. */
  predicate Blocked(side: string, target: Box, tooltip: Size, window: Size) {
    var tw := tooltip.width + 20;
    var th := tooltip.height + 10;
    if side == "bottom" then HorizontalOverflow(target, tooltip, window) || target.height + target.top + th > window.height
    else if side == "top" then HorizontalOverflow(target, tooltip, window) || target.top - th < 0
    else if side == "right" then target.width + target.left + tw > window.width
    else if side == "left" then target.left - tw < 0
    else false
  }

  /** The side, as a one-entry set, when it is blocked. */
  function IfBlocked(side: string, target: Box, tooltip: Size, window: Size): set<string> {
    if Blocked(side, target, tooltip, window) then {side} else {}
  }

  /** The sides eliminated for these boxes. */
  function Eliminated(target: Box, tooltip: Size, window: Size): (b: set<string>)
    ensures forall s :: s in b <==> s in Sides && Blocked(s, target, tooltip, window)
  {
    IfBlocked("bottom", target, tooltip, window) + IfBlocked("top", target, tooltip, window)
    + IfBlocked("right", target, tooltip, window) + IfBlocked("left", target, tooltip, window)
  }

  /** The entries of a list outside a set, in list order. */
  function Survivors(list: seq<string>, out: set<string>): (r: seq<string>)
    ensures forall s :: s in r <==> s in list && s !in out
    ensures |r| <= |list|
  {
    if |list| == 0 then []
    else if list[0] in out then Survivors(list[1..], out)
    else [list[0]] + Survivors(list[1..], out)
  }

  /** The first index of the list whose entry is outside the set, or |list|. */
  function FirstOutside(list: seq<string>, out: set<string>): (i: nat)
    ensures i <= |list|
    ensures i < |list| ==> list[i] !in out
    ensures forall k :: 0 <= k < i ==> list[k] in out
  {
    if |list| == 0 then 0
    else if list[0] !in out then 0
    else 1 + FirstOutside(list[1..], out)
  }

  /** The head of the survivors is the first entry outside the set. */
  lemma {:induction false} SurvivorsHead(list: seq<string>, out: set<string>)
    ensures var i := FirstOutside(list, out);
      (i < |list| <==> |Survivors(list, out)| > 0) &&
      (i < |list| ==> Survivors(list, out)[0] == list[i])
  {
    if |list| > 0 && list[0] in out {
      SurvivorsHead(list[1..], out);
    }
  }

  /** A list in which no entry occurs twice. */
  predicate Distinct(list: seq<string>) {
    forall i, j :: 0 <= i < j < |list| ==> list[i] != list[j]
  }

  lemma {:induction false} SurvivorsOfNone(list: seq<string>)
    ensures Survivors(list, {}) == list
  {
    if |list| > 0 {
      SurvivorsOfNone(list[1..]);
      assert list == [list[0]] + list[1..];
    }
  }

  lemma {:induction false} SurvivorsIgnoreAbsent(list: seq<string>, out: set<string>, x: string)
    requires x !in list
    ensures Survivors(list, out + {x}) == Survivors(list, out)
  {
    if |list| > 0 {
      assert list[0] != x && x !in list[1..];
      SurvivorsIgnoreAbsent(list[1..], out, x);
    }
  }

  /** On a list without repeats, removing one entry from the survivors is adding it to the set. */
  lemma {:induction false} RemoveFromSurvivors(list: seq<string>, out: set<string>, x: string)
    requires Distinct(list)
    ensures RemoveEntry(Survivors(list, out), x) == Survivors(list, out + {x})
  {
    if |list| > 0 {
      var tail := list[1..];
      assert Distinct(tail) by {
        forall i, j | 0 <= i < j < |tail| ensures tail[i] != tail[j] {
          assert tail[i] == list[i + 1] && tail[j] == list[j + 1];
        }
      }
      if list[0] in out {
        RemoveFromSurvivors(tail, out, x);
      } else if list[0] == x {
        assert x !in tail by {
          forall k | 0 <= k < |tail| ensures tail[k] != x {
            assert tail[k] == list[k + 1];
          }
        }
        SurvivorsIgnoreAbsent(tail, out, x);
      } else {
        RemoveFromSurvivors(tail, out, x);
      }
    }
  }

  /** The survivors of the elimination, in the order of the precedence list. */
  function Surviving(precedence: seq<string>, target: Box, tooltip: Size, window: Size): (r: seq<string>)
    ensures forall s :: s in r ==> s in precedence
  {
    var p1 :=
      if HorizontalOverflow(target, tooltip, window) then RemoveEntry(RemoveEntry(precedence, "bottom"), "top")
      else
        var pb := if Blocked("bottom", target, tooltip, window) then RemoveEntry(precedence, "bottom") else precedence;
        if Blocked("top", target, tooltip, window) then RemoveEntry(pb, "top") else pb;
    var p2 := if Blocked("right", target, tooltip, window) then RemoveEntry(p1, "right") else p1;
    if Blocked("left", target, tooltip, window) then RemoveEntry(p2, "left") else p2
  }

  /** A side the step asked for: set and not "auto". */
  predicate Requested(desired: string) {
    desired != "" && desired != "auto"
  }

  /**
   * _determineAutoPosition: the requested side when it survived the
   * elimination, else the first survivor, else "floating".
   */
  function DetermineAutoPosition(precedence: seq<string>, target: Box, tooltip: Size, window: Size,
                                 desired: string): (r: string)
    ensures r in precedence || r == "floating"
  {
    var survivors := Surviving(precedence, target, tooltip, window);
    var calculated := if |survivors| > 0 then survivors[0] else "floating";
    if Requested(desired) && desired in survivors then desired else calculated
  }

  /** The list with the side removed when the side is blocked. */
  function DropIfBlocked(list: seq<string>, side: string, target: Box, tooltip: Size, window: Size): seq<string> {
    if Blocked(side, target, tooltip, window) then RemoveEntry(list, side) else list
  }

  /** The elimination of the source, every side checked on its own. */
  lemma SurvivingSideBySide(precedence: seq<string>, target: Box, tooltip: Size, window: Size)
    ensures Surviving(precedence, target, tooltip, window)
         == DropIfBlocked(DropIfBlocked(DropIfBlocked(DropIfBlocked(precedence, "bottom", target, tooltip, window),
              "top", target, tooltip, window), "right", target, tooltip, window), "left", target, tooltip, window)
  {
  }

  /** One elimination step on the survivors of a list without repeats. */
  lemma EliminateStep(list: seq<string>, out: set<string>, side: string, target: Box, tooltip: Size, window: Size)
    requires Distinct(list)
    ensures DropIfBlocked(Survivors(list, out), side, target, tooltip, window)
            == Survivors(list, out + IfBlocked(side, target, tooltip, window))
  {
    if Blocked(side, target, tooltip, window) {
      RemoveFromSurvivors(list, out, side);
    } else {
      assert out + IfBlocked(side, target, tooltip, window) == out;
    }
  }

  /** With no side repeated in the list, the survivors are exactly the entries not blocked, in order. */
  lemma SurvivingIsFilter(precedence: seq<string>, target: Box, tooltip: Size, window: Size)
    requires Distinct(precedence)
    ensures Surviving(precedence, target, tooltip, window) == Survivors(precedence, Eliminated(target, tooltip, window))
  {
    SurvivingSideBySide(precedence, target, tooltip, window);
    SurvivorsOfNone(precedence);
    var e0: set<string> := {};
    var e1 := e0 + IfBlocked("bottom", target, tooltip, window);
    var e2 := e1 + IfBlocked("top", target, tooltip, window);
    var e3 := e2 + IfBlocked("right", target, tooltip, window);
    var e4 := e3 + IfBlocked("left", target, tooltip, window);
    EliminateStep(precedence, e0, "bottom", target, tooltip, window);
    EliminateStep(precedence, e1, "top", target, tooltip, window);
    EliminateStep(precedence, e2, "right", target, tooltip, window);
    EliminateStep(precedence, e3, "left", target, tooltip, window);
    assert e4 == Eliminated(target, tooltip, window);
  }

  /**
   * The choice of _determineAutoPosition on a list without repeats: the
   * requested side if it is listed and not blocked; otherwise the first listed
   * side that is not blocked; "floating" when every listed side is blocked.
   */
  lemma AutoPositionChoice(precedence: seq<string>, target: Box, tooltip: Size, window: Size, desired: string)
    requires Distinct(precedence)
    ensures var r := DetermineAutoPosition(precedence, target, tooltip, window, desired);
      var i := FirstOutside(precedence, Eliminated(target, tooltip, window));
      (Requested(desired) && desired in precedence && !Blocked(desired, target, tooltip, window) ==> r == desired) &&
      (!(Requested(desired) && desired in precedence && !Blocked(desired, target, tooltip, window)) ==>
         r == (if i < |precedence| then precedence[i] else "floating")) &&
      (r != "floating" ==> !Blocked(r, target, tooltip, window))
  {
    var e := Eliminated(target, tooltip, window);
    SurvivingIsFilter(precedence, target, tooltip, window);
    SurvivorsHead(precedence, e);
    var survivors := Survivors(precedence, e);
    assert desired in survivors <==> desired in precedence && !Blocked(desired, target, tooltip, window) by {
      EliminatedIsBlocked(desired, target, tooltip, window);
    }
    if |survivors| > 0 {
      assert survivors[0] in survivors;
      EliminatedIsBlocked(survivors[0], target, tooltip, window);
    }
  }

  /** Outside the four sides nothing is blocked, so elimination and blocking agree on every name. */
  lemma EliminatedIsBlocked(s: string, target: Box, tooltip: Size, window: Size)
    ensures s in Eliminated(target, tooltip, window) <==> Blocked(s, target, tooltip, window)
  {
    if s !in Sides {
      assert s != "bottom" && s != "top" && s != "right" && s != "left";
    }
  }

  /** With a side listed twice, the elimination removes one copy and the other is chosen though blocked. */
  lemma RepeatedSideSurvives()
    ensures var target := Box(0, 0, 100, 100);
      Blocked("bottom", target, Size(200, 50), Size(100, 100)) &&
      DetermineAutoPosition(["bottom", "bottom"], target, Size(200, 50), Size(100, 100), "auto") == "bottom"
  {
    var target := Box(0, 0, 100, 100);
    assert HorizontalOverflow(target, Size(200, 50), Size(100, 100));
    assert RemoveEntry(["bottom", "bottom"], "bottom") == ["bottom"];
    assert RemoveEntry(["bottom"], "top") == ["bottom"];
    assert RemoveEntry(["bottom"], "right") == ["bottom"];
  }

  /**
   * A 40x40 target at (550, 750) in an 800x600 window with a 200x100 tooltip,
   * default precedence: the tooltip is too wide for the right-hand edge, so
   * bottom and top both go, right goes, and left is chosen.
   */
  lemma CornerTargetGoesLeft()
    ensures DetermineAutoPosition(["bottom", "top", "right", "left"], Box(550, 750, 40, 40), Size(200, 100),
                                  Size(800, 600), "auto") == "left"
  {
    var target := Box(550, 750, 40, 40);
    assert HorizontalOverflow(target, Size(200, 100), Size(800, 600));
    assert RemoveEntry(["bottom", "top", "right", "left"], "bottom") == ["top", "right", "left"];
    assert RemoveEntry(["top", "right", "left"], "top") == ["right", "left"];
    assert RemoveEntry(["right", "left"], "right") == ["left"];
  }

  /**
   * The side _placeTooltip uses (intro.js:653-658): an "auto" step, or any
   * step under the "auto" tour option, is resolved unless it is "floating".
   */
  function ResolvePosition(stepPosition: string, tourPosition: string, precedence: seq<string>,
                           target: Box, tooltip: Size, window: Size): (r: string)
    ensures stepPosition == "floating" ==> r == "floating"
    ensures stepPosition != "auto" && tourPosition != "auto" ==> r == stepPosition
    ensures stepPosition == "auto" ==> r in precedence || r == "floating"
    ensures r == stepPosition || r in precedence || r == "floating"
  {
    if (stepPosition == "auto" || tourPosition == "auto") && stepPosition != "floating" then
      DetermineAutoPosition(precedence, target, tooltip, window, stepPosition)
    else stepPosition
  }

  // ---------------------------------------------------------------------------
  // _placeTooltip: the side-to-offset table
  // ---------------------------------------------------------------------------

  /** A CSS length as the table writes it: left unset, pixels, or a percentage. */
  datatype Len = Unset | Px(px: real) | Percent(pct: int)

  /** The direction part of the arrow's class name. */
  datatype ArrowClass = Top | TopRight | TopMiddle | Bottom | BottomRight | Left | LeftBottom | Right | RightBottom

  /** The arrow: hidden, or shown with a class. */
  datatype Arrow = Hidden | Shown(cls: ArrowClass)

  /** The tooltip's offsets from the highlighted element and the arrow's look. */
  datatype Layout = Layout(top: Len, right: Len, bottom: Len, left: Len, arrow: Arrow)

  /** What the table reads of the step and the tour. */
  datatype Placing = Placing(target: Box, tooltip: Size, window: Size, offsetX: int, offsetY: int,
                             showStepNumbers: bool)

  /**
   * A negative offset written as '-' followed by the number: "-5px" for 5;
   * for a negative number the text is "--5px", which is not a CSS length, so
   * the assignment is ignored (Unset here) and the property keeps the value
   * it had before.
   */
  function Minus(v: real): (l: Len)
    ensures v >= 0.0 ==> l.Px? && l.px == -v
    ensures v < 0.0 ==> l == Unset
  {
    if v >= 0.0 then Px(-v) else Unset
  }

  /** The tooltip would reach below the window if its top met the element's. */
  predicate Flips(p: Placing) {
    p.target.top + p.tooltip.height > p.window.height
  }

  /**
   * The table, with the vertical shift of the "right-bottom-aligned" side
   * given as a parameter: the source passes offsetX there, the evident
   * intention is offsetY.
   */
  function Table(side: string, p: Placing, rightBottomShift: int): (l: Layout) {
    var th := p.tooltip.height as real;
    var ox := p.offsetX as real;
    var oy := p.offsetY as real;
    var tw := p.target.width as real;
    var centred := Px(tw / 2.0 - p.tooltip.width as real / 2.0 + ox);
    match side
    case "top" => Layout(Minus(th + 10.0 - oy), Unset, Unset, Px(15.0 + ox), Shown(Bottom))
    case "top-left-aligned" => Layout(Minus(th + 10.0 - oy), Unset, Unset, Px(15.0 + ox), Shown(Bottom))
    case "top-right-aligned" => Layout(Minus(th + 10.0 - oy), Px(0.0 - ox), Unset, Unset, Shown(BottomRight))
    case "right" => RightOf(p)
    case "right-top-aligned" => RightOf(p)
    case "right-bottom-aligned" =>
      Layout(Unset, Unset, Px(0.0 - rightBottomShift as real), Px(tw + 20.0 + ox), Shown(LeftBottom))
    case "left" => LeftOf(p)
    case "left-top-aligned" => LeftOf(p)
    case "left-bottom-aligned" =>
      Layout(Unset, Px(tw + (if p.showStepNumbers then 30.0 else 20.0) - ox), Px(0.0 - oy), Unset, Shown(RightBottom))
    case "floating" => Layout(Percent(50), Unset, Unset, Percent(50), Hidden)
    case "bottom-right-aligned" => Layout(Unset, Px(0.0 - ox), Minus(th + 10.0 + oy), Unset, Shown(TopRight))
    case "bottom-middle-aligned" => Layout(Unset, Unset, Minus(th + 10.0 + oy), centred, Shown(TopMiddle))
    case _ => Layout(Unset, Unset, Minus(th + 10.0 + oy), centred, Shown(Top))
  }

  /** The "right" and "right-top-aligned" rows, with the flip to the element's bottom. */
  function RightOf(p: Placing): Layout {
    var left := Px(p.target.width as real + 20.0 + p.offsetX as real);
    if Flips(p) then
      var top := Minus(p.tooltip.height as real - p.target.height as real - 20.0 - p.offsetY as real);
      Layout(top, Unset, Unset, left, Shown(LeftBottom))
    else Layout(Unset, Unset, Unset, left, Shown(Left))
  }

  /** The "left" and "left-top-aligned" rows, with the flip to the element's bottom. */
  function LeftOf(p: Placing): Layout {
    var right := Px(p.target.width as real + 20.0 - p.offsetX as real);
    var numbered := if p.showStepNumbers then Px(15.0 + p.offsetY as real) else Unset;
    if Flips(p) then
      // an ignored assignment leaves the top the step-number branch wrote
      var top := Minus(p.tooltip.height as real - p.target.height as real - 20.0 - p.offsetY as real);
      Layout(if top.Unset? then numbered else top, right, Unset, Unset, Shown(RightBottom))
    else Layout(numbered, right, Unset, Unset, Shown(Right))
  }

  /** The offset table of _placeTooltip as written. */
  function PlaceTooltipAsWritten(side: string, p: Placing): (l: Layout)
    ensures side != "right-bottom-aligned" ==> l == PlaceTooltip(side, p)
  {
    Table(side, p, p.offsetX)
  }

  /** The offset table of _placeTooltip, with both bottom-aligned sides shifted by offsetY. */
  function PlaceTooltip(side: string, p: Placing): (l: Layout)
    ensures side == "floating" <==> l.arrow.Hidden?
  {
    Table(side, p, p.offsetY)
  }

  /** Where the tooltip stands relative to the element for each side name. */
  datatype Family = Above | RightSide | LeftSide | Below | Centre

  function FamilyOf(side: string): Family {
    if side in {"top", "top-left-aligned", "top-right-aligned"} then Above
    else if side in {"right", "right-top-aligned", "right-bottom-aligned"} then RightSide
    else if side in {"left", "left-top-aligned", "left-bottom-aligned"} then LeftSide
    else if side == "floating" then Centre
    else Below
  }

  /** The edge of the tooltip that an arrow points out of. */
  function ArrowEdge(a: Arrow): Family {
    match a
    case Hidden => Centre
    case Shown(c) =>
      match c
      case Top | TopRight | TopMiddle => Above
      case Bottom | BottomRight => Below
      case Left | LeftBottom => LeftSide
      case Right | RightBottom => RightSide
  }

  function Opposite(f: Family): Family {
    match f
    case Above => Below
    case Below => Above
    case RightSide => LeftSide
    case LeftSide => RightSide
    case Centre => Centre
  }

  /** Every side's arrow leaves the tooltip on the edge that faces the element. */
  lemma ArrowFacesElement(side: string, p: Placing)
    ensures ArrowEdge(PlaceTooltip(side, p).arrow) == Opposite(FamilyOf(side))
  {
  }

  /**
   * The gaps: a tooltip above ends 10px (less offsetY) above the element, one
   * below starts 10px (plus offsetY) under it, one to the right starts 20px
   * (plus offsetX) past it and one to the left ends 20px (less offsetX) before it.
   */
  lemma Gaps(side: string, p: Placing)
    ensures var l := PlaceTooltip(side, p);
      var th := p.tooltip.height as real;
      (FamilyOf(side) == Above && th + 10.0 >= p.offsetY as real ==>
         l.top.Px? && l.top.px + th == p.offsetY as real - 10.0) &&
      (FamilyOf(side) == Below && th + 10.0 + p.offsetY as real >= 0.0 ==>
         l.bottom.Px? && l.bottom.px + th == -(10.0 + p.offsetY as real)) &&
      (FamilyOf(side) == RightSide ==>
         l.left.Px? && l.left.px - p.target.width as real == 20.0 + p.offsetX as real) &&
      (FamilyOf(side) == LeftSide && side != "left-bottom-aligned" ==>
         l.right.Px? && l.right.px - p.target.width as real == 20.0 - p.offsetX as real)
  {
  }

  /**
   * The "-bottom" flip of the right and left sides: when the tooltip would
   * reach below the window, its bottom edge is placed 20px (plus offsetY)
   * below the element's, and the arrow moves to the bottom.
   */
  lemma FlipAnchorsBottom(side: string, p: Placing)
    requires side in {"right", "right-top-aligned", "left", "left-top-aligned"}
    ensures var l := PlaceTooltip(side, p);
      var th := p.tooltip.height as real;
      var depth := th - p.target.height as real - 20.0 - p.offsetY as real;
      (Flips(p) <==> l.arrow in {Shown(LeftBottom), Shown(RightBottom)}) &&
      (Flips(p) && depth >= 0.0 ==> l.top.Px? && l.top.px + th == p.target.height as real + 20.0 + p.offsetY as real) &&
      (Flips(p) && depth < 0.0 ==>
         l.top == (if FamilyOf(side) == LeftSide && p.showStepNumbers then Px(15.0 + p.offsetY as real) else Unset))
  {
  }

  /**
   * "right-bottom-aligned" as written moves the tooltip's bottom by offsetX,
   * so offsetY has no effect there, while "left-bottom-aligned" uses offsetY.
   */
  lemma RightBottomIgnoresOffsetY()
    ensures var p := Placing(Box(0, 0, 100, 40), Size(200, 80), Size(800, 600), 0, 15, false);
      PlaceTooltipAsWritten("right-bottom-aligned", p).bottom == Px(0.0) &&
      PlaceTooltipAsWritten("left-bottom-aligned", p).bottom == Px(-15.0)
  {
  }

  /** Both bottom-aligned sides move the tooltip's bottom edge by offsetY and by nothing else. */
  lemma BottomAlignedFollowOffsetY(p: Placing)
    ensures PlaceTooltip("right-bottom-aligned", p).bottom == Px(-(p.offsetY as real))
    ensures PlaceTooltip("left-bottom-aligned", p).bottom == Px(-(p.offsetY as real))
  {
  }

  // ---------------------------------------------------------------------------
  // _setHelperLayerPosition
  // ---------------------------------------------------------------------------

  /** The helper layer's box; halves of the padding make it real. */
  datatype Frame = Frame(top: real, left: real, width: real, height: real)

  /**
   * _setHelperLayerPosition: the element's box grown by the padding, half on
   * each side; a floating step gets no padding.
   */
  function HelperLayerPosition(element: Box, padding: int, floating: bool): (f: Frame)
    ensures f.top + f.height / 2.0 == element.top as real + element.height as real / 2.0
    ensures f.left + f.width / 2.0 == element.left as real + element.width as real / 2.0
    ensures floating ==> f == Frame(element.top as real, element.left as real, element.width as real, element.height as real)
    ensures !floating ==> f.width - element.width as real == padding as real
    ensures !floating ==> f.height - element.height as real == padding as real
  {
    var pad := if floating then 0.0 else padding as real;
    Frame(element.top as real - pad / 2.0, element.left as real - pad / 2.0,
          element.width as real + pad, element.height as real + pad)
  }

  /** With a non-negative padding the helper layer covers the element. */
  lemma HelperLayerCovers(element: Box, padding: nat, floating: bool)
    ensures var f := HelperLayerPosition(element, padding, floating);
      f.top <= element.top as real && f.left <= element.left as real &&
      element.top as real + element.height as real <= f.top + f.height &&
      element.left as real + element.width as real <= f.left + f.width
  {
  }
}
