/**
 * The integer part of the text detector: after the closed regions of the network's output bitmap
 * are found, each box is grown by its own height on every side, scaled back to the source image
 * and clamped to it. The scaling (a rounding-up multiplication by a floating-point ratio) is the
 * parameter `scale`.
 */
module Detector {

  /** A rectangle as System.Drawing keeps it: a corner and a size. */
  datatype Rectangle = Rectangle(x: int, y: int, width: int, height: int) {
    function Left(): int { x }
    function Top(): int { y }
    function Right(): int { x + width }
    function Bottom(): int { y + height }
  }

  /** Math.Clamp for a range that is not empty (the library throws when `lo > hi`). */
  function Clamp(v: int, lo: int, hi: int): (r: int)
    requires lo <= hi
    ensures lo <= r <= hi
    ensures lo <= v <= hi ==> r == v
    ensures v < lo ==> r == lo
    ensures v > hi ==> r == hi
  {
    if v < lo then lo else if v > hi then hi else v
  }

  /** The box `r` grown by its height on each side, before scaling. */
  datatype Edges = Edges(left: int, top: int, right: int, bottom: int)

  function Grown(r: Rectangle): (e: Edges)
    ensures e.right - e.left == r.width + 2 * r.height && e.bottom - e.top == 3 * r.height
  {
    Edges(r.Left() - r.height, r.Top() - r.height, r.Right() + r.height, r.Bottom() + r.height)
  }

  /**
   * The detector's result for box `r` in a `srcWidth` × `srcHeight` source: the grown edges,
   * scaled, then clamped, the left and top edges first and the others to at least them.
   */
  function Padded(r: Rectangle, srcWidth: nat, srcHeight: nat, scale: int -> int): Rectangle {
    var e := Grown(r);
    var left := Clamp(scale(e.left), 0, srcWidth);
    var top := Clamp(scale(e.top), 0, srcHeight);
    var right := Clamp(scale(e.right), left, srcWidth);
    var bottom := Clamp(scale(e.bottom), top, srcHeight);
    Rectangle(left, top, right - left, bottom - top)
  }

  /**
   * A padded box lies inside the source and has no negative side, and each edge stays where
   * scaling put it unless that falls outside the range the clamps allow it.
   */
  lemma PaddedBounds(r: Rectangle, srcWidth: nat, srcHeight: nat, scale: int -> int)
    ensures var p := Padded(r, srcWidth, srcHeight, scale);
            0 <= p.Left() <= p.Right() <= srcWidth && 0 <= p.Top() <= p.Bottom() <= srcHeight
    ensures var p := Padded(r, srcWidth, srcHeight, scale);
            p.width >= 0 && p.height >= 0
    ensures var e, p := Grown(r), Padded(r, srcWidth, srcHeight, scale);
            && (0 <= scale(e.left) <= srcWidth ==> p.Left() == scale(e.left))
            && (0 <= scale(e.top) <= srcHeight ==> p.Top() == scale(e.top))
            && (p.Left() <= scale(e.right) <= srcWidth ==> p.Right() == scale(e.right))
            && (p.Top() <= scale(e.bottom) <= srcHeight ==> p.Bottom() == scale(e.bottom))
  {
  }

  /** A box whose scaled grown edges all fall inside the source is left exactly at those edges. */
  lemma PaddedInside(r: Rectangle, srcWidth: nat, srcHeight: nat, scale: int -> int)
    requires var e := Grown(r);
             0 <= scale(e.left) <= scale(e.right) <= srcWidth && 0 <= scale(e.top) <= scale(e.bottom) <= srcHeight
    ensures var e := Grown(r); var p := Padded(r, srcWidth, srcHeight, scale);
            p == Rectangle(scale(e.left), scale(e.top), scale(e.right) - scale(e.left), scale(e.bottom) - scale(e.top))
  {
  }

  /** A box whose scaled right edge falls before its scaled left edge, or whose left edge lies past the source, collapses to width 0. */
  lemma PaddedOutside(r: Rectangle, srcWidth: nat, srcHeight: nat, scale: int -> int)
    requires scale(Grown(r).right) < scale(Grown(r).left) || scale(Grown(r).left) > srcWidth
    ensures Padded(r, srcWidth, srcHeight, scale).width == 0
  {
  }

  /** Every box of `boxes` padded, in order. */
  function PadEach(boxes: seq<Rectangle>, srcWidth: nat, srcHeight: nat, scale: int -> int): seq<Rectangle> {
    if |boxes| == 0 then []
    else PadEach(boxes[..|boxes| - 1], srcWidth, srcHeight, scale) + [Padded(boxes[|boxes| - 1], srcWidth, srcHeight, scale)]
  }

  /** Padding every box keeps their number and replaces each box by its own padded box. */
  lemma {:induction false} PadEachIs(boxes: seq<Rectangle>, srcWidth: nat, srcHeight: nat, scale: int -> int)
    ensures |PadEach(boxes, srcWidth, srcHeight, scale)| == |boxes|
    ensures forall k :: 0 <= k < |boxes| ==> PadEach(boxes, srcWidth, srcHeight, scale)[k] == Padded(boxes[k], srcWidth, srcHeight, scale)
  {
    if |boxes| > 0 {
      var init := boxes[..|boxes| - 1];
      PadEachIs(init, srcWidth, srcHeight, scale);
      forall k | 0 <= k < |init| ensures boxes[k] == init[k] {
      }
    }
  }

  /** The loop over the detected boxes: each one is replaced, in place, by its padded box. */
  method PadAll(rects: array<Rectangle>, srcWidth: nat, srcHeight: nat, scale: int -> int)
    modifies rects
    ensures rects[..] == PadEach(old(rects[..]), srcWidth, srcHeight, scale)
  {
    ghost var boxes := rects[..];
    for i := 0 to rects.Length
      invariant rects[..i] == PadEach(boxes[..i], srcWidth, srcHeight, scale)
      invariant rects[i..] == boxes[i..]
    {
      assert boxes[..i + 1][..i] == boxes[..i];
      assert rects[i] == boxes[i] by {
        assert rects[i..][0] == boxes[i..][0];
      }
      rects[i] := Padded(rects[i], srcWidth, srcHeight, scale);
      assert rects[..i + 1] == rects[..i] + [rects[i]];
    }
    assert boxes[..rects.Length] == boxes && rects[..rects.Length] == rects[..];
  }
}
