/** Frames and pixel rectangles shared by the detector modules. */
module Geometry {
  datatype Rect = Rect(x: nat, y: nat, width: nat, height: nat) {
    predicate Empty() { width == 0 || height == 0 }

    predicate Inside(frameWidth: nat, frameHeight: nat) {
      x + width <= frameWidth && y + height <= frameHeight
    }

    predicate Contains(other: Rect) {
      && x <= other.x && other.x + other.width <= x + width
      && y <= other.y && other.y + other.height <= y + height
    }
  }

  function Min(a: int, b: int): (m: int)
    ensures m <= a && m <= b && (m == a || m == b)
  {
    if a <= b then a else b
  }

  function Max(a: int, b: int): (m: int)
    ensures a <= m && b <= m && (m == a || m == b)
  {
    if a <= b then b else a
  }

  function FullWindow(width: nat, height: nat): Rect { Rect(0, 0, width, height) }

  function UniteWindows(a: Rect, b: Rect): Rect {
    if b.width == 0 || b.height == 0 then a
    else
      var x, y := Min(a.x, b.x), Min(a.y, b.y);
      Rect(x, y, Max(a.x + a.width, b.x + b.width) - x, Max(a.y + a.height, b.y + b.height) - y)
  }

  /** The union is the smallest rectangle that contains both operands, so it stays in every frame that
      contains both. */
  lemma UniteIsLeast(a: Rect, b: Rect, frameWidth: nat, frameHeight: nat)
    requires !a.Empty() && !b.Empty()
    ensures UniteWindows(a, b).Contains(a) && UniteWindows(a, b).Contains(b)
    ensures forall r: Rect :: r.Contains(a) && r.Contains(b) ==> r.Contains(UniteWindows(a, b))
    ensures a.Inside(frameWidth, frameHeight) && b.Inside(frameWidth, frameHeight)
            ==> UniteWindows(a, b).Inside(frameWidth, frameHeight)
  {
  }
}
