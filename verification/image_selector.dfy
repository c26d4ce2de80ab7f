/** The image strip of image_selector.cpp: the number of cells shown, the
    list of images with its current index, the slide animation's offset
    and how it decays, and the index changes from the wheel and from
    clicks. The widget's size is a parameter; painting is not modelled.
 */
module ImageSelector {
  import opened Common

  /** The selector's state: the images, the current index (-1 for none),
      the remaining slide offset and whether the animation timer runs. */
  datatype Selector = Selector(images: seq<Image>, index: int, delta: int, animating: bool)

  /** The constructor's state after `setCurrentIndex(0)` from index -1. */
  const Initial: Selector := Selector([], 0, 0, false)

  /** `displayCells`: as many whole cells of the widget's thickness as fit
      along its length, less one when that is even, so that the current
      image sits in the middle. `length` and `thickness` are the width and
      height for a horizontal strip, the other way round otherwise. */
  function DisplayCells(length: int, thickness: int): (r: int)
    requires length >= 0 && thickness > 0
    ensures r == -1 || r % 2 == 1
    ensures r == length / thickness || r == length / thickness - 1
    ensures r <= length / thickness < r + 2
  {
    var maxCells := TruncDiv(length, thickness);
    if maxCells % 2 == 0 then maxCells - 1 else maxCells
  }

  /** `addImage`: the image is appended and its position returned; a
      selector with no current index selects the first image. */
  function AddImage(s: Selector, img: Image): (r: (int, Selector))
    ensures r.0 == |s.images| && r.1.images == s.images + [img]
    ensures r.1.index == (if s.index < 0 then 0 else s.index)
    ensures r.1.delta == s.delta && r.1.animating == s.animating
  {
    (|s.images|, s.(images := s.images + [img], index := if s.index < 0 then 0 else s.index))
  }

  /** `clear`: no images, no current index, no animation. */
  function Clear(s: Selector): (r: Selector)
    ensures r.images == [] && r.index == -1 && r.delta == 0 && !r.animating
  {
    Selector([], -1, 0, false)
  }

  /** `setCurrentIndex`: nothing for the current index; from no index the
      index is set directly; otherwise the strip starts sliding by the
      distance between the two cells, `cell` pixels apart. */
  function SetCurrentIndex(s: Selector, index: int, cell: int): (r: Selector)
    ensures r.images == s.images
    ensures index == s.index ==> r == s
    ensures index != s.index ==> r.index == index
    ensures index != s.index && s.index < 0 ==> r.delta == s.delta && r.animating == s.animating
    ensures index != s.index && s.index >= 0 ==> r.delta == (index - s.index) * cell && r.animating
  {
    if s.index == index then s
    else if s.index >= 0 then s.(delta := (index - s.index) * cell, index := index, animating := true)
    else s.(index := index)
  }

  /** The offsets the slide passes through, largest first. */
  const KeyFrames: seq<int> := [45, 30, 20, 15, 10, 6, 3, 2, 1, 0]

  /** The first key frame, in the order listed, below `m`; 0 when none
      is. */
  function KeyFrameBelow(m: int): (k: int)
    ensures k in KeyFrames
    ensures m > 0 ==> k < m
    ensures forall j :: 0 <= j < |KeyFrames| && KeyFrames[j] < m ==> KeyFrames[j] <= k
  {
    if m > 45 then 45 else if m > 30 then 30 else if m > 20 then 20 else if m > 15 then 15
    else if m > 10 then 10 else if m > 6 then 6 else if m > 3 then 3 else if m > 2 then 2
    else if m > 1 then 1 else 0
  }

  /** `playNextFrame`'s new offset: the largest key frame strictly below
      the offset's magnitude, with the offset's sign. */
  function NextFrame(delta: int): (d: int)
    ensures Abs(d) in KeyFrames
    ensures delta != 0 ==> Abs(d) < Abs(delta)
    ensures delta == 0 ==> d == 0
    ensures (d < 0 ==> delta < 0) && (d > 0 ==> delta > 0)
    ensures forall j :: 0 <= j < |KeyFrames| && KeyFrames[j] < Abs(delta) ==> KeyFrames[j] <= Abs(d)
  {
    var next := KeyFrameBelow(Abs(delta));
    if delta < 0 then -next else next
  }

  /** `playNextFrame`: the offset decays and the timer stops at 0. */
  function PlayNextFrame(s: Selector): (r: Selector)
    ensures r.delta == NextFrame(s.delta)
    ensures r.animating <==> s.animating && r.delta != 0
    ensures r.images == s.images && r.index == s.index
  {
    var d := NextFrame(s.delta);
    s.(delta := d, animating := s.animating && d != 0)
  }

  /** The number of key frames strictly below the offset's magnitude: how
      many ticks are left. */
  function FramesLeft(delta: int): (n: nat)
    ensures n <= |KeyFrames|
    ensures n == 0 <==> delta == 0
  {
    var m := Abs(delta);
    if m > 45 then 10 else if m > 30 then 9 else if m > 20 then 8 else if m > 15 then 7
    else if m > 10 then 6 else if m > 6 then 5 else if m > 3 then 4 else if m > 2 then 3
    else if m > 1 then 2 else if m > 0 then 1 else 0
  }

  /** Each tick uses up exactly one key frame. */
  lemma NextFrameUsesOne(delta: int)
    requires delta != 0
    ensures FramesLeft(NextFrame(delta)) == FramesLeft(delta) - 1
  {
  }

  /** `n` ticks of the animation timer. */
  function Ticks(s: Selector, n: nat): Selector
    decreases n
  {
    if n == 0 then s else Ticks(PlayNextFrame(s), n - 1)
  }

  /** The slide ends: after as many ticks as key frames are left below the
      offset, at most 10, the offset is 0 and the timer has stopped. */
  lemma {:induction false} SlideEnds(s: Selector, n: nat)
    requires n >= FramesLeft(s.delta)
    ensures Ticks(s, n).delta == 0
    ensures n > 0 ==> !Ticks(s, n).animating
    decreases n
  {
    if n > 0 {
      if s.delta != 0 {
        NextFrameUsesOne(s.delta);
      }
      SlideEnds(PlayNextFrame(s), n - 1);
    }
  }

  /** `resizeEvent` (image_selector.cpp:251-259): the cached strip is
      dropped and the animation timer stops, but the offset is left as it
      was. */
  function ResizeEvent(s: Selector): (r: Selector)
    ensures !r.animating
    ensures r.images == s.images && r.index == s.index && r.delta == s.delta
  {
    s.(animating := false)
  }

  /** A resize in the middle of a slide strands it: the offset stays
      non-zero with no timer to decay it, and re-selecting the current
      image does not restart it. */
  lemma ResizeStrandsSlide(s: Selector, cell: int)
    requires s.animating && s.delta != 0
    ensures var r := ResizeEvent(s);
      && r.delta == s.delta && r.delta != 0 && !r.animating
      && SetCurrentIndex(r, s.index, cell) == r
  {
  }

  /** A wheel turn by `angle` eighths of a degree: a step away from the
      reader moves to the previous image, anything else (a small turn
      included) to the next, and only within the images. */
  function Wheel(s: Selector, angle: int, cell: int): (r: (Selector, Option<int>))
    ensures var target := if TruncDiv(TruncDiv(angle, 8), 15) > 0 then s.index - 1 else s.index + 1;
      (0 <= target < |s.images| ==> r == (SetCurrentIndex(s, target, cell), Some(target)))
      && (!(0 <= target < |s.images|) ==> r == (s, None))
    ensures r.1.Some? ==> 0 <= r.1.value < |s.images| && (r.1.value == s.index - 1 || r.1.value == s.index + 1)
  {
    var steps := TruncDiv(TruncDiv(angle, 8), 15);
    var target := if steps > 0 then s.index - 1 else s.index + 1;
    if 0 <= target < |s.images| then (SetCurrentIndex(s, target, cell), Some(target)) else (s, None)
  }

  /** A left click at `pos` along the strip: the clicked cell's offset from
      the middle cell moves the index by as much, when that offset is not
      0 and the target is an image. */
  function Click(s: Selector, pos: int, cell: int, cells: int): (r: (Selector, Option<int>))
    requires cell > 0
    ensures var target := s.index + (TruncDiv(pos, cell) - TruncDiv(cells, 2));
      (target != s.index && 0 <= target < |s.images| ==> r == (SetCurrentIndex(s, target, cell), Some(target)))
      && (!(target != s.index && 0 <= target < |s.images|) ==> r == (s, None))
  {
    var delta := TruncDiv(pos, cell) - TruncDiv(cells, 2);
    var target := s.index + delta;
    if delta != 0 && 0 <= target < |s.images| then (SetCurrentIndex(s, target, cell), Some(target)) else (s, None)
  }

  /** Wheel and click keep an index inside the images inside them. */
  lemma IndexStaysInRange(s: Selector, angle: int, pos: int, cell: int, cells: int)
    requires cell > 0 && 0 <= s.index < |s.images|
    ensures 0 <= Wheel(s, angle, cell).0.index < |s.images|
    ensures 0 <= Click(s, pos, cell, cells).0.index < |s.images|
  {
  }
}
