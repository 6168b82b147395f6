/**
 * The scroll reveal pass (assets/js/scroll-animations.js).
 *
 * A fixed list of page elements is checked against the viewport; an element
 * that overlaps it gets the `scroll-animated` class, once and for good. The
 * jQuery geometry calls become integers: each element carries its document
 * offset and outer height, and a pass receives the scroll position and the
 * window height.
 */
module ScrollAnimations {

  /**
   * One target element: offset().top, outerHeight() and whether it has the
   * `scroll-animated` class.
   */
  datatype Element = Element(top: int, height: nat, revealed: bool)

  /**
   * isInViewport: the element's bottom lies strictly below the viewport's top
   * and its top strictly above the viewport's bottom.
   */
  predicate IsInViewport(e: Element, scrollTop: int, winHeight: nat) {
    e.top + e.height > scrollTop && e.top < scrollTop + winHeight
  }

  /** Pixel row p lies in the span of `length` rows starting at `start`. */
  predicate InSpan(p: int, start: int, length: int) {
    start <= p < start + length
  }

  /** Some whole pixel row lies both inside the element and inside the viewport. */
  ghost predicate SharesPixelRow(e: Element, scrollTop: int, winHeight: nat) {
    exists p :: InSpan(p, e.top, e.height) && InSpan(p, scrollTop, winHeight)
  }

  /**
   * For an element and a window of positive height, the viewport test is
   * exactly "some pixel row is shared"; in particular an element whose bottom
   * touches the viewport's top, or whose top touches its bottom, is not in
   * the viewport.
   */
  lemma InViewportIffOverlap(e: Element, scrollTop: int, winHeight: nat)
    requires e.height > 0 && winHeight > 0
    ensures IsInViewport(e, scrollTop, winHeight) <==> SharesPixelRow(e, scrollTop, winHeight)
    ensures e.top + e.height == scrollTop ==> !IsInViewport(e, scrollTop, winHeight)
    ensures e.top == scrollTop + winHeight ==> !IsInViewport(e, scrollTop, winHeight)
  {
    if IsInViewport(e, scrollTop, winHeight) {
      var p := if e.top < scrollTop then scrollTop else e.top;
      assert InSpan(p, e.top, e.height) && InSpan(p, scrollTop, winHeight);
    }
  }

  /**
   * A zero-height element passes the test exactly when its top lies strictly
   * inside the viewport, although it covers no pixel row.
   */
  lemma EmptyElementInViewport(e: Element, scrollTop: int, winHeight: nat)
    requires e.height == 0
    ensures IsInViewport(e, scrollTop, winHeight) <==> scrollTop < e.top < scrollTop + winHeight
    ensures !SharesPixelRow(e, scrollTop, winHeight)
  {
  }

  /**
   * One iteration of the `.each` in animateOnScroll. It changes only the
   * revealed flag, and never clears it.
   */
  function Reveal(e: Element, scrollTop: int, winHeight: nat): (r: Element)
    ensures r.top == e.top && r.height == e.height
    ensures e.revealed ==> r == e
    ensures r.revealed <==> e.revealed || IsInViewport(e, scrollTop, winHeight)
  {
    if e.revealed then e
    else if IsInViewport(e, scrollTop, winHeight) then e.(revealed := true)
    else e
  }

  /** animateOnScroll as a function of the target list. */
  function Pass(elements: seq<Element>, scrollTop: int, winHeight: nat): seq<Element> {
    if elements == [] then []
    else [Reveal(elements[0], scrollTop, winHeight)] + Pass(elements[1..], scrollTop, winHeight)
  }

  /** A pass treats each element on its own, keeping the list's length and order. */
  lemma {:induction false} PassAt(elements: seq<Element>, scrollTop: int, winHeight: nat, k: nat)
    requires k < |elements|
    ensures |Pass(elements, scrollTop, winHeight)| == |elements|
    ensures Pass(elements, scrollTop, winHeight)[k] == Reveal(elements[k], scrollTop, winHeight)
  {
    if k > 0 {
      PassAt(elements[1..], scrollTop, winHeight, k - 1);
    } else if |elements| > 1 {
      PassAt(elements[1..], scrollTop, winHeight, 0);
    }
  }

  /** A pass keeps the list's length. */
  lemma {:induction false} PassLength(elements: seq<Element>, scrollTop: int, winHeight: nat)
    ensures |Pass(elements, scrollTop, winHeight)| == |elements|
  {
    if elements != [] {
      PassAt(elements, scrollTop, winHeight, 0);
    }
  }

  /**
   * A pass changes only revealed flags: every element keeps its position in
   * the list, its offset and its height.
   */
  lemma {:induction false} PassKeepsGeometry(elements: seq<Element>, scrollTop: int, winHeight: nat)
    ensures |Pass(elements, scrollTop, winHeight)| == |elements|
    ensures forall k :: 0 <= k < |elements| ==>
      Pass(elements, scrollTop, winHeight)[k].top == elements[k].top &&
      Pass(elements, scrollTop, winHeight)[k].height == elements[k].height
  {
    PassLength(elements, scrollTop, winHeight);
    forall k | 0 <= k < |elements|
      ensures Pass(elements, scrollTop, winHeight)[k].top == elements[k].top
      ensures Pass(elements, scrollTop, winHeight)[k].height == elements[k].height
    {
      PassAt(elements, scrollTop, winHeight, k);
    }
  }

  /** An element already revealed is skipped and stays as it is, wherever the page is scrolled. */
  lemma {:induction false} PassKeepsRevealed(elements: seq<Element>, scrollTop: int, winHeight: nat, k: nat)
    requires k < |elements| && elements[k].revealed
    ensures |Pass(elements, scrollTop, winHeight)| == |elements|
    ensures Pass(elements, scrollTop, winHeight)[k] == elements[k]
  {
    PassAt(elements, scrollTop, winHeight, k);
  }

  /**
   * After a pass an element is revealed exactly when it was revealed before
   * or passes the viewport test: every element in view is revealed, and an
   * unrevealed element out of view stays unrevealed.
   */
  lemma {:induction false} PassRevealsVisible(elements: seq<Element>, scrollTop: int, winHeight: nat, k: nat)
    requires k < |elements|
    ensures |Pass(elements, scrollTop, winHeight)| == |elements|
    ensures Pass(elements, scrollTop, winHeight)[k].revealed <==>
      elements[k].revealed || IsInViewport(elements[k], scrollTop, winHeight)
  {
    PassAt(elements, scrollTop, winHeight, k);
  }

  /** A second pass with the same geometry changes nothing. */
  lemma {:induction false} PassIdempotent(elements: seq<Element>, scrollTop: int, winHeight: nat)
    ensures Pass(Pass(elements, scrollTop, winHeight), scrollTop, winHeight) == Pass(elements, scrollTop, winHeight)
  {
    var once := Pass(elements, scrollTop, winHeight);
    PassLength(elements, scrollTop, winHeight);
    PassLength(once, scrollTop, winHeight);
    forall k | 0 <= k < |elements|
      ensures Pass(once, scrollTop, winHeight)[k] == once[k]
    {
      PassAt(elements, scrollTop, winHeight, k);
      PassAt(once, scrollTop, winHeight, k);
    }
  }

  /**
   * animateOnScroll: walk the fixed target list in order, skip the elements
   * that already carry the class, and add it to those in the viewport.
   */
  method AnimateOnScroll(elements: array<Element>, scrollTop: int, winHeight: nat)
    modifies elements
    ensures elements[..] == Pass(old(elements[..]), scrollTop, winHeight)
  {
    for i := 0 to elements.Length
      invariant forall k :: 0 <= k < i ==> elements[k] == Reveal(old(elements[k]), scrollTop, winHeight)
      invariant forall k :: i <= k < elements.Length ==> elements[k] == old(elements[k])
    {
      var e := elements[i];
      if e.revealed {
        continue;
      }
      if IsInViewport(e, scrollTop, winHeight) {
        elements[i] := e.(revealed := true);
      }
    }
    ghost var before := old(elements[..]);
    PassLength(before, scrollTop, winHeight);
    forall k | 0 <= k < elements.Length
      ensures elements[..][k] == Pass(before, scrollTop, winHeight)[k]
    {
      PassAt(before, scrollTop, winHeight, k);
    }
  }
}
