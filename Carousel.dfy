/** The featured-blogs carousel (src/FeaturedBlogs/FeaturedBlogsCarousel.jsx):
    a slide index that moves forward and back with wrap-around, by button,
    dot, swipe or timer, and an interaction flag that pauses the timer.

    React state and refs become the fields of one object; each handler is a
    method. The timer and the touch events are not modelled; each timer tick
    and each touch event is a call. Touch coordinates are whole pixels. */
module Carousel {
  import opened Common

  /** The smallest horizontal travel, in pixels, that counts as a swipe. */
  const SwipeThreshold: int := 60

  /** `(i + 1) % n`. */
  function NextIndex(i: nat, n: nat): (r: nat)
    requires n >= 1
    ensures r < n
  {
    (i + 1) % n
  }

  /** `(i - 1 + n) % n`. The operand is never negative here, so JavaScript's
      remainder and Dafny's agree. */
  function PrevIndex(i: nat, n: nat): (r: nat)
    requires n >= 1
    ensures r < n
  {
    (i - 1 + n) % n
  }

  /** Both steps stay on a slide, whatever index they start from. */
  lemma StepsInRange(i: nat, n: nat)
    requires n >= 1
    ensures NextIndex(i, n) < n && PrevIndex(i, n) < n
  {
  }

  /** From a slide, the next step goes one slide on and wraps from the last
      slide to the first; the previous step goes one slide back and wraps
      from the first to the last. */
  lemma StepsWrap(i: nat, n: nat)
    requires n >= 1 && i < n
    ensures NextIndex(i, n) == if i == n - 1 then 0 else i + 1
    ensures PrevIndex(i, n) == if i == 0 then n - 1 else i - 1
  {
    if i == n - 1 { ModSelf(n); } else { ModSmall(i + 1, n); }
    if i == 0 { ModSmall(n - 1, n); } else { ModShift(i - 1, n); }
  }

  lemma ModSmall(a: nat, n: nat)
    requires a < n
    ensures a % n == a
  {
  }

  lemma ModSelf(n: nat)
    requires n >= 1
    ensures n % n == 0
  {
  }

  lemma ModShift(a: nat, n: nat)
    requires a < n
    ensures (a + n) % n == a
  {
  }

  /** Back after forward, and forward after back, return to the same slide. */
  lemma StepsInverse(i: nat, n: nat)
    requires n >= 1 && i < n
    ensures PrevIndex(NextIndex(i, n), n) == i
    ensures NextIndex(PrevIndex(i, n), n) == i
  {
    StepsWrap(i, n);
    StepsWrap(NextIndex(i, n), n);
    StepsWrap(PrevIndex(i, n), n);
  }

  /** What the end of a touch does with the slide. */
  datatype Swipe = Forward | Backward | Stay

  /** `touchStartX - touchEndX` above 60 moves forward, below -60 moves back,
      anything in between leaves the slide alone. */
  function SwipeOf(touchDiff: int): (s: Swipe)
    ensures s == Forward <==> touchDiff > SwipeThreshold
    ensures s == Backward <==> touchDiff < -SwipeThreshold
    ensures s == Stay <==> -SwipeThreshold <= touchDiff <= SwipeThreshold
  {
    if touchDiff > SwipeThreshold then Forward
    else if touchDiff < -SwipeThreshold then Backward
    else Stay
  }

  /** Swiping is symmetric: a movement and its mirror image go opposite ways. */
  lemma SwipeMirror(touchDiff: int)
    ensures SwipeOf(touchDiff) == Forward <==> SwipeOf(-touchDiff) == Backward
    ensures SwipeOf(touchDiff) == Stay <==> SwipeOf(-touchDiff) == Stay
  {
  }

  class Carousel {
    var blogs: seq<Blog>
    var loading: bool
    var currentIndex: nat
    var isInteracting: bool
    var touchStartX: int
    var touchEndX: int

    /** The state when the widget mounts. */
    constructor ()
      ensures blogs == [] && loading && currentIndex == 0 && !isInteracting
      ensures touchStartX == 0 && touchEndX == 0
    {
      blogs := [];
      loading := true;
      currentIndex := 0;
      isInteracting := false;
      touchStartX := 0;
      touchEndX := 0;
    }

    /** The index names a slide. */
    predicate OnASlide()
      reads this
    {
      currentIndex < |blogs|
    }

    /** `fetchFeaturedBlogs`: without an API key nothing is requested; an ok
        response replaces the slides with `data.blogs || []`; a failure keeps
        them. Loading is over in every case. The index is not touched. */
    method FetchFeatured(apiKeyPresent: bool, response: Response)
      modifies this
      ensures !loading
      ensures blogs == if apiKeyPresent && response.Ok? then PoolOf(response) else old(blogs)
      ensures currentIndex == old(currentIndex) && isInteracting == old(isInteracting)
      ensures touchStartX == old(touchStartX) && touchEndX == old(touchEndX)
    {
      if !apiKeyPresent {
        loading := false;
        return;
      }
      loading := true;
      if response.Ok? {
        blogs := PoolOf(response);
      }
      loading := false;
    }

    /** `nextSlide`; the arrows exist only when there are slides. */
    method NextSlide()
      requires |blogs| >= 1
      modifies this
      ensures blogs == old(blogs) && loading == old(loading) && isInteracting == old(isInteracting)
      ensures currentIndex == NextIndex(old(currentIndex), |blogs|) && OnASlide()
      ensures touchStartX == old(touchStartX) && touchEndX == old(touchEndX)
    {
      currentIndex := (currentIndex + 1) % |blogs|;
    }

    /** `prevSlide`. */
    method PrevSlide()
      requires |blogs| >= 1
      modifies this
      ensures blogs == old(blogs) && loading == old(loading) && isInteracting == old(isInteracting)
      ensures currentIndex == PrevIndex(old(currentIndex), |blogs|) && OnASlide()
      ensures touchStartX == old(touchStartX) && touchEndX == old(touchEndX)
    {
      currentIndex := (currentIndex - 1 + |blogs|) % |blogs|;
    }

    /** `goToSlide(index)`, called by the dot of slide `index`: one dot per
        slide, numbered from 0. */
    method GoToSlide(index: nat)
      requires index < |blogs|
      modifies this
      ensures currentIndex == index && OnASlide()
      ensures blogs == old(blogs) && loading == old(loading) && isInteracting == old(isInteracting)
      ensures touchStartX == old(touchStartX) && touchEndX == old(touchEndX)
    {
      currentIndex := index;
    }

    /** `handleTouchStart`: interaction begins and the start is recorded; the
        end coordinate is left as the previous touch left it. */
    method TouchStart(x: int)
      modifies this
      ensures isInteracting && touchStartX == x
      ensures currentIndex == old(currentIndex) && touchEndX == old(touchEndX)
      ensures blogs == old(blogs) && loading == old(loading)
    {
      isInteracting := true;
      touchStartX := x;
    }

    /** The intended `handleTouchStart`: a new touch also starts its end at
        its start, so a touch that does not move is not a swipe. */
    method TouchStartCorrected(x: int)
      modifies this
      ensures isInteracting && touchStartX == x && touchEndX == x
      ensures currentIndex == old(currentIndex)
      ensures blogs == old(blogs) && loading == old(loading)
    {
      isInteracting := true;
      touchStartX := x;
      touchEndX := x;
    }

    /** `handleTouchMove`. */
    method TouchMove(x: int)
      modifies this
      ensures touchEndX == x
      ensures currentIndex == old(currentIndex) && isInteracting == old(isInteracting)
      ensures touchStartX == old(touchStartX) && blogs == old(blogs) && loading == old(loading)
    {
      touchEndX := x;
    }

    /** `handleTouchEnd`: the swipe decides the step, and interaction is over
        in every case. Touch events reach only a drawn carousel. */
    method TouchEnd()
      requires |blogs| >= 1
      modifies this
      ensures blogs == old(blogs) && loading == old(loading)
      ensures var swipe := SwipeOf(old(touchStartX) - old(touchEndX));
              currentIndex == match swipe
                case Forward => NextIndex(old(currentIndex), |blogs|)
                case Backward => PrevIndex(old(currentIndex), |blogs|)
                case Stay => old(currentIndex)
      ensures !isInteracting
      ensures touchStartX == old(touchStartX) && touchEndX == old(touchEndX)
    {
      var touchDiff := touchStartX - touchEndX;
      if touchDiff > SwipeThreshold {
        NextSlide();
      } else if touchDiff < -SwipeThreshold {
        PrevSlide();
      }
      isInteracting := false;
    }

    /** `handleMouseEnter`: interaction begins, which stops the timer. */
    method MouseEnter()
      modifies this
      ensures isInteracting
      ensures currentIndex == old(currentIndex) && blogs == old(blogs) && loading == old(loading)
      ensures touchStartX == old(touchStartX) && touchEndX == old(touchEndX)
    {
      isInteracting := true;
    }

    /** `handleMouseLeave`. */
    method MouseLeave()
      modifies this
      ensures !isInteracting
      ensures currentIndex == old(currentIndex) && blogs == old(blogs) && loading == old(loading)
      ensures touchStartX == old(touchStartX) && touchEndX == old(touchEndX)
    {
      isInteracting := false;
    }

    /** Whether the auto-scroll timer is running. */
    predicate TimerRuns()
      reads this
    {
      !isInteracting && |blogs| > 1
    }

    /** One tick of the auto-scroll timer: it moves forward only while it
        runs, that is, with nobody interacting and more than one slide. */
    method AutoAdvance()
      modifies this
      ensures blogs == old(blogs) && loading == old(loading) && isInteracting == old(isInteracting)
      ensures currentIndex == if old(TimerRuns()) then NextIndex(old(currentIndex), |blogs|) else old(currentIndex)
      ensures touchStartX == old(touchStartX) && touchEndX == old(touchEndX)
    {
      if !isInteracting && |blogs| > 1 {
        currentIndex := (currentIndex + 1) % |blogs|;
      }
    }
  }

  function ThreeBlogs(): seq<Blog>
  {
    var b := Blog("", "", "", "", "", []);
    [b, b, b]
  }

  /** As written: right after the slides load, a tap at x = 200 that does not
      move (touch start, then touch end) advances the carousel, because the
      end coordinate still holds its initial 0. */
  method TapAfterLoadAdvances() returns (before: nat, after: nat)
    ensures before == 0 && after == 1
  {
    var c := new Carousel();
    c.FetchFeatured(true, Ok(Some(ThreeBlogs())));
    before := c.currentIndex;
    c.TouchStart(200);
    c.TouchEnd();
    after := c.currentIndex;
  }

  /** With the corrected touch start, a tap anywhere leaves the slide alone,
      whatever the earlier touches left behind. */
  method TapKeepsSlide(c: Carousel, x: int) returns (before: nat, after: nat)
    requires |c.blogs| >= 1
    modifies c
    ensures after == before
  {
    before := c.currentIndex;
    c.TouchStartCorrected(x);
    c.TouchEnd();
    after := c.currentIndex;
  }

  /** One forward swipe and one backward swipe of the same length bring the
      carousel back to the slide it showed. */
  method SwipeThereAndBack(c: Carousel, from: int, to: int) returns (before: nat, after: nat)
    requires c.OnASlide()
    modifies c
    ensures after == before
  {
    before := c.currentIndex;
    c.TouchStartCorrected(from);
    c.TouchMove(to);
    c.TouchEnd();
    c.TouchStartCorrected(to);
    c.TouchMove(from);
    c.TouchEnd();
    after := c.currentIndex;
    if from - to > SwipeThreshold {
      StepsInverse(before, |c.blogs|);
    } else if from - to < -SwipeThreshold {
      StepsInverse(before, |c.blogs|);
    }
  }
}
