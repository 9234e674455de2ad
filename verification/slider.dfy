/**
 The product slider of the storefront page (script.js:150-249): a page index
 into a fixed strip of product cards, moved by the previous/next buttons, an
 autoplay timer, window resizes and horizontal swipes.

 The state is the triple (index, total, show): the current page index, the
 number of product cards and the number of cards visible at the current
 viewport width. The script bounds the index above by `total - show`, with no
 `max(0, ...)`: when there are fewer cards than visible slots that bound is
 negative and "next" or a resize pushes the index below zero. The model keeps
 that bound and proves the invariant that actually holds.
 */
module Slider {
  import opened Options

  /** Pixels added to a card's rendered width to get one page step. */
  const CardGap: int := 32

  /** A horizontal drag shorter than or equal to this is not a swipe. */
  const SwipeThreshold: int := 50

  /** Viewport widths at which one more card becomes visible. */
  const Breakpoints: seq<int> := [480, 768, 1024]

  function Max(a: int, b: int): int { if a < b then b else a }

  function Min(a: int, b: int): int { if a < b then a else b }

  /** Number of cards visible at a given viewport width. */
  function SlidesToShow(width: int): (n: int)
    ensures 1 <= n <= 4
  {
    if width <= 480 then 1
    else if width <= 768 then 2
    else if width <= 1024 then 3
    else 4
  }

  /** Reference definition: how many breakpoints lie strictly below `width`. */
  function CountBelow(bps: seq<int>, width: int): (n: nat)
    ensures n <= |bps|
  {
    if bps == [] then 0
    else (if bps[0] < width then 1 else 0) + CountBelow(bps[1..], width)
  }

  lemma SlidesToShowCountsBreakpoints(width: int)
    ensures SlidesToShow(width) == 1 + CountBelow(Breakpoints, width)
  {
    assert [1024][1..] == [];
    assert CountBelow([1024], width) == (if 1024 < width then 1 else 0);
    assert [768, 1024][1..] == [1024];
    assert CountBelow([768, 1024], width) == (if 768 < width then 1 else 0) + CountBelow([1024], width);
    assert Breakpoints[1..] == [768, 1024];
  }

  lemma SlidesToShowMonotone(w1: int, w2: int)
    requires w1 <= w2
    ensures SlidesToShow(w1) <= SlidesToShow(w2)
  {
  }

  datatype State = State(index: int, total: nat, show: int)

  /** The upper bound the script uses for the index: `total - show`, possibly negative. */
  function Bound(s: State): int { s.total - s.show }

  /** The lowest index reachable with `total` cards: a bound can be as low as `total - 4`. */
  function Floor(total: nat): int { Min(0, total - 4) }

  /** What holds of every state the slider can reach. */
  predicate Valid(s: State) {
    && s.total >= 1
    && 1 <= s.show <= 4
    && Floor(s.total) <= s.index <= Max(0, Bound(s))
  }

  /** Slider set-up: inert (None) when the page has no slider container or no product cards. */
  function Init(hasContainer: bool, total: nat, width: int): (r: Option<State>)
    ensures r.None? <==> !hasContainer || total == 0
    ensures r.Some? ==> && r.value.index == 0
                        && r.value.total == total
                        && r.value.show == SlidesToShow(width)
                        && Valid(r.value)
  {
    if !hasContainer || total == 0 then None else Some(State(0, total, SlidesToShow(width)))
  }

  /** The previous button. */
  function Prev(s: State): (r: State)
    ensures r.total == s.total && r.show == s.show
    ensures r.index >= 0
    ensures s.index > 0 ==> r.index == s.index - 1
    ensures s.index <= 0 ==> r.index == 0
  {
    s.(index := Max(0, s.index - 1))
  }

  /** The next button. */
  function Next(s: State): (r: State)
    ensures r.total == s.total && r.show == s.show
    ensures r.index <= Bound(s)
    ensures s.index < Bound(s) ==> r.index == s.index + 1
    ensures s.index >= Bound(s) ==> r.index == Bound(s)
  {
    s.(index := Min(Bound(s), s.index + 1))
  }

  /** One autoplay timer tick: advance, or wrap to the first page. */
  function Tick(s: State): (r: State)
    ensures r.total == s.total && r.show == s.show
    ensures s.index >= Bound(s) ==> r.index == 0
    ensures s.index < Bound(s) ==> r.index == s.index + 1
  {
    if s.index >= Bound(s) then s.(index := 0) else s.(index := s.index + 1)
  }

  /** A window resize to `width`: recompute the visible count, then clamp. */
  function Resize(s: State, width: int): (r: State)
    ensures r.total == s.total && r.show == SlidesToShow(width)
    ensures r.index <= s.index
    ensures r.index <= Bound(r)
    ensures r.index == s.index || r.index == Bound(r)
  {
    var s' := s.(show := SlidesToShow(width));
    s'.(index := Min(s.index, Bound(s')))
  }

  /** End of a touch gesture whose start minus end abscissa is `diff`. */
  function Swipe(s: State, diff: int): (r: State)
    ensures r.total == s.total && r.show == s.show
    ensures -SwipeThreshold <= diff <= SwipeThreshold ==> r == s
    ensures diff > SwipeThreshold && s.index < Bound(s) ==> r.index == s.index + 1
    ensures diff > SwipeThreshold && s.index >= Bound(s) ==> r == s
    ensures diff < -SwipeThreshold && s.index > 0 ==> r.index == s.index - 1
    ensures diff < -SwipeThreshold && s.index <= 0 ==> r == s
    ensures -1 <= r.index - s.index <= 1
  {
    var magnitude := if diff < 0 then -diff else diff;
    if magnitude > SwipeThreshold then
      if diff > 0 && s.index < Bound(s) then s.(index := s.index + 1)
      else if diff < 0 && s.index > 0 then s.(index := s.index - 1)
      else s
    else s
  }

  /** A swipe never wraps: it stays between the current index and the range ends. */
  lemma SwipeNeverWraps(s: State, diff: int)
    requires Valid(s)
    ensures Min(0, s.index) <= Swipe(s, diff).index <= Max(s.index, Bound(s))
    ensures Valid(Swipe(s, diff))
  {
  }

  /** What the slider pushes to the display layer after each change. */
  datatype View = View(offsets: seq<int>, prevDisabled: bool, nextDisabled: bool)

  /** Horizontal offset of the strip when page `index` is shown. */
  function Offset(index: int, cardWidth: nat): int {
    -(index * (cardWidth + CardGap))
  }

  /** Offsets for every card and the enabled state of the two buttons. */
  function Render(s: State, cardWidth: nat): (v: View)
    ensures |v.offsets| == s.total
    ensures forall k :: 0 <= k < |v.offsets| ==> v.offsets[k] == Offset(s.index, cardWidth)
    ensures v.prevDisabled <==> s.index == 0
    ensures v.nextDisabled <==> s.index >= Bound(s)
  {
    View(seq(s.total, _ => Offset(s.index, cardWidth)), s.index == 0, s.index >= Bound(s))
  }

  /** Further pages render further to the left, one card plus gap per page. */
  lemma OffsetStrictlyDecreasing(i: int, j: int, cardWidth: nat)
    requires i < j
    ensures Offset(j, cardWidth) <= Offset(i, cardWidth) - (j - i) * (cardWidth + CardGap)
    ensures Offset(j, cardWidth) < Offset(i, cardWidth)
  {
  }

  /** Distinct page indices render to distinct offsets, and page 0 to offset 0. */
  lemma OffsetIdentifiesPage(i: int, j: int, cardWidth: nat)
    ensures Offset(i, cardWidth) == Offset(j, cardWidth) <==> i == j
    ensures Offset(i, cardWidth) == 0 <==> i == 0
  {
    if i < j {
      OffsetStrictlyDecreasing(i, j, cardWidth);
    } else if j < i {
      OffsetStrictlyDecreasing(j, i, cardWidth);
    }
    if i < 0 {
      OffsetStrictlyDecreasing(i, 0, cardWidth);
    } else if 0 < i {
      OffsetStrictlyDecreasing(0, i, cardWidth);
    }
  }

  /** The next button is disabled exactly when pressing it would not advance. */
  lemma NextDisabledIffNextStalls(s: State, cardWidth: nat)
    ensures Render(s, cardWidth).nextDisabled <==> Next(s).index <= s.index
  {
  }

  /** The previous button is disabled exactly when pressing it changes nothing. */
  lemma PrevDisabledIffPrevIsIdle(s: State, cardWidth: nat)
    ensures Render(s, cardWidth).prevDisabled <==> Prev(s) == s
  {
  }

  /** A long left drag advances exactly when the next button is enabled. */
  lemma LeftSwipeIffNextEnabled(s: State, diff: int, cardWidth: nat)
    requires diff > SwipeThreshold
    ensures Swipe(s, diff).index == s.index + 1 <==> !Render(s, cardWidth).nextDisabled
  {
  }

  datatype Event = PrevClick | NextClick | AutoplayTick | WindowResize(width: int) | TouchSwipe(diff: int)

  function Apply(s: State, e: Event): State {
    match e
    case PrevClick => Prev(s)
    case NextClick => Next(s)
    case AutoplayTick => Tick(s)
    case WindowResize(w) => Resize(s, w)
    case TouchSwipe(d) => Swipe(s, d)
  }

  /** The state after handling `events` in order. */
  function Run(s: State, events: seq<Event>): State
    decreases |events|
  {
    if events == [] then s else Run(Apply(s, events[0]), events[1..])
  }

  lemma ApplyPreservesValid(s: State, e: Event)
    requires Valid(s)
    ensures Valid(Apply(s, e))
    ensures Apply(s, e).total == s.total
  {
  }

  lemma {:induction false} RunPreservesValid(s: State, events: seq<Event>)
    requires Valid(s)
    ensures Valid(Run(s, events))
    ensures Run(s, events).total == s.total
    decreases |events|
  {
    if events != [] {
      ApplyPreservesValid(s, events[0]);
      RunPreservesValid(Apply(s, events[0]), events[1..]);
    }
  }

  /** With at least four cards the index stays within [0, total - show] for any event sequence. */
  lemma IndexInRangeWithEnoughCards(total: nat, width: int, events: seq<Event>)
    requires total >= 4
    ensures var s := Run(Init(true, total, width).value, events);
            0 <= s.index <= Bound(s)
  {
    RunPreservesValid(Init(true, total, width).value, events);
  }

  /** With two cards on a wide screen, one press of "next" moves the index to -2. */
  lemma FewCardsNextGoesNegative()
    ensures Run(Init(true, 2, 1200).value, [NextClick]).index == -2
  {
  }

  /** The index only goes below zero when there are fewer than four cards. */
  lemma {:induction false} NegativeIndexNeedsFewCards(total: nat, width: int, events: seq<Event>)
    requires total >= 1
    requires Run(Init(true, total, width).value, events).index < 0
    ensures total < 4
  {
    RunPreservesValid(Init(true, total, width).value, events);
  }

  /** `n` consecutive autoplay ticks. */
  function Ticks(s: State, n: nat): State {
    if n == 0 then s else Tick(Ticks(s, n - 1))
  }

  lemma {:induction false} TicksClimb(s: State, n: nat)
    requires 0 <= s.index && s.index + n <= Bound(s)
    ensures Ticks(s, n) == s.(index := s.index + n)
  {
    if n > 0 {
      TicksClimb(s, n - 1);
    }
  }

  /** From the first page, autoplay visits every page in order and wraps after the last. */
  lemma AutoplayCycles(s: State)
    requires s.index == 0 && Bound(s) >= 0
    ensures forall n: nat :: n <= Bound(s) ==> Ticks(s, n).index == n
    ensures Ticks(s, Bound(s) + 1).index == 0
  {
    forall n: nat | n <= Bound(s)
      ensures Ticks(s, n).index == n
    {
      TicksClimb(s, n);
    }
    TicksClimb(s, Bound(s));
  }

  /** Ten cards, four visible: "next" on the last page stays there and a tick wraps to 0. */
  lemma LastPageScenario()
    ensures Next(State(6, 10, SlidesToShow(1200))).index == 6
    ensures Tick(State(6, 10, SlidesToShow(1200))).index == 0
  {
  }

}
