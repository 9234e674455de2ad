# Storefront interaction state, modelled in Dafny

This project models the pure state logic inside the client-side script of a
small storefront page (`script.js`). It leaves out the DOM wiring around that
logic. There are four pieces:

- **Slider** (`slider.dfy`): the product slider's paging state `(index, total, show)`.
  - It covers the viewport-width breakpoints, the previous and next buttons, the autoplay tick (which wraps) and the resize clamp.
  - It covers the 50-pixel swipe rule and the render values: the uniform strip offset `-(index * (cardWidth + 32))` and the two buttons' disabled flags.
  - It also defines event sequences over all of these.
- **Cart** (`cart.dfy`): the ordered list of line items `{id, name, price, quantity}`.
  - Adding a product already in the cart bumps its quantity. A new product is appended with quantity 1.
  - The count is the sum of the quantities. The header badge is shown when the count is positive.
  - The price is a type parameter, because the cart never inspects it.
- **Konami** (`konami.dfy`): the keydown handler that keeps the most recent key codes.
  - It fires when they spell ArrowUp ArrowUp ArrowDown ArrowDown ArrowLeft ArrowRight ArrowLeft ArrowRight KeyB KeyA, then empties its buffer.
  - The buffer keeps as many codes as the sequence is long.
  - The comparison uses `join(',')`, as the script does.
- **Validation** (`validation.dfy`): the blur validator of required inputs.
  - It trims the value. An email input must then match `^[^\s@]+@[^\s@]+\.[^\s@]+$`.
  - After that, a required input must be non-empty.

`options.dfy` holds the `Option` type used by `Slider.Init` and `Cart.Find`.

## Where the code and the intended behaviour differ

- **The slider's index can go negative.** One would expect the page index to
  stay within `[0, max(0, total - show)]`. The code bounds it by `total - show`
  with no `max(0, …)` (script.js:168, script.js:185). With fewer cards than
  visible slots, "next" and a resize push the index below zero. With 2 cards
  on a wide screen, one "next" gives index −2 (`Slider.FewCardsNextGoesNegative`).
  The model follows the code and proves what does hold:
  - the index always lies in `[min(0, total - 4), max(0, total - show)]` (`Slider.Valid`);
  - with at least four cards it lies in `[0, total - show]` (`Slider.IndexInRangeWithEnoughCards`).
- **A corrupt stored cart is not reset.** One would expect a stored cart that
  fails to parse to be treated as empty. The code calls `JSON.parse` without a
  guard, so it throws (script.js:258-262). Persistence is outside this model.
- **Prices are not checked.** One would expect a negative or non-finite price
  to be rejected. `addToCart` stores whatever it is given, and the model keeps
  the price opaque.

## Model

| member | source | states |
|---|---|---|
| `Slider.SlidesToShow` | script.js:193-198 | the number of visible cards is between 1 and 4 at every viewport width |
| `Slider.SlidesToShowCountsBreakpoints` | script.js:193-198 | the visible count is one plus the number of breakpoints (480, 768, 1024) strictly below the width, which is an independent definition of the step function |
| `Slider.SlidesToShowMonotone` | script.js:193-198 | a wider viewport never shows fewer cards |
| `Slider.Init` | script.js:150-160 | when the page has no slider container or no product cards the slider is inert; otherwise it starts on page 0 with the width's visible count, in a valid state |
| `Slider.Prev` | script.js:162-165 | "previous" steps back one page from a positive index and otherwise lands on 0; the index is never negative afterwards |
| `Slider.Next` | script.js:167-170 | "next" advances one page below the bound `total - show` and otherwise lands exactly on that bound, even when the bound is negative |
| `Slider.Tick` | script.js:173-180 | an autoplay tick at or past the bound wraps to 0, and otherwise advances by exactly one |
| `Slider.Resize` | script.js:183-187 | a resize takes the new width's visible count, never raises the index, and leaves it at or below the new bound, either unchanged or equal to the bound |
| `Slider.Swipe` | script.js:234-247 | a drag of at most 50 changes nothing; a longer left drag advances only below the bound; a longer right drag retreats only from a positive index; the index moves by at most one |
| `Slider.SwipeNeverWraps` | script.js:240-247 | a swipe keeps the index between `min(0, index)` and `max(index, bound)` and keeps the state valid |
| `Slider.Render` | script.js:200-216 | every card gets the same offset, that of the current page; "previous" is disabled exactly at index 0 and "next" exactly at or past the bound |
| `Slider.OffsetStrictlyDecreasing` | script.js:202-206 | each further page shifts the strip left by at least one card width plus the 32-pixel gap |
| `Slider.OffsetIdentifiesPage` | script.js:202-206 | distinct pages render to distinct offsets, and only page 0 renders at offset 0 |
| `Slider.NextDisabledIffNextStalls` | script.js:214-215 | the next button is disabled exactly when pressing it would not advance the index |
| `Slider.PrevDisabledIffPrevIsIdle` | script.js:214-214 | the previous button is disabled exactly when pressing it would change nothing |
| `Slider.LeftSwipeIffNextEnabled` | script.js:240-242 | a long left drag advances exactly when the next button is enabled |
| `Slider.ApplyPreservesValid` | script.js:162-187 | every event (previous, next, tick, resize, swipe) keeps the reachable-state invariant and the card count |
| `Slider.RunPreservesValid` | script.js:162-187 | any sequence of events keeps the reachable-state invariant |
| `Slider.IndexInRangeWithEnoughCards` | script.js:162-187 | with at least four cards, after any events the index lies in `[0, total - show]` |
| `Slider.FewCardsNextGoesNegative` | script.js:167-170 | with two cards at width 1200, one "next" sets the index to −2 |
| `Slider.NegativeIndexNeedsFewCards` | script.js:162-187 | a negative index is only ever reached with fewer than four cards |
| `Slider.AutoplayCycles` | script.js:173-180 | from page 0, autoplay visits pages 0, 1, …, bound in order and is back at 0 after bound + 1 ticks |
| `Slider.LastPageScenario` | script.js:167-180 | with ten cards and four visible, "next" on page 6 stays on 6 and a tick wraps to 0 |
| `Cart.Find` | script.js:266-266 | the lookup returns the first position holding the id, and nothing exactly when the id is absent |
| `Cart.UpdateCartCount` | script.js:287-288 | the left-to-right running total equals the sum of quantities, and with positive quantities it is at least the number of lines |
| `Cart.AddToCart` | script.js:265-277 | the id set gains exactly the added id. A present id keeps every line's position, name, price and id, and bumps the matching line's quantity by one in a cart with unique ids. An absent id is appended at the end with quantity 1 |
| `Cart.AddToCartCounts` | script.js:265-279 | an add raises the count by exactly one, all of it on the added product's quantity |
| `Cart.AddToCartKeepsInvariant` | script.js:265-277 | an add keeps ids unique and quantities positive |
| `Cart.CartBadge` | script.js:292-297 | the badge shows the count and is visible exactly when the count is positive |
| `Cart.BadgeShownAfterAdd` | script.js:279-297 | after any add to a cart with positive quantities, the badge is visible |
| `Cart.AddAllKeepsInvariant` | script.js:265-277 | any sequence of adds keeps ids unique and quantities positive |
| `Cart.AddAllCounts` | script.js:265-288 | a sequence of adds raises the count by the number of requests and each product's quantity by the number of requests naming it |
| `Cart.AddAllIds` | script.js:265-277 | a sequence of adds introduces exactly the requested ids |
| `Cart.UniqueIdsCardinality` | script.js:266-276 | in a cart with unique ids there is one line per distinct id |
| `Cart.SessionFromEmpty` | script.js:265-297 | from an empty cart, the count equals the number of adds, there is one line per distinct requested id, each quantity counts its requests, and the badge is shown exactly when something was added |
| `Cart.SameProductTwice` | script.js:265-277 | adding the same product twice to an empty cart yields one line with quantity 2 and count 2 |
| `Konami.JoinInjective` | script.js:1125-1125 | two non-empty lists of comma-free codes with equal `join(',')` are equal |
| `Konami.JoinMatchesIffEqual` | script.js:1125-1125 | for a target of at least two codes, the script's joined-string comparison agrees with list equality when every code is comma-free |
| `Konami.Window` | script.js:1119-1123 | below capacity the code is appended; at or over capacity the oldest code is dropped and the new one appended; a buffer within capacity stays within it, and with a capacity of at least one the result ends with the new code |
| `Konami.Step` | script.js:1118-1128 | one keydown keeps the buffer within capacity; on firing the buffer is empty, and otherwise it is the slid window |
| `Konami.KeyDown` | script.js:1111-1128 | the page's handler keeps at most ten codes; it empties the buffer when it fires and otherwise keeps the slid window; with comma-free codes it fires exactly when the slid window is the ten-key sequence |
| `Konami.StepFiresIffWindowIsTarget` | script.js:1119-1127 | with comma-free codes a key fires exactly when the slid window equals the target |
| `Konami.BufferIsRecentHistory` | script.js:1118-1128 | after any keys, the buffer is the last (at most capacity) keys pressed since the last firing, and those keys are a suffix of all keys pressed |
| `Konami.FiresIffRecentKeysMatch` | script.js:1118-1128 | with comma-free codes, a key fires exactly when it and the keys since the previous firing end in the target |
| `Konami.TargetAlwaysFires` | script.js:1118-1128 | from any buffer of at most as many comma-free codes as the target holds, typing a target of at least two comma-free codes whose last key occurs only once in it fires on its last key and on no earlier key |
| `Konami.KonamiAlwaysFires` | script.js:1112-1128 | from any buffer of at most ten comma-free codes, typing the ten-key sequence fires the easter egg on the tenth key and never earlier |
| `Validation.TrimStart` | script.js:879-879 | leading white space is dropped: the result is a suffix of the input, the dropped part is all white space, and the result does not start with white space |
| `Validation.TrimEnd` | script.js:879-879 | trailing white space is dropped: the result is a prefix of the input, the dropped part is all white space, and the result does not end with white space |
| `Validation.Trim` | script.js:879-879 | the trimmed value sits inside the input with only white space around it, has no white space at either end, and is empty exactly when the input is all white space |
| `Validation.TrimIdempotent` | script.js:879-879 | trimming twice is trimming once |
| `Validation.ValidEmailIffPattern` | script.js:886-887 | the checkable address rule accepts exactly the strings matched by `^[^\s@]+@[^\s@]+\.[^\s@]+$`. The rule is: one '@' with text before it, no white space, and a '.' after the '@' that is neither first nor last in that part |
| `Validation.ValidateInput` | script.js:877-900 | an email input is invalid exactly when its trimmed value fails the pattern. The required error occurs exactly for a non-email required input whose value is all white space. Otherwise the input is accepted |
| `Validation.BlankEmailIsInvalid` | script.js:885-897 | an empty or blank email input is reported as an invalid address, not as a missing value, because the email rule runs first |
| `Validation.PaddingDoesNotMatter` | script.js:879-897 | any white space before a value and any, possibly different, white space after it never change the verdict |

## Left out

- DOM effects are not modelled: styles, transitions, notifications, the cart button animation, modals, the menu, the cookie banner and analytics. They have no state beyond the element attributes they set.
- The `.products-slider` element lookup in `initializeSlider` (script.js:151-156) is a DOM query. Its outcome enters the model as the `hasContainer` flag of `Slider.Init`.
- Cart persistence is not modelled: `saveCartToStorage` and the load in `initializeCart` (script.js:254-263, 300-302). They are JSON and `localStorage` I/O. As noted above, a malformed stored cart makes `JSON.parse` throw rather than reset.
- Price parsing with `parseFloat` is not modelled (script.js:541). It is floating point and string-to-number conversion. The cart takes the price as an opaque value.
- Timer scheduling is not modelled: the 5000 ms `setInterval`, debounce and throttle, the triple-click logo egg and notification auto-close. Only the autoplay tick function is modelled.
- Touch-event plumbing is not modelled. The swipe is a function of the integer `diff = startX - currentX`. The `isDragging` flag and the stale `currentX` that can carry over between gestures belong to the event layer. Browser coordinates can be fractional, and integers are used instead.
- The live viewport read is replaced by the stored count. `updateSlider` and the swipe handler call `getSlidesToShow()` on the current width, while the buttons, autoplay and resize use the count stored at the last resize. The model uses the stored count everywhere. The two agree whenever every width change raises a resize event.
- Pixel widths are integers. `Slider.Render` takes the first card's rendered width as a natural number. The `|| 0` fallback only matters when there are no cards, and then the slider is inert.
- The listener wiring in `setupFormValidation` is not modelled. It attaches the validator only to `input[required]`, and the validator itself is modelled with its `required` flag as a parameter. Input types other than `email` are modelled as "not email".
- `Cart.AddToCart`: the quantity bump is stated only for carts with unique ids. With duplicate ids the script bumps only the first match. That case is covered by `Cart.AddToCartCounts` through the per-id quantity total, not line by line.
- `Konami.StepFiresIffWindowIsTarget`: it is stated only for comma-free key codes. Browser key codes are names such as "Comma" and never contain a comma. For other strings, `join(',')` can equate different lists.
- Strings are Unicode scalar sequences, not UTF-16 code units. Every white-space character that trimming and `\s` recognise is in the Basic Multilingual Plane, so the difference does not affect these rules.
