# smoothscroll, modelled in Dafny

smoothscroll scrolls the nearest scrollable container of an element so that the
element comes into view. It does this either with the browser's native smooth
scroll or with a frame-by-frame animation lasting 468 ms. It exists in two
variants written separately:

- the `SmoothScroll` class of `dist/main.js`. Its constructor takes options:
  fixed offsets and a "fall back to the nearest element with room to scroll"
  switch. Its methods are `ScrollTo` and `ScrollIntoView`. Offsets can also
  come from the `--ss-scroll-offset-x:`/`-y:` custom properties in the
  container's inline style.
- the `smoothscroll(el)` function of `src/main.ts`. It always uses the
  fallback and applies no offsets.

This project models the decision and arithmetic layer beneath the DOM calls,
over an abstract host:

- `wrappers.dfy`: `Option`.
- `dom.dfy`: the element tree as a parent map.
  - Each node carries its computed overflow, client and scroll sizes, scroll
    offsets, bounding rectangle and `style` attribute.
  - The document knows which node is the body.
  - A `depth` field on every node makes parent links acyclic.
  - It also holds the host values read from `window`.
- `offsets.dfy`: the offset regular expressions and `ConvertToPx`.
  - The regular expressions are run the way `RegExp.prototype.exec` runs them:
    leftmost match, greedy `\s*` and `\d+`.
  - It also models `Number()` on what they capture, `includes`, `replace`
    and the pixel/rem conversion.
- `animation.dfy`: the `Step` both variants share.
  - `Step` is a method over a mutable `Container` (`scrollLeft`/`scrollTop`).
  - `Run` drives it with a sequence of clock readings, one per animation
    frame.
- `smoothscroll_class.dfy`: the class.
  - It holds the scrollability tests and the ancestor walk as a
    specification function (`Resolve`) and as the source's loop
    (`FindScrollableParent`).
  - It also holds the offset precedence, the `ScrollTo` destination and the
    `ScrollIntoView` edge rule.
- `smoothscroll_function.dfy`: the function variant, and how it relates to
  the class.

A scroll request produces a `Dispatch` value:

- `Skip`: nothing happens.
- `Hang`: the ancestor walk never ends. It reached a parentless element that
  is neither the body nor scrollable, and the source's loop keeps testing that
  element forever.
- `Native`: the browser's smooth scroll to a position.
- `Manual`: the animation, with the context `Step` receives. `Animation.Run`
  carries it out.

## Model

| member | source | states |
|---|---|---|
| Offsets.FirstMatchIsLeftmost | dist/main.js:3-4 | `exec` finds a declaration (the property name, optional white space, digits with an optional fraction, then `px` or `rem`), and no declaration begins earlier; it finds nothing exactly when the style holds no declaration anywhere |
| Offsets.MatchAtComplete | dist/main.js:3-4 | wherever a declaration begins, the expression tried there matches it and captures exactly its number and unit (the converse of `MatchAtSound`) |
| Offsets.MatchAtSound | dist/main.js:3-4 | what the expression matches at a position is a declaration beginning there |
| Offsets.MatchAt | dist/main.js:3-4 | the expression tried at one position: a match begins exactly there, and its capture lies after the property name and inside the style |
| Offsets.FirstMatch | dist/main.js:156-157 | `exec` without the global flag: the expression tried at each position from the start in turn until one matches (its meaning is stated by `FirstMatchFinds` and `FirstMatchIsLeftmost`) |
| Offsets.FirstMatchFinds | dist/main.js:156-157 | `exec` returns the match at the first position where the expression matches, with no match at any earlier position, and nothing when it matches nowhere |
| Offsets.Captured | dist/main.js:156-157 | `exec(style)?.[1]` is absent or a number followed by exactly the unit `px` or `rem` |
| Offsets.NumberOfNatToString | dist/main.js:55 | `Number` reads back the integer that its decimal digits spell |
| Offsets.Number | dist/main.js:55 | `Number()` of a string of digits with an optional fraction is never negative (the expression admits no sign) |
| Offsets.NumberOfParts | dist/main.js:55 | `Number()` of `a.f` is the value of the integer digits `a` plus the fraction digits `f` divided by 10 to the number of fraction digits |
| Offsets.IndexOf | dist/main.js:54-58 | the search `includes` and `replace` perform: the first position at or after `from` where the pattern occurs, and nothing when it occurs nowhere after `from` |
| Offsets.Includes | dist/main.js:54-57 | `includes` holds exactly when the pattern occurs somewhere in the string |
| Offsets.ReplaceFirst | dist/main.js:55-58 | `replace` with a string pattern leaves a string without the pattern as it is; otherwise it replaces only the first occurrence: the text before it is kept, then comes the replacement, then the text after the occurrence, and the length changes by the difference of the two lengths |
| Offsets.ReplaceUnit | dist/main.js:54-58 | `includes('px')` holds for a pixel capture and not for a rem capture; `replace` of the unit leaves exactly the number in front of it |
| Offsets.ConvertToPxUnits | dist/main.js:53-62 | `undefined` gives 0, a pixel length gives its number, a rem length gives its number times the root font size |
| Offsets.ConvertToPx | dist/main.js:53-62 | the pixel offset of a captured value is never negative when the root font size is not negative (the value's conversion itself is stated by `ConvertToPxUnits`) |
| Offsets.RemToPx | dist/main.js:58-59 | rems times a root font size that is not negative stays not negative |
| Offsets.StyleOffsetWithoutDecl | dist/main.js:156-157 | a style without any declaration of the property gives offset 0 (`ConvertToPx(undefined)`) |
| Offsets.StyleOffsetRoundTrip | dist/main.js:154-157 | a style that starts with the property, white space, a whole number `n` then `px`/`rem`, then anything, reads back as `n` pixels or `n` rems in pixels |
| Offsets.StyleOffsetFractionRoundTrip | dist/main.js:154-157 | the same for a number with a fraction `a.f`: it reads back as `a + f / 10^|f|` pixels, or that many rems in pixels |
| Offsets.DecimalCaptureToPx | dist/main.js:53-60 | a decimal followed by `px` is a capture worth that decimal in pixels; followed by `rem`, that decimal converted from rems |
| Offsets.TwoRemIsThirtyTwoPixels | dist/main.js:53-62 | `--ss-scroll-offset-x: 2rem` under a 16px root font gives 32 |
| Animation.Elapsed | dist/main.js:122-124 | the elapsed fraction never exceeds 1, is 1 once 468 ms have passed, is `(now - start) / 468` before that, and is not negative after the start |
| Animation.LerpEnds | dist/main.js:127-128 | interpolation at 0 gives the start and at 1 the target |
| Animation.LerpBetween | dist/main.js:127-128 | interpolation with a value in [0, 1] lies between start and target |
| Animation.Frame | dist/main.js:122-128 | the position one step writes at a clock reading: elapsed time clamped and eased, each axis interpolated (its meaning is stated by `ArrivesAfterScrollTime` and `FrameBetween`) |
| Animation.Container.constructor | dist/main.js:133-134 | a container holding the `scrollLeft`/`scrollTop` it is given |
| Animation.ArrivesAfterScrollTime | dist/main.js:122-137 | with `ease(1) = 1`, a frame taken 468 ms or more after the start writes the destination, so no further frame is requested |
| Animation.FrameBetween | src/main.ts:67-76 | with an easing that maps [0, 1] into [0, 1], every frame after the start lies between start and destination on both axes |
| Animation.Step | dist/main.js:117-139 | (also `step`, src/main.ts:63-90) writes the clamped, eased, interpolated position to the container, and asks for another frame exactly when that position is not the destination |
| Animation.Run | dist/main.js:136-139 | frames run one per clock reading until one writes the destination: the container holds the last frame; no earlier frame arrived; stopping before the readings run out means arrival; with `ease(1) = 1` and a reading 468 ms after the start, the destination is written |
| Dom.Ancestors | dist/main.js:106-109 | the chain the walk follows starts at the element itself, stays in the tree and ends at a parentless element |
| Dom.AncestorsFollowParents | dist/main.js:107-108 | each element of the chain is the `parentElement` of the one before it |
| SmoothScrollClass.ScrollableWithoutFallback | dist/main.js:64-99 | without the fallback, an element is scrollable exactly when its `overflow-x` or `overflow-y` is `auto` or `scroll` |
| SmoothScrollClass.ScrollableWithFallback | dist/main.js:77-99 | with the fallback, an element is scrollable exactly when on some axis the scroll size exceeds the client size plus the tolerance and the overflow is `auto` or `scroll` |
| SmoothScrollClass.FallbackNarrows | dist/main.js:77-99 | turning the fallback on, or the Microsoft tolerance, never makes a non-scrollable element scrollable |
| SmoothScrollClass.FirstStopIsFirst | dist/main.js:106 | the search over the chain finds an element that is the body or scrollable, with none before it, and finds none only when no element of the chain is either |
| SmoothScrollClass.ResolveFirstStop | dist/main.js:105-111 | the walk settles on the first element of the chain (the element itself first) that is the body or scrollable, and never ends, stuck on the last element, when there is none |
| SmoothScrollClass.SettlesBelowBody | dist/main.js:105-111 | when the body is on the chain, the walk ends, on the body or a scrollable element |
| SmoothScrollClass.CanOverflow | dist/main.js:68-71 | `CanOverflow(el, axis)`: the computed overflow on that axis is `auto` or `scroll` (stated by `ScrollableWithoutFallback`) |
| SmoothScrollClass.HasScrollableSpace | dist/main.js:77-89 | `HasScrollableSpace(el, axis)`: true without the fallback, otherwise the size comparison with the rounding tolerance (stated by `ScrollableWithFallback`) |
| SmoothScrollClass.IsScrollable | dist/main.js:95-99 | `IsScrollable(el)`: some axis has room and a scrolling overflow (stated by `ScrollableWithoutFallback` and `ScrollableWithFallback`) |
| SmoothScrollClass.Resolve | dist/main.js:105-111 | the walk ends on an element that is the body or scrollable, or it never ends, and then it is stuck on a parentless element that is neither |
| SmoothScrollClass.SmoothScroll.FindScrollableParent | dist/main.js:105-111 | the loop's outcome is the walk's (`Resolve`) |
| SmoothScrollClass.SmoothScroll.constructor | dist/main.js:142-144 | options left out default to offsets 0 and no fallback |
| SmoothScrollClass.OffsetPrecedence | dist/main.js:156-157 | a non-zero configured offset wins; a configured 0 falls through to the offset the style declares (`ConvertToPx` of the match), which is 0 when the style declares nothing |
| SmoothScrollClass.StyleOffsetWhenUnconfigured | dist/main.js:154-157 | with no configured offset, a style starting with a `-y` declaration of `n` pixels or rems gives that length in pixels |
| SmoothScrollClass.AlignDestination | dist/main.js:158-159 | scrolling from `start` to the destination moves the element's edge onto the container's edge moved in by the offset |
| SmoothScrollClass.ScrollToAligns | dist/main.js:146-185 | for an element, the destination puts its top-left corner at the container's, moved in by the resolved offsets (the body's rectangle counts as zero). The scroll is native exactly when smooth scrolling is supported, and it targets the window for the body. The animation starts at the container's current position and at the current time |
| SmoothScrollClass.ScrollToOrigin | dist/main.js:147-159 | with no element, the window is scrolled to (0, 0) |
| SmoothScrollClass.ScrollToDispatch | dist/main.js:146-185 | what `ScrollTo` does once the container is known (its meaning is stated by `ScrollToAligns` and `ScrollToOrigin`) |
| SmoothScrollClass.SmoothScroll.ScrollTo | dist/main.js:146-186 | the request is the one for the container the walk finds (the body when there is no element), with the instance's offsets |
| SmoothScrollClass.EdgeDelta | dist/main.js:197-210 | an element sticking out at the start is brought `offset` past the start edge; one sticking out only at the end is brought `offset` inside the end edge; one inside does not move |
| SmoothScrollClass.IntoViewDispatch | dist/main.js:190-224 | what `ScrollIntoView` does once the container is known (its meaning is stated by `IntoViewSkipsVisible`, `IntoViewBringsInside` and `IntoViewScrollsOutside`) |
| SmoothScrollClass.IntoViewSkipsVisible | dist/main.js:199-213 | an element inside the visible rectangle on both axes is not scrolled |
| SmoothScrollClass.IntoViewBringsInside | dist/main.js:187-224 | `ScrollIntoView` does nothing exactly when both edge deltas are 0, and otherwise animates (never natively) the container from its current position and the current time; on each axis the destination brings an edge sticking out at the start `offset` past the start edge, an edge sticking out only at the end `offset` inside the end edge, and leaves an axis on which the element lies inside the container where it is |
| SmoothScrollClass.IntoViewScrollsOutside | dist/main.js:199-213 | with offsets that are not negative, an element sticking out of the visible rectangle on any side is scrolled |
| SmoothScrollClass.SmoothScroll.ScrollIntoView | dist/main.js:187-225 | no element: nothing; a walk that never ends: `Hang`; otherwise the deltas built branch by branch give the edge-rule request |
| SmoothScrollFunction.ScrollableAsClassWithFallback | src/main.ts:25-44 | the function's scrollability test, which always compares sizes, is the class's test with the fallback switched on |
| SmoothScrollFunction.HasScrollableSpace | src/main.ts:27-37 | `hasScrollableSpace(el, axis)`: the size comparison with the rounding tolerance, with no fallback switch (stated by `ScrollableAsClassWithFallback`) |
| SmoothScrollFunction.IsScrollable | src/main.ts:39-44 | `isScrollable(el)`: some axis has room and a scrolling overflow (stated by `ScrollableAsClassWithFallback`) |
| SmoothScrollFunction.FindScrollableParent | src/main.ts:46-52 | the loop's outcome is the class's walk with the fallback on |
| SmoothScrollFunction.ScrollAligns | src/main.ts:96-114 | the destination puts the element's top-left corner exactly at the container's, without offsets, even for the body. The native scroll targets the container element, and the animation starts at the container's current position |
| SmoothScrollFunction.ScrollDispatch | src/main.ts:96-126 | what `scroll()` does once the container is known (its meaning is stated by `ScrollAligns` and `AgreesWithClassScrollTo`) |
| SmoothScrollFunction.AgreesWithClassScrollTo | src/main.ts:98-105 | for a container other than the body whose style declares no offsets, the function sends the same request as a class instance with no configured offsets |
| SmoothScrollFunction.Smoothscroll | src/main.ts:93-129 | no element: nothing; a walk that never ends: `Hang`; otherwise the offset-free request for the container the walk finds |

## Left out

- DOM and layout reads are modelled as fields of the node and host records. These are `getComputedStyle`, `getBoundingClientRect`, `getAttribute('style')`, `innerWidth`/`innerHeight`, `scrollX`/`scrollY` and the root font size.
- `document.body` identity is modelled as a node id held by the document. `Dom.Document.Valid` requires the body to be in the tree. The host allows `document.body` to be null; the walk then never stops at a body, and `ScrollTo()` with no element throws at `getAttribute` (dist/main.js:147,154). Neither case is modelled.
- `requestAnimationFrame` and the clock (`performance.now`/`Date.now`) become the sequence of readings that `Animation.Run` takes. Overlapping animations on the same container are not modelled.
- The native smooth scroll (`CSS.supports` and `scrollTo({behavior: 'smooth'})`) becomes the `Native` request value, because the browser carries it out.
- Floating point is not modelled: all arithmetic is on reals, so `Animation.Run` and `Animation.ArrivesAfterScrollTime` prove that the animation stops only over the reals. In IEEE doubles, once elapsed time is clamped to 1, every later frame computes the same `start + (x - start) * 1`, and that need not equal `x` (start 0.7 and destination 0.1 give 0.09999999999999998). The test that requests another frame then stays true, so the real animation may never stop.
- `Math.cos` is not modelled. The easing `0.5 * (1 - cos(πk))` is a parameter; the lemmas that need it assume only `ease(1) = 1`, or that it maps [0, 1] into [0, 1].
- `IsMicrosoftBrowser`, a regular expression over `navigator.userAgent`, is a boolean input.
- The `Object.defineProperty` scaffolding of the constructor (dist/main.js:7-141) only installs the members modelled here.
- `dist/main.d.ts` and `rollup.config.ts` are not part of this model: they are type declarations and build configuration, with no behaviour.
- Offsets.ConvertToPx: defined only on values the offset expression can capture, because that is its only call site. Its "any other string gives 0" branch is therefore not reachable in the model.
- Offsets.Number: models `Number()` only on the decimal strings the expression admits, as an exact real.
- The source's infinite loop in the ancestor walk is represented by the `Spins` walk and the `Hang` request instead of non-termination.
- Animation.Step: writes through one `Container` for both the window and an element. Which one it is comes from `SmoothScrollClass.ContainerBox`, so the model does not capture aliasing between the two.
- Animation.Step: the host clamps and rounds what is written to `scrollLeft`/`scrollTop`. The container here keeps the written value exactly, so "the container holds the last frame" in `Step` and `Run` is about the value written, not the value read back.
- SmoothScrollClass.HasScrollableSpace: axis values other than X and Y (its final `return false`) cannot occur with the two-valued `Axis`.
- The specification functions take `fallbackToNearest` as a parameter, and the class's methods pass the instance's field.
