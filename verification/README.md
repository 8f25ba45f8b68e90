# Overlay positioning and lazy loading, in Dafny

This project models two pieces of the Titon toolkit's browser geometry and proves properties about them.

- **`positionRelativeTo`** (module `Position`) computes the absolute `{left, top}` for an overlay. Its inputs are a placement directive such as `"bottom-right"`, the overlay's size, an anchor and a base offset. An omitted base offset is `{left: 0, top: 0}`, which the model passes explicitly as `Position.DefaultBaseOffset`. The anchor is either an element's bounding box or a mouse event's page point. The function works in four stages:
  1. It splits the directive on `-` into a vertical and a horizontal edge. A bare `left`/`right` moves to the horizontal axis.
  2. It seeds the coordinates from the anchor. An element's top gets the vertical scroll added; a mouse point is used as is.
  3. It shifts the coordinates per axis, either to an edge or centred with `Math.round`.
  4. It corrects the result against the window. When the overlay is no wider than the window (`width <= outerWidth`), the left is clamped into `[0, outerWidth - width]`; a wider overlay ends up at 0 when its left before correction is negative, and otherwise at the negative `outerWidth - width`. The top is clamped at 0. Overflowing the bottom flips the overlay so that it ends at the anchor's absolute top.
- **`Titon.LazyLoad`** (module `LazyLoad`) is a loader bound to a class selector. `load` shows the matching elements whose top-left corner lies inside the viewport widened by `threshold` pixels. Showing an element removes its class and copies each image's `data-lazyload` into `src` when it is non-empty. `load` shuts the loader down once nothing matches. `loadAll` shows every match and then shuts down. After shutdown (`isLoaded`), both calls do nothing and return false. `factory` caches one instance per selector.

Modelling choices:
- Pixels are integers. `Math.round(a/2 - b/2)` is `(a - b + 1) / 2` with Euclidean division. `Position.RoundHalfDiffIsJsRound` proves that this equals `floor(x + 1/2)` of the real half-difference.
- The browser reads are explicit parameters: `getBoundingClientRect`, `window.scrollY`, `window.outerWidth`/`outerHeight`, `getScroll`, `getSize` and `getPosition`.
- The page is a value. It holds a sequence of nodes, each with a class set, a page position and its images. `fireEvent` appends to an event log (`Show(i)`, `Load`, `LoadAll(indices)`, `Shutdown`). The loader, the page and the log together form a `World`, and `load`/`loadAll` map a `World` to a new `World` plus the returned boolean.
- `$$(query)` is modelled for single-class selectors: a node matches when its class set contains the selector with its dots removed. That is the same class name `show` removes.
- `query.remove('.')` is read as deleting every `.` from the selector.
- The directive is an arbitrary string, split exactly as `String.prototype.split('-')` does and destructured into its first two pieces. The eight legal `AxisPositions` values form the `Placement` datatype. `Position.ParsePlacement` proves that parsing each one gives its row of an explicit edge table.

Notes on the code's behaviour:
- `positionRelativeTo` never reads a horizontal scroll offset. The element anchor's `left` is taken from `getBoundingClientRect` unchanged.
- The window correction leaves an in-range coordinate alone (`Position.ClampLeft`, `Position.ClampTop`), but it is not idempotent in general:
  - The horizontal correction is idempotent only when the overlay fits in the window (`Position.ClampLeftIdempotent`, counterexample `Position.ClampLeftTooWide`).
  - A flipped top may be negative, and correcting it again moves it (`Position.ClampTopFlipNotFixed`).
- With a mouse anchor, the recorded anchor top stays 0, so the bottom flip puts the overlay at `-height` (`Position.MouseFlipLeavesPage`).
- `LazyLoad` keeps state: the `isLoaded` flag and the per-selector instance cache. The visibility test (`LazyLoad.InViewport`) is pure.

## Model

| member | source | states |
|---|---|---|
| Strings.Split | src/utility/positionRelativeTo.js:33 | every piece of `split('-')` is free of `-`, and there is at least one piece |
| Strings.SplitCount | src/utility/positionRelativeTo.js:33 | a split has exactly one piece more than the string has separators |
| Strings.JoinSplit | src/utility/positionRelativeTo.js:33 | joining the pieces with the separator gives the original directive back |
| Strings.SplitJoin | src/utility/positionRelativeTo.js:33 | splitting a join of separator-free pieces gives those pieces back |
| Strings.SplitWord | src/utility/positionRelativeTo.js:33 | a word without `-` splits into itself alone, so `edgeX` stays undefined |
| Strings.SplitFirst | src/utility/positionRelativeTo.js:33 | `a-rest` with `a` free of `-` splits into `a` followed by the pieces of `rest` |
| Strings.RemoveChar | src/js/utilities/LazyLoad.js:144 | `query.remove('.')` leaves no `.`, and a character other than `.` occurs in the result exactly when it occurs in the selector |
| Strings.RemoveCharLength | src/js/utilities/LazyLoad.js:144 | the result is shorter than the selector by exactly its number of dots |
| Strings.RemoveCharAppend | src/js/utilities/LazyLoad.js:144 | deleting dots commutes with concatenation, so every kept character stays in its original order |
| Strings.RemoveCharSingle | src/js/utilities/LazyLoad.js:144 | a single character is deleted exactly when it is `.` and kept otherwise |
| Strings.RemoveAbsentChar | src/js/utilities/LazyLoad.js:144 | a selector without dots is left unchanged |
| Position.ParseEdges | src/utility/positionRelativeTo.js:33-43 | the vertical edge is absent exactly when the first piece is `left`/`right`, and then that word becomes the horizontal edge; a vertical edge that is present is never a side word |
| Position.ParseOneWord | src/utility/positionRelativeTo.js:33-43 | a one-word directive yields only a horizontal edge if it is `left`/`right`, and otherwise only a vertical edge |
| Position.ParseTwoWords | src/utility/positionRelativeTo.js:33-43 | `a-b` yields `(a, b)`, unless `a` is a side word, which then becomes the only (horizontal) edge |
| Position.ParsePlacement | src/utility/positionRelativeTo.js:10-43 | each of the eight `AxisPositions` values parses to its row of the edge table |
| Position.ParseSide | src/utility/positionRelativeTo.js:33-43 | `top`, `bottom`, `left` and `right` parse to a single edge each |
| Position.ParseCorner | src/utility/positionRelativeTo.js:33-43 | the four corner directives parse to a vertical and a horizontal edge |
| Position.SeedFrom | src/utility/positionRelativeTo.js:32-59 | mouse: the base offset plus `(pageX, pageY)`, with anchor top, height and width all 0; element: anchor top = `rect.top + scrollY`, added to the base top, with `rect.left` added to the base left |
| Position.MouseSeedIgnoresScroll | src/utility/positionRelativeTo.js:46-48 | a mouse anchor's seeded coordinates do not depend on the window at all |
| Position.ElemSeedFollowsScroll | src/utility/positionRelativeTo.js:52-58 | scrolling by `d` moves an element anchor's seeded top by `d` and leaves its left unchanged |
| Position.JsRound | src/utility/positionRelativeTo.js:67 | `Math.round` returns the integer within half a unit of its argument, with halves rounding up |
| Position.RoundHalfDiff | src/utility/positionRelativeTo.js:67 | the rounded half-difference `r` satisfies `2r - 1 <= a - b <= 2r` |
| Position.RoundHalfDiffIsJsRound | src/utility/positionRelativeTo.js:67 | the integer formula equals `Math.round(a/2 - b/2)` computed over the reals |
| Position.Shift | src/utility/positionRelativeTo.js:61-76 | `top`/`left`: the overlay ends where the anchor begins; `bottom`/`right`: it begins where the anchor ends; centred: its midpoint is the anchor's, or half a pixel before it |
| Position.CentredSameSize | src/utility/positionRelativeTo.js:66-76 | centring on an anchor of the same extent leaves the coordinate unchanged |
| Position.ClampLeft | src/utility/positionRelativeTo.js:79-83 | a negative left becomes 0; overflowing the right edge gives `outerWidth - width`; an in-range left is kept; when the overlay fits, the result lies within the window |
| Position.ClampLeftIdempotent | src/utility/positionRelativeTo.js:79-83 | when the overlay fits, correcting twice gives the same result as correcting once |
| Position.ClampLeftTooWide | src/utility/positionRelativeTo.js:79-83 | for an overlay wider than the window, a negative left is corrected to 0; any left `>= 0` is corrected to the negative `outerWidth - width`, which a second correction moves to 0 |
| Position.ClampTop | src/utility/positionRelativeTo.js:85-89 | a negative top becomes 0; overflowing `outerHeight + scrollY` flips to end exactly at the anchor's absolute top; an in-range top is kept; a negative result only comes from the flip |
| Position.ClampTopFlipNotFixed | src/utility/positionRelativeTo.js:85-89 | a flip can give a negative top, which a second correction moves to 0 |
| Position.Unclamped | src/utility/positionRelativeTo.js:29-76 | before the window correction: `top` places the overlay's bottom on the seeded top and `bottom` its top at the seeded top plus the anchor height, with `left`/`right` the same on the horizontal axis; any other edge centres the overlay on the anchor to within half a pixel |
| Position.PositionRelativeTo | src/utility/positionRelativeTo.js:23-95 | when the overlay fits horizontally, the result lies within `[0, outerWidth]`; the top is non-negative or flipped onto the anchor top; coordinates already in range before correction are returned as they are |
| Position.FlipAboveAnchor | src/utility/positionRelativeTo.js:85-89 | for an element anchor that overflows the bottom, the result top is `rect.top + scrollY - height` |
| Position.MouseFlipLeavesPage | src/utility/positionRelativeTo.js:34-89 | for a mouse anchor that overflows the bottom, the result top is `-height`, because the anchor top stays 0 |
| Position.LeftIsHorizontalOnly | src/utility/positionRelativeTo.js:70-83 | the result `left` is the same for any two calls that agree on the horizontal edge, the width, the horizontal anchor data, the base left and `outerWidth` |
| Position.BottomRightExample | src/utility/positionRelativeTo.js:23-95 | `bottom-right`, a 100x50 overlay, anchor `{top 200, left 300, 40x20}`, window 1000x800: `{left 340, top 220}` |
| Position.BottomRightFlipExample | src/utility/positionRelativeTo.js:85-89 | the same with anchor top 780 overflows and flips to top 730 |
| LazyLoad.MergeOptions | src/js/utilities/LazyLoad.js:29-52 | missing options give the defaults (`forceLoad` false, `delay` 10000, `threshold` 150); otherwise each given field wins and each missing field keeps its default |
| LazyLoad.MergeMissingIsEmpty | src/js/utilities/LazyLoad.js:49 | passing no options is the same as passing an empty object |
| LazyLoad.MergeAllFields | src/js/utilities/LazyLoad.js:29-52 | options that give every field come back unchanged, so no default survives |
| LazyLoad.Create | src/js/utilities/LazyLoad.js:15-52 | a new instance keeps its selector, starts with `isLoaded` false, and uses the given threshold or else the default 150 |
| LazyLoad.InViewport | src/js/utilities/LazyLoad.js:164-180 | visible exactly when the corner lies in the viewport widened by the threshold on every side, with all four bounds inclusive |
| LazyLoad.InViewportMonotone | src/js/utilities/LazyLoad.js:165-179 | visible at threshold `t` implies visible at any `t' >= t` |
| LazyLoad.InViewportBottomEdge | src/js/utilities/LazyLoad.js:174 | a corner exactly at `scrollY + height + t` is visible; one pixel lower is not |
| LazyLoad.InViewportAboveThreshold | src/js/utilities/LazyLoad.js:170-179 | with no scroll and the default threshold 150, a corner at y = -160 is not visible |
| LazyLoad.ClassName | src/js/utilities/LazyLoad.js:144 | the class removed by `show` contains no dot and keeps every other character of the selector |
| LazyLoad.ClassNameOfSelector | src/js/utilities/LazyLoad.js:144 | for a selector `.name` with a dot-free `name`, the class removed is exactly `name` |
| LazyLoad.MatchesClass | src/js/utilities/LazyLoad.js:96 | `$$('.name')` selects a node exactly when the node carries the class `name` |
| LazyLoad.AllMatches | src/js/utilities/LazyLoad.js:125 | `$$(query)` yields exactly the indices of the matching nodes, in increasing document order |
| LazyLoad.RevealImage | src/js/utilities/LazyLoad.js:147-153 | `src` becomes `data-lazyload` when that is present and non-empty; otherwise the image is unchanged |
| LazyLoad.ShowNode | src/js/utilities/LazyLoad.js:143-153 | the node loses exactly the selector's class, so it no longer matches; its position is kept; every image is revealed |
| LazyLoad.ShowNodeIdempotent | src/js/utilities/LazyLoad.js:143-153 | showing a node twice is the same as showing it once |
| LazyLoad.ShowAt | src/js/utilities/LazyLoad.js:143-156 | `show` changes only the given node and appends one `Show` event |
| LazyLoad.Where | src/js/utilities/LazyLoad.js:96-108 | the selected indices are exactly the nodes passing the test, in increasing document order |
| LazyLoad.ShowEach | src/js/utilities/LazyLoad.js:104-108 | showing a list of nodes changes exactly the listed nodes and appends their `Show` events in order |
| LazyLoad.ShutdownLoader | src/js/utilities/LazyLoad.js:75-84 | `shutdown` sets `isLoaded`, keeps the page and appends `Shutdown` |
| LazyLoad.ShutdownTwice | src/js/utilities/LazyLoad.js:75-84 | a second `shutdown` leaves the loader and the page as the first one left them |
| LazyLoad.LoadStep | src/js/utilities/LazyLoad.js:91-113 | when loaded: no change, returns false. No match: shuts down, returns false. Otherwise: shows exactly the matching nodes in view, leaves the rest untouched, logs their `Show` events and then `Load`, keeps `isLoaded` false, returns true |
| LazyLoad.LoadAllStep | src/js/utilities/LazyLoad.js:120-136 | when loaded: no change, returns false. Otherwise: shows every matching node, after which none matches; logs the `Show` events, then `LoadAll` and `Shutdown`; sets `isLoaded` and keeps the selector and options; returns true |
| LazyLoad.LoadShrinksPending | src/js/utilities/LazyLoad.js:104-112 | a `load` that returns true removes exactly the nodes in view from the set of pending (still matching) nodes |
| LazyLoad.LoadClearsVisible | src/js/utilities/LazyLoad.js:104-108 | when every matching node is in view, a `load` leaves no node matching and keeps the loader unchanged |
| LazyLoad.LoadTwiceShutsDown | src/js/utilities/LazyLoad.js:91-113 | when every pending node is in view, a second `load` finds nothing and shuts the loader down |
| LazyLoad.LoadAllIsFinal | src/js/utilities/LazyLoad.js:91-136 | after `loadAll`, both `load` and `loadAll` return false and change nothing |
| LazyLoad.Factory | src/js/utilities/LazyLoad.js:196-206 | a known selector returns its cached instance and leaves the map unchanged; a new selector gets a fresh instance built from the given options; the map gains exactly that key and keeps all other entries |
| LazyLoad.FactoryCaches | src/js/utilities/LazyLoad.js:196-206 | a second `factory` call for the same selector returns the first call's instance, whatever options it is given |

## Left out

- Event wiring is not modelled: `addEvents`/`removeEvents` for scroll and resize, the `domready` handler, and the `setTimeout` force-load (src/js/utilities/LazyLoad.js:55-68, 78-81). These are asynchronous browser plumbing. Their only effect is to call `load` or `loadAll`, which are modelled. Because of this, the options `forceLoad` and `delay` are carried but never read, and the `context` option is not modelled.
- The `on*` callbacks run by `fireEvent` are left out. The fired events appear only in the log.
- Selectors are single-class only. General CSS selectors in `$$` are not modelled, and neither is element nesting: each node owns its images.
- LazyLoad.Create: the merge of the given options over the defaults is done by `Titon.Component`, which is not part of this model. It is modelled as a field-by-field overlay of `forceLoad`, `delay` and `threshold`. The `multiElement` flag written onto the options object (src/js/utilities/LazyLoad.js:50) is not modelled.
- Node positions are read once for a whole `load` pass and assumed unaffected by `show`. The code calls `getPosition` for each node in turn (src/js/utilities/LazyLoad.js:168), after earlier `show` calls may have reflowed the page by removing a class or changing an image `src`. Layout is not modelled, so `LazyLoad.ShowNode` keeps the node's position.
- Instance identity is not modelled. The `factory` cache holds values, not objects, so "the same instance" means an equal value.
- Fractional, NaN and infinite pixel values are not modelled, and neither is the 53-bit precision of JavaScript numbers. All coordinates are unbounded integers.
- The component files src/components/OffCanvas/Sidebar.js and src/components/Breadcrumb/Item.js are not part of this model. They contain React rendering and ARIA/class glue, with no geometry.
