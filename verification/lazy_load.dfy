/**
  `Titon.LazyLoad`: elements marked with a class are "shown" (their class removed and
  their images' `data-lazyload` copied into `src`) once their top-left corner comes
  within a threshold of the viewport; `loadAll` shows everything and shuts the loader down.

  The page is a value: a sequence of nodes plus the log of events the loader fired.
  The window's scroll offset and size, and each node's page position, are explicit values.
 */
module LazyLoad {
  import opened Wrappers
  import opened Strings

  // ---------------------------------------------------------------------------
  // The data
  // ---------------------------------------------------------------------------

  /** A page coordinate, as `getPosition`, `getScroll` and `getSize` report it. */
  datatype Point = Point(x: int, y: int)

  /** `window.getScroll()` and `window.getSize()` read together. */
  datatype Viewport = Viewport(scroll: Point, size: Point)

  /** An `<img>` with its `src` and its optional `data-lazyload` attribute. */
  datatype Image = Image(src: string, lazySrc: Option<string>)

  /** An element: its classes, its page position and the images it contains. */
  datatype Node = Node(classes: set<string>, position: Point, images: seq<Image>)

  /** The events the loader fires; `Show` and `LoadAll` carry the node indices they were given. */
  datatype Event = Show(node: nat) | Load | LoadAll(elements: seq<nat>) | Shutdown

  /** The options a loader reads (`context` and the callbacks are left out). */
  datatype Options = Options(forceLoad: bool, delay: int, threshold: int)

  /** The defaults of a fresh loader. */
  const DefaultOptions := Options(false, 10000, 150)

  /** The options a caller passes: any field may be missing. */
  datatype GivenOptions = GivenOptions(forceLoad: Option<bool>, delay: Option<int>, threshold: Option<int>)

  /**
    `options = options || {}` followed by laying the given fields over the defaults:
    a field the caller gave wins, a missing one keeps its default.
   */
  function MergeOptions(given: Option<GivenOptions>): (o: Options)
    ensures given.None? ==> o == DefaultOptions
    ensures given.Some? ==>
              && o.forceLoad == (if given.value.forceLoad.Some? then given.value.forceLoad.value else DefaultOptions.forceLoad)
              && o.delay == (if given.value.delay.Some? then given.value.delay.value else DefaultOptions.delay)
              && o.threshold == (if given.value.threshold.Some? then given.value.threshold.value else DefaultOptions.threshold)
  {
    var g := given.GetOr(GivenOptions(None, None, None));
    Options(g.forceLoad.GetOr(DefaultOptions.forceLoad),
            g.delay.GetOr(DefaultOptions.delay),
            g.threshold.GetOr(DefaultOptions.threshold))
  }

  /** Passing no options and passing an empty object give the same loader options. */
  lemma MergeMissingIsEmpty()
    ensures MergeOptions(None) == MergeOptions(Some(GivenOptions(None, None, None)))
  {
  }

  /** Giving every field overrides every default: the merge hands back exactly what was given. */
  lemma MergeAllFields(o: Options)
    ensures MergeOptions(Some(GivenOptions(Some(o.forceLoad), Some(o.delay), Some(o.threshold)))) == o
  {
  }

  /** One loader instance: its selector, its options and the `isLoaded` flag. */
  datatype Loader = Loader(query: string, options: Options, isLoaded: bool)

  /** A loader together with the page it works on and the events it has fired so far. */
  datatype World = World(loader: Loader, nodes: seq<Node>, log: seq<Event>)

  /** The world after `load` or `loadAll`, and the boolean the call returned. */
  datatype Step = Step(after: World, returned: bool)

  /** `new Titon.LazyLoad(query, options)`: nothing is loaded yet; the options are merged over the defaults. */
  function Create(query: string, given: Option<GivenOptions>): (l: Loader)
    ensures !l.isLoaded && l.query == query
    ensures given.None? ==> l.options == DefaultOptions
    ensures given.Some? && given.value.threshold.Some? ==> l.options.threshold == given.value.threshold.value
    ensures given.Some? && given.value.threshold.None? ==> l.options.threshold == 150
  {
    Loader(query, MergeOptions(given), false)
  }

  // ---------------------------------------------------------------------------
  // inViewport
  // ---------------------------------------------------------------------------

  /** An axis-aligned box given by its least and greatest corners, both included. */
  datatype Box = Box(lo: Point, hi: Point)

  predicate Inside(p: Point, b: Box) {
    b.lo.x <= p.x <= b.hi.x && b.lo.y <= p.y <= b.hi.y
  }

  /** The viewport grown by `threshold` pixels on every side. */
  function Widen(vp: Viewport, threshold: int): Box {
    Box(Point(vp.scroll.x - threshold, vp.scroll.y - threshold),
        Point(vp.scroll.x + vp.size.x + threshold, vp.scroll.y + vp.size.y + threshold))
  }

  /** `inViewport`: the four bounds on the node's top-left corner, each inclusive. */
  predicate InViewport(p: Point, vp: Viewport, threshold: int)
    ensures InViewport(p, vp, threshold) <==> Inside(p, Widen(vp, threshold))
  {
    && p.y >= vp.scroll.y - threshold
    && p.y <= vp.scroll.y + vp.size.y + threshold
    && p.x >= vp.scroll.x - threshold
    && p.x <= vp.scroll.x + vp.size.x + threshold
  }

  /** A node visible at some threshold stays visible at any larger one. */
  lemma InViewportMonotone(p: Point, vp: Viewport, t: int, t': int)
    requires t <= t' && InViewport(p, vp, t)
    ensures InViewport(p, vp, t')
  {
  }

  /** The lower bound is closed: exactly on it is visible, one pixel further is not. */
  lemma InViewportBottomEdge(x: int, vp: Viewport, t: int)
    requires vp.scroll.x - t <= x <= vp.scroll.x + vp.size.x + t
    requires vp.size.y + 2 * t >= 0
    ensures InViewport(Point(x, vp.scroll.y + vp.size.y + t), vp, t)
    ensures !InViewport(Point(x, vp.scroll.y + vp.size.y + t + 1), vp, t)
  {
  }

  /** A node at y = -160 is outside the default 150-pixel margin of an unscrolled window. */
  lemma InViewportAboveThreshold(vp: Viewport, x: int)
    requires vp.scroll.y == 0
    ensures !InViewport(Point(x, -160), vp, DefaultOptions.threshold)
  {
  }

  // ---------------------------------------------------------------------------
  // show
  // ---------------------------------------------------------------------------

  /** The class `show` removes: the selector with its dots taken out. */
  function ClassName(query: string): (c: string)
    ensures '.' !in c
    ensures forall x :: x != '.' ==> (x in c <==> x in query)
  {
    RemoveChar(query, '.')
  }

  /** The class of a selector `.name` is `name`, with no character moved or lost. */
  lemma ClassNameOfSelector(w: string)
    requires '.' !in w
    ensures ClassName(['.'] + w) == w
  {
    RemoveCharAppend(['.'], w, '.');
    RemoveCharSingle('.', '.');
    RemoveAbsentChar(w, '.');
  }

  /** `$$(query)` for a single-class selector: the node carries the class. */
  predicate Matches(n: Node, query: string) {
    ClassName(query) in n.classes
  }

  /** A selector `.name` matches exactly the nodes that carry the class `name`. */
  lemma MatchesClass(n: Node, name: string)
    requires '.' !in name
    ensures Matches(n, ['.'] + name) <==> name in n.classes
  {
    ClassNameOfSelector(name);
  }

  /** JavaScript truthiness of an attribute read: present and not empty. */
  predicate Truthy(v: Option<string>) {
    v.Some? && v.value != ""
  }

  /** One image after `show`: `src` takes the `data-lazyload` value when there is one. */
  function RevealImage(img: Image): (r: Image)
    ensures r.lazySrc == img.lazySrc
    ensures Truthy(img.lazySrc) ==> r.src == img.lazySrc.value
    ensures !Truthy(img.lazySrc) ==> r == img
  {
    if Truthy(img.lazySrc) then img.(src := img.lazySrc.value) else img
  }

  /** `show` on one node: the class is gone, every image revealed, the position kept. */
  function ShowNode(n: Node, query: string): (r: Node)
    ensures !Matches(r, query)
    ensures r.classes == n.classes - {ClassName(query)}
    ensures r.position == n.position
    ensures |r.images| == |n.images|
    ensures forall k :: 0 <= k < |n.images| ==> r.images[k] == RevealImage(n.images[k])
  {
    Node(n.classes - {ClassName(query)}, n.position, seq(|n.images|, k requires 0 <= k < |n.images| => RevealImage(n.images[k])))
  }

  /** Showing a node twice is the same as showing it once. */
  lemma ShowNodeIdempotent(n: Node, query: string)
    ensures ShowNode(ShowNode(n, query), query) == ShowNode(n, query)
  {
    var once := ShowNode(n, query);
    var twice := ShowNode(once, query);
    assert twice.images == once.images;
  }

  /** `show(node)` for the node at index `i`: that node changes and a `Show` event is fired. */
  function ShowAt(w: World, i: nat): (r: World)
    requires i < |w.nodes|
    ensures r.loader == w.loader
    ensures |r.nodes| == |w.nodes|
    ensures r.nodes[i] == ShowNode(w.nodes[i], w.loader.query)
    ensures forall j :: 0 <= j < |w.nodes| && j != i ==> r.nodes[j] == w.nodes[j]
    ensures r.log == w.log + [Show(i)]
  {
    World(w.loader, w.nodes[i := ShowNode(w.nodes[i], w.loader.query)], w.log + [Show(i)])
  }

  // ---------------------------------------------------------------------------
  // Selecting and showing many nodes
  // ---------------------------------------------------------------------------

  /** The indices of the nodes satisfying `keep`, in document order. */
  function Where(nodes: seq<Node>, keep: Node -> bool): (idx: seq<nat>)
    ensures forall k :: 0 <= k < |idx| ==> idx[k] < |nodes| && keep(nodes[idx[k]])
    ensures forall i :: 0 <= i < |nodes| && keep(nodes[i]) ==> i in idx
    ensures forall k, m :: 0 <= k < m < |idx| ==> idx[k] < idx[m]
    decreases |nodes|
  {
    if |nodes| == 0 then []
    else
      var front := nodes[..|nodes| - 1];
      var rest := Where(front, keep);
      assert forall i :: 0 <= i < |front| ==> front[i] == nodes[i];
      var last := |nodes| - 1;
      if keep(nodes[last]) then rest + [last] else rest
  }

  /** The `Show` events for a list of indices, in that order. */
  function ShowEvents(idx: seq<nat>): (evs: seq<Event>)
    ensures |evs| == |idx|
    ensures forall k :: 0 <= k < |idx| ==> evs[k] == Show(idx[k])
  {
    seq(|idx|, k requires 0 <= k < |idx| => Show(idx[k]))
  }

  /** `elements.each(show)`: `show` applied to each listed index in turn. */
  function ShowEach(w: World, idx: seq<nat>): (r: World)
    requires forall k :: 0 <= k < |idx| ==> idx[k] < |w.nodes|
    ensures r.loader == w.loader
    ensures |r.nodes| == |w.nodes|
    ensures forall j :: 0 <= j < |w.nodes| ==>
              r.nodes[j] == if j in idx then ShowNode(w.nodes[j], w.loader.query) else w.nodes[j]
    ensures r.log == w.log + ShowEvents(idx)
    decreases |idx|
  {
    if |idx| == 0 then w
    else
      var front := idx[..|idx| - 1];
      var last := idx[|idx| - 1];
      var mid := ShowEach(w, front);
      ShowNodeIdempotent(w.nodes[last], w.loader.query);
      assert forall j :: j in idx <==> j in front || j == last;
      assert ShowEvents(idx) == ShowEvents(front) + [Show(last)];
      ShowAt(mid, last)
  }

  // ---------------------------------------------------------------------------
  // The state machine
  // ---------------------------------------------------------------------------

  /** `shutdown`: the loader stops for good and says so. */
  function ShutdownLoader(w: World): (r: World)
    ensures r.loader.isLoaded
    ensures r.loader.query == w.loader.query && r.loader.options == w.loader.options
    ensures r.nodes == w.nodes
    ensures r.log == w.log + [Shutdown]
  {
    World(w.loader.(isLoaded := true), w.nodes, w.log + [Shutdown])
  }

  /** The matching nodes whose corner lies in the widened viewport. */
  function VisibleMatches(w: World, vp: Viewport): seq<nat> {
    Where(w.nodes, n => Matches(n, w.loader.query) && InViewport(n.position, vp, w.loader.options.threshold))
  }

  /** All matching nodes: `$$(query)`, in document order. */
  function AllMatches(w: World): (idx: seq<nat>)
    ensures forall k :: 0 <= k < |idx| ==> idx[k] < |w.nodes| && Matches(w.nodes[idx[k]], w.loader.query)
    ensures forall i :: 0 <= i < |w.nodes| && Matches(w.nodes[i], w.loader.query) ==> i in idx
    ensures forall k, m :: 0 <= k < m < |idx| ==> idx[k] < idx[m]
  {
    Where(w.nodes, n => Matches(n, w.loader.query))
  }

  /** `load`: show the matching nodes in view; with nothing left to match, shut down. */
  function LoadStep(w: World, vp: Viewport): (s: Step)
    // a loaded instance does nothing at all
    ensures w.loader.isLoaded ==> s == Step(w, false)
    // nothing matches: shut down and report false
    ensures !w.loader.isLoaded && (forall i :: 0 <= i < |w.nodes| ==> !Matches(w.nodes[i], w.loader.query)) ==>
              s == Step(ShutdownLoader(w), false)
    // something matches: exactly the visible matching nodes are shown, then `load` is fired
    ensures !w.loader.isLoaded && (exists i :: 0 <= i < |w.nodes| && Matches(w.nodes[i], w.loader.query)) ==>
              && s.returned
              && s.after.loader == w.loader
              && |s.after.nodes| == |w.nodes|
              && (forall j :: 0 <= j < |w.nodes| ==>
                    s.after.nodes[j] == if Matches(w.nodes[j], w.loader.query) && InViewport(w.nodes[j].position, vp, w.loader.options.threshold)
                                        then ShowNode(w.nodes[j], w.loader.query) else w.nodes[j])
              && s.after.log == w.log + ShowEvents(VisibleMatches(w, vp)) + [Load]
  {
    if w.loader.isLoaded then Step(w, false)
    else
      var elements := AllMatches(w);
      if |elements| == 0 then Step(ShutdownLoader(w), false)
      else
        assert Matches(w.nodes[elements[0]], w.loader.query);
        var shown := ShowEach(w, VisibleMatches(w, vp));
        Step(shown.(log := shown.log + [Load]), true)
  }

  /** `loadAll`: show every matching node, fire `loadAll`, then shut down. */
  function LoadAllStep(w: World): (s: Step)
    ensures w.loader.isLoaded ==> s == Step(w, false)
    ensures !w.loader.isLoaded ==>
              && s.returned
              && s.after.loader == w.loader.(isLoaded := true)
              && |s.after.nodes| == |w.nodes|
              && (forall j :: 0 <= j < |w.nodes| ==> !Matches(s.after.nodes[j], w.loader.query))
              && (forall j :: 0 <= j < |w.nodes| ==>
                    s.after.nodes[j] == if Matches(w.nodes[j], w.loader.query) then ShowNode(w.nodes[j], w.loader.query) else w.nodes[j])
              && s.after.log == w.log + ShowEvents(AllMatches(w)) + [LoadAll(AllMatches(w)), Shutdown]
  {
    if w.loader.isLoaded then Step(w, false)
    else
      var elements := AllMatches(w);
      var shown := ShowEach(w, elements);
      Step(ShutdownLoader(shown.(log := shown.log + [LoadAll(elements)])), true)
  }

  // ---------------------------------------------------------------------------
  // Properties of the state machine
  // ---------------------------------------------------------------------------

  /** `shutdown` always ends with the flag set; a second one leaves the loader as it was. */
  lemma ShutdownTwice(w: World)
    ensures ShutdownLoader(ShutdownLoader(w)).loader == ShutdownLoader(w).loader
    ensures ShutdownLoader(ShutdownLoader(w)).nodes == w.nodes
  {
  }

  /** The indices of the nodes the loader still waits for. */
  function Pending(w: World): set<nat> {
    set i: nat | i < |w.nodes| && Matches(w.nodes[i], w.loader.query)
  }

  /** A `load` that returns true removes exactly the visible nodes from the pending set. */
  lemma LoadShrinksPending(w: World, vp: Viewport)
    requires LoadStep(w, vp).returned
    ensures Pending(LoadStep(w, vp).after)
         == Pending(w) - set i: nat | i < |w.nodes| && InViewport(w.nodes[i].position, vp, w.loader.options.threshold)
  {
    var s := LoadStep(w, vp);
    assert !w.loader.isLoaded;
    assert |AllMatches(w)| > 0;
    var i0 := AllMatches(w)[0];
    assert Matches(w.nodes[i0], w.loader.query);
  }

  /** When every pending node is in view, a second `load` finds nothing and shuts the loader down. */
  lemma LoadTwiceShutsDown(w: World, vp: Viewport)
    requires !w.loader.isLoaded
    requires forall i :: 0 <= i < |w.nodes| && Matches(w.nodes[i], w.loader.query) ==>
               InViewport(w.nodes[i].position, vp, w.loader.options.threshold)
    ensures LoadStep(LoadStep(w, vp).after, vp).after.loader.isLoaded
  {
    var w1 := LoadStep(w, vp).after;
    if exists i :: 0 <= i < |w.nodes| && Matches(w.nodes[i], w.loader.query) {
      LoadClearsVisible(w, vp);
      assert !w1.loader.isLoaded;
      assert forall i :: 0 <= i < |w1.nodes| ==> !Matches(w1.nodes[i], w1.loader.query);
      assert LoadStep(w1, vp) == Step(ShutdownLoader(w1), false);
    } else {
      assert w1 == ShutdownLoader(w);
    }
  }

  /** A `load` that finds every matching node in view leaves no node matching. */
  lemma LoadClearsVisible(w: World, vp: Viewport)
    requires !w.loader.isLoaded
    requires exists i :: 0 <= i < |w.nodes| && Matches(w.nodes[i], w.loader.query)
    requires forall i :: 0 <= i < |w.nodes| && Matches(w.nodes[i], w.loader.query) ==>
               InViewport(w.nodes[i].position, vp, w.loader.options.threshold)
    ensures LoadStep(w, vp).after.loader == w.loader
    ensures forall j :: 0 <= j < |LoadStep(w, vp).after.nodes| ==> !Matches(LoadStep(w, vp).after.nodes[j], w.loader.query)
  {
    var w1 := LoadStep(w, vp).after;
    forall j | 0 <= j < |w1.nodes|
      ensures !Matches(w1.nodes[j], w.loader.query)
    {
      if Matches(w.nodes[j], w.loader.query) {
        assert w1.nodes[j] == ShowNode(w.nodes[j], w.loader.query);
      }
    }
  }

  /** After `loadAll`, `load` and `loadAll` are no-ops that return false. */
  lemma LoadAllIsFinal(w: World, vp: Viewport)
    requires !w.loader.isLoaded
    ensures var w1 := LoadAllStep(w).after;
            LoadStep(w1, vp) == Step(w1, false) && LoadAllStep(w1) == Step(w1, false)
  {
  }

  // ---------------------------------------------------------------------------
  // factory
  // ---------------------------------------------------------------------------

  /** `LazyLoad.factory`: the registered instance for `query`, or a new one registered under it. */
  function Factory(instances: map<string, Loader>, query: string, options: Option<GivenOptions>): (r: (map<string, Loader>, Loader))
    ensures query in instances ==> r == (instances, instances[query])
    ensures query !in instances ==> r.1 == Create(query, options)
    ensures r.0.Keys == instances.Keys + {query}
    ensures r.0[query] == r.1
    ensures forall q :: q in instances ==> r.0[q] == instances[q]
  {
    if query in instances then (instances, instances[query])
    else
      var instance := Create(query, options);
      (instances[query := instance], instance)
  }

  /** A second call with the same query returns the first call's instance, whatever the options. */
  lemma FactoryCaches(instances: map<string, Loader>, query: string, options: Option<GivenOptions>, options': Option<GivenOptions>)
    ensures var (m1, l1) := Factory(instances, query, options);
            Factory(m1, query, options') == (m1, l1)
  {
  }
}
