/** The per-block engine of extensions/b2b-price/assets/b2b-price.js: `updateTarget`,
    `initB2BPrice` with `updatePriceDisplay`, the poll callback and the mutation callback,
    and the `b2bPriceConfigs` registry whose `push` is overridden. The DOM is a `Page`
    object; the timer and the observer are the methods `Tick` and `Insert`. */
module PriceEngine {
  import opened Wrappers
  import opened MoneyFormat
  import opened PriceResolver

  /** An element of the document. */
  type NodeId = nat

  /** `"b2b-price-container-" + blockId` is the id of a block's own region. */
  const ContainerPrefix: string := "b2b-price-container-"

  // ---------------------------------------------------------------------------
  // Writing regions

  function OptionSet(n: Option<NodeId>): set<NodeId>
  {
    if n.Some? then {n.value} else {}
  }

  function Elements(s: seq<NodeId>): set<NodeId>
  {
    set x | x in s
  }

  /** The document after `innerHTML = html` on every element of targets; elements
      that are not in the document are not written. */
  function Overwrite(content: map<NodeId, Markup>, targets: set<NodeId>, html: Markup)
    : (c: map<NodeId, Markup>)
    ensures c.Keys == content.Keys
  {
    map k | k in content :: if k in targets then html else content[k]
  }

  /** Each target holds html, and every other element keeps its content. */
  lemma OverwriteEffect(content: map<NodeId, Markup>, targets: set<NodeId>, html: Markup)
    ensures forall k :: k in content && k in targets ==> Overwrite(content, targets, html)[k] == html
    ensures forall k :: k in content && k !in targets ==> Overwrite(content, targets, html)[k] == content[k]
  {
  }

  /** Writing the same html twice is the same as writing it once. */
  lemma OverwriteIdempotent(content: map<NodeId, Markup>, targets: set<NodeId>, html: Markup)
    ensures Overwrite(Overwrite(content, targets, html), targets, html) == Overwrite(content, targets, html)
  {
    var once := Overwrite(content, targets, html);
    var twice := Overwrite(once, targets, html);
    assert twice.Keys == once.Keys;
    forall k | k in once ensures twice[k] == once[k] { }
  }

  /** Two writes of the same html, one after the other, write the union. */
  lemma OverwriteUnion(content: map<NodeId, Markup>, a: set<NodeId>, b: set<NodeId>, html: Markup)
    ensures Overwrite(Overwrite(content, a, html), b, html) == Overwrite(content, a + b, html)
  {
    var lhs := Overwrite(Overwrite(content, a, html), b, html);
    var rhs := Overwrite(content, a + b, html);
    assert lhs.Keys == rhs.Keys;
    forall k | k in lhs ensures lhs[k] == rhs[k] { }
  }

  /** Of two writes to the same targets, the later one wins. */
  lemma OverwriteLastWins(content: map<NodeId, Markup>, targets: set<NodeId>, first: Markup, second: Markup)
    ensures Overwrite(Overwrite(content, targets, first), targets, second) == Overwrite(content, targets, second)
  {
    var lhs := Overwrite(Overwrite(content, targets, first), targets, second);
    var rhs := Overwrite(content, targets, second);
    assert lhs.Keys == rhs.Keys;
    forall k | k in lhs ensures lhs[k] == rhs[k] { }
  }

  lemma OverwriteNothing(content: map<NodeId, Markup>, html: Markup)
    ensures Overwrite(content, {}, html) == content
  {
  }

  lemma ElementsSnoc(s: seq<NodeId>, i: nat)
    requires i < |s|
    ensures Elements(s[..i + 1]) == Elements(s[..i]) + {s[i]}
  {
    assert s[..i + 1] == s[..i] + [s[i]];
  }

  /** The document: the innerHTML of every element, the element ids and the mirror
      regions (`.gd-b2b-price-update`) in document order. */
  class Page {
    var content: map<NodeId, Markup>
    var elementIds: map<string, NodeId>
    var mirrors: seq<NodeId>

    ghost predicate Valid()
      reads this
    {
      (forall id :: id in elementIds ==> elementIds[id] in content) &&
      (forall i :: 0 <= i < |mirrors| ==> mirrors[i] in content)
    }

    constructor (content: map<NodeId, Markup>, elementIds: map<string, NodeId>, mirrors: seq<NodeId>)
      requires forall id :: id in elementIds ==> elementIds[id] in content
      requires forall i :: 0 <= i < |mirrors| ==> mirrors[i] in content
      ensures Valid()
      ensures this.content == content && this.elementIds == elementIds && this.mirrors == mirrors
    {
      this.content := content;
      this.elementIds := elementIds;
      this.mirrors := mirrors;
    }

    /** `document.getElementById(id)` */
    function GetElementById(id: string): (n: Option<NodeId>)
      reads this`elementIds
      ensures n.Some? <==> id in elementIds
      ensures Valid() && n.Some? ==> n.value in content
    {
      if id in elementIds then Some(elementIds[id]) else None
    }

    /** `updateTarget(container, html)`: a null container is skipped. */
    method UpdateTarget(container: Option<NodeId>, html: Markup)
      requires container.Some? ==> container.value in content
      modifies this`content
      ensures content == Overwrite(old(content), OptionSet(container), html)
    {
      if container.Some? {
        content := content[container.value := html];
      }
    }

    /** `list.forEach(el => updateTarget(el, html))` over elements of the document. */
    method UpdateAll(targets: seq<NodeId>, html: Markup)
      requires forall i :: 0 <= i < |targets| ==> targets[i] in content
      modifies this`content
      ensures content == Overwrite(old(content), Elements(targets), html)
    {
      var i := 0;
      OverwriteNothing(content, html);
      while i < |targets|
        invariant 0 <= i <= |targets|
        invariant content == Overwrite(old(content), Elements(targets[..i]), html)
      {
        UpdateTarget(Some(targets[i]), html);
        OverwriteUnion(old(content), Elements(targets[..i]), {targets[i]}, html);
        ElementsSnoc(targets, i);
        i := i + 1;
      }
      assert targets[..i] == targets;
    }
  }

  // ---------------------------------------------------------------------------
  // Inserted nodes

  /** A node of `mutation.addedNodes`: a non-element (text, comment), or an element
      with whether it is itself a mirror and its mirror descendants in document order. */
  datatype AddedNode =
    | NonElement
    | Element(node: NodeId, isMirror: bool, mirrorDescendants: seq<NodeId>)

  /** The regions the observer backfills for one added node: the node itself when it
      is a mirror, otherwise its mirror descendants (`if ... else if`). */
  function NodeTargets(n: AddedNode): set<NodeId>
  {
    match n
    case NonElement => {}
    case Element(id, isMirror, descendants) => if isMirror then {id} else Elements(descendants)
  }

  function NodesTargets(nodes: seq<AddedNode>): set<NodeId>
  {
    if nodes == [] then {} else NodesTargets(nodes[..|nodes| - 1]) + NodeTargets(nodes[|nodes| - 1])
  }

  function MutationsTargets(mutations: seq<seq<AddedNode>>): set<NodeId>
  {
    if mutations == [] then {}
    else MutationsTargets(mutations[..|mutations| - 1]) + NodesTargets(mutations[|mutations| - 1])
  }

  /** Exactly the mirrors among the added elements and, for added elements that are not
      mirrors, their mirror descendants. */
  lemma {:induction false} NodesTargetsMembers(nodes: seq<AddedNode>, x: NodeId)
    ensures x in NodesTargets(nodes) <==>
      exists i :: 0 <= i < |nodes| && nodes[i].Element? &&
        (if nodes[i].isMirror then x == nodes[i].node else x in nodes[i].mirrorDescendants)
  {
    if nodes != [] {
      var init := nodes[..|nodes| - 1];
      NodesTargetsMembers(init, x);
      forall i | 0 <= i < |init| ensures init[i] == nodes[i] { }
    }
  }

  // ---------------------------------------------------------------------------
  // One block

  /** The fragment a block shows after its first render: `currentHtml` starts as ''
      and the first render replaces it unless the selected variant is unknown or the
      template throws. */
  function BootHtml(config: BlockConfig): Markup
  {
    var r := Resolve(config, config.selectedVariantId);
    if r.Rendered? then r.markup else Raw("")
  }

  /** The regions updatePriceDisplay of block blockId writes: the block's own container,
      when the document has it, and every mirror present now. */
  function Targets(blockId: string, elementIds: map<string, NodeId>, mirrors: seq<NodeId>): (r: set<NodeId>)
    ensures forall x :: x in r <==>
      x in mirrors || (ContainerPrefix + blockId in elementIds && x == elementIds[ContainerPrefix + blockId])
  {
    (if ContainerPrefix + blockId in elementIds then {elementIds[ContainerPrefix + blockId]} else {}) + Elements(mirrors)
  }

  /** The same regions, read from the document; all of them are elements of it. */
  function RegionTargets(blockId: string, page: Page): (r: set<NodeId>)
    reads page`elementIds, page`mirrors
    ensures Elements(page.mirrors) <= r
    ensures page.GetElementById(ContainerPrefix + blockId).Some? ==>
      page.GetElementById(ContainerPrefix + blockId).value in r
    ensures page.Valid() ==> r <= page.content.Keys
  {
    Targets(blockId, page.elementIds, page.mirrors)
  }

  /** The document after the first render of config, for a document with the given
      element ids and mirrors. */
  function BootWrite(content: map<NodeId, Markup>, config: BlockConfig, elementIds: map<string, NodeId>, mirrors: seq<NodeId>): map<NodeId, Markup>
  {
    var r := Resolve(config, config.selectedVariantId);
    if r.Rendered? then Overwrite(content, Targets(config.blockId, elementIds, mirrors), r.markup) else content
  }

  /** The document after the first renders of configs, in order. */
  function BootWrites(content: map<NodeId, Markup>, configs: seq<BlockConfig>, elementIds: map<string, NodeId>, mirrors: seq<NodeId>): map<NodeId, Markup>
  {
    if configs == [] then content
    else BootWrite(BootWrites(content, configs[..|configs| - 1], elementIds, mirrors), configs[|configs| - 1], elementIds, mirrors)
  }

  /** The first render does not throw: the interval and the observer get installed. */
  predicate BootsLive(config: BlockConfig)
  {
    !Resolve(config, config.selectedVariantId).Failed?
  }

  /** What one `initB2BPrice(config)` call keeps: the closure's `currentVariantId` and
      `currentHtml` (one instance per call, shared with nobody), and whether the interval
      and observer were installed. */
  class Engine {
    const config: BlockConfig
    var currentVariantId: string
    var currentHtml: Markup
    var live: bool

    /** currentHtml is the initial '' or the fragment of some variant of this block. */
    ghost predicate Valid()
      reads this
    {
      currentHtml == Raw("") || exists v :: Resolve(config, v) == Rendered(currentHtml)
    }

    /** When the current variant is rendered at all, currentHtml is its fragment. */
    ghost predicate Tracks()
      reads this
    {
      Resolve(config, currentVariantId).Rendered? ==> currentHtml == Resolve(config, currentVariantId).markup
    }

    /** `initB2BPrice(config)`: `currentHtml = ''`, `currentVariantId = selectedVariantId`,
        the first updatePriceDisplay, then the interval and the observer, which a throw
        of the first render prevents. */
    constructor (config: BlockConfig, page: Page)
      requires page.Valid()
      modifies page`content
      ensures this.config == config && currentVariantId == config.selectedVariantId
      ensures currentHtml == BootHtml(config) && live == BootsLive(config)
      ensures Valid() && Tracks() && page.Valid()
      ensures page.content == BootWrite(old(page.content), config, page.elementIds, page.mirrors)
    {
      this.config := config;
      currentVariantId := config.selectedVariantId;
      currentHtml := Raw("");
      live := false;
      new;
      var r := UpdatePriceDisplay(currentVariantId, page);
      live := !r.Failed?;
    }

    /** `updatePriceDisplay(variantId)`. An unknown variant returns at once; a template
        without placeholder throws while the html is built, before anything is written;
        otherwise currentHtml is set first and then the container and every mirror get it. */
    method UpdatePriceDisplay(variantId: string, page: Page) returns (r: Resolution)
      requires Valid() && page.Valid()
      modifies this`currentHtml, page`content
      ensures r == Resolve(config, variantId)
      ensures Valid() && page.Valid()
      ensures r.Rendered? ==> (currentHtml == r.markup &&
        page.content == Overwrite(old(page.content), RegionTargets(config.blockId, page), r.markup))
      ensures !r.Rendered? ==> (currentHtml == old(currentHtml) && page.content == old(page.content))
    {
      r := Resolve(config, variantId);
      if r.Rendered? {
        currentHtml := r.markup;
        WriteRegions(r.markup, page);
      }
    }

    /** The writes of updatePriceDisplay once html is built: `updateTarget(internal, html)`
        and then `externals.forEach(el => updateTarget(el, html))`. */
    method WriteRegions(html: Markup, page: Page)
      requires page.Valid()
      modifies page`content
      ensures page.Valid()
      ensures page.content == Overwrite(old(page.content), RegionTargets(config.blockId, page), html)
    {
      var internal := page.GetElementById(ContainerPrefix + config.blockId);
      page.UpdateTarget(internal, html);
      page.UpdateAll(page.mirrors, html);
      OverwriteUnion(old(page.content), OptionSet(internal), Elements(page.mirrors), html);
    }

    /** The interval callback with `params.get('variant')` = urlVariant: a non-empty value
        other than currentVariantId becomes currentVariantId and is rendered; currentVariantId
        changes even when the render then finds no record or throws. */
    method Tick(urlVariant: Option<string>, page: Page)
      requires Valid() && Tracks() && live && page.Valid()
      modifies this`currentVariantId, this`currentHtml, page`content
      ensures Valid() && Tracks() && page.Valid()
      ensures var changed := urlVariant.Some? && urlVariant.value != "" && urlVariant.value != old(currentVariantId);
        var r := Resolve(config, if changed then urlVariant.value else old(currentVariantId));
        currentVariantId == (if changed then urlVariant.value else old(currentVariantId)) &&
        (changed && r.Rendered? ==>
          currentHtml == r.markup && page.content == Overwrite(old(page.content), RegionTargets(config.blockId, page), r.markup)) &&
        (!changed || !r.Rendered? ==> currentHtml == old(currentHtml) && page.content == old(page.content))
    {
      if urlVariant.Some? && urlVariant.value != "" && urlVariant.value != currentVariantId {
        currentVariantId := urlVariant.value;
        var _ := UpdatePriceDisplay(urlVariant.value, page);
      }
    }

    /** Backfill for one added node: `updateTarget(node, currentHtml)` when it is a
        mirror, else `updateTarget(child, currentHtml)` for each mirror descendant. */
    method BackfillNode(n: AddedNode, page: Page)
      requires NodeTargets(n) <= page.content.Keys
      modifies page`content
      ensures page.content == Overwrite(old(page.content), NodeTargets(n), currentHtml)
    {
      match n
      case NonElement =>
        OverwriteNothing(page.content, currentHtml);
      case Element(id, isMirror, children) =>
        if isMirror {
          page.UpdateTarget(Some(id), currentHtml);
        } else {
          page.UpdateAll(children, currentHtml);
        }
    }

    /** `mutation.addedNodes.forEach(...)` for one mutation record. */
    method BackfillNodes(nodes: seq<AddedNode>, page: Page)
      requires NodesTargets(nodes) <= page.content.Keys
      modifies page`content
      ensures page.content == Overwrite(old(page.content), NodesTargets(nodes), currentHtml)
    {
      var i := 0;
      OverwriteNothing(page.content, currentHtml);
      while i < |nodes|
        invariant 0 <= i <= |nodes|
        invariant page.content == Overwrite(old(page.content), NodesTargets(nodes[..i]), currentHtml)
      {
        assert nodes[..i + 1][..i] == nodes[..i];
        NodesTargetsPrefix(nodes, i + 1);
        BackfillNode(nodes[i], page);
        OverwriteUnion(old(page.content), NodesTargets(nodes[..i]), NodeTargets(nodes[i]), currentHtml);
        i := i + 1;
      }
      assert nodes[..i] == nodes;
    }

    /** The observer callback: every added node of every mutation record is backfilled
        with currentHtml as it is, without a new resolution; nothing else changes. */
    method Insert(mutations: seq<seq<AddedNode>>, page: Page)
      requires live && MutationsTargets(mutations) <= page.content.Keys
      modifies page`content
      ensures page.content == Overwrite(old(page.content), MutationsTargets(mutations), currentHtml)
      ensures currentVariantId == old(currentVariantId) && currentHtml == old(currentHtml)
    {
      var i := 0;
      OverwriteNothing(page.content, currentHtml);
      while i < |mutations|
        invariant 0 <= i <= |mutations|
        invariant page.content == Overwrite(old(page.content), MutationsTargets(mutations[..i]), currentHtml)
      {
        assert mutations[..i + 1][..i] == mutations[..i];
        MutationsTargetsPrefix(mutations, i + 1);
        BackfillNodes(mutations[i], page);
        OverwriteUnion(old(page.content), MutationsTargets(mutations[..i]), NodesTargets(mutations[i]), currentHtml);
        i := i + 1;
      }
      assert mutations[..i] == mutations;
    }
  }

  lemma NodesTargetsPrefix(nodes: seq<AddedNode>, k: nat)
    requires 0 < k <= |nodes|
    ensures NodesTargets(nodes[..k]) == NodesTargets(nodes[..k - 1]) + NodeTargets(nodes[k - 1])
    ensures NodesTargets(nodes[..k]) <= NodesTargets(nodes)
  {
    var p := nodes[..k];
    assert p[..|p| - 1] == nodes[..k - 1];
    NodesTargetsGrow(nodes, k);
  }

  lemma {:induction false} NodesTargetsGrow(nodes: seq<AddedNode>, k: nat)
    requires k <= |nodes|
    ensures NodesTargets(nodes[..k]) <= NodesTargets(nodes)
    decreases |nodes| - k
  {
    if k < |nodes| {
      NodesTargetsGrow(nodes, k + 1);
      var p := nodes[..k + 1];
      assert p[..|p| - 1] == nodes[..k];
    } else {
      assert nodes[..k] == nodes;
    }
  }

  lemma MutationsTargetsPrefix(mutations: seq<seq<AddedNode>>, k: nat)
    requires 0 < k <= |mutations|
    ensures MutationsTargets(mutations[..k]) == MutationsTargets(mutations[..k - 1]) + NodesTargets(mutations[k - 1])
    ensures MutationsTargets(mutations[..k]) <= MutationsTargets(mutations)
  {
    var p := mutations[..k];
    assert p[..|p| - 1] == mutations[..k - 1];
    MutationsTargetsGrow(mutations, k);
  }

  lemma {:induction false} MutationsTargetsGrow(mutations: seq<seq<AddedNode>>, k: nat)
    requires k <= |mutations|
    ensures MutationsTargets(mutations[..k]) <= MutationsTargets(mutations)
    decreases |mutations| - k
  {
    if k < |mutations| {
      MutationsTargetsGrow(mutations, k + 1);
      var p := mutations[..k + 1];
      assert p[..|p| - 1] == mutations[..k];
    } else {
      assert mutations[..k] == mutations;
    }
  }

  // ---------------------------------------------------------------------------
  // The registry

  /** e is the state initB2BPrice(c) leaves behind. */
  ghost predicate Booted(e: Engine, c: BlockConfig)
    reads e
  {
    e.config == c && e.currentVariantId == c.selectedVariantId &&
    e.currentHtml == BootHtml(c) && e.live == BootsLive(c)
  }

  /** es[i] is the state initB2BPrice(cs[i]) leaves behind, for every i < |es|. */
  ghost predicate AllBooted(es: seq<Engine>, cs: seq<BlockConfig>)
    reads es
  {
    |es| <= |cs| && (es == [] || (AllBooted(es[..|es| - 1], cs) && Booted(es[|es| - 1], cs[|es| - 1])))
  }

  /** A freshly initialised instance keeps the engine's invariants. */
  lemma BootedIsValid(e: Engine, c: BlockConfig)
    requires Booted(e, c)
    ensures e.Valid() && e.Tracks()
  {
    if Resolve(c, c.selectedVariantId).Rendered? {
      assert Resolve(e.config, c.selectedVariantId) == Rendered(e.currentHtml);
    }
  }

  /** `window.b2bPriceConfigs` and the instances initB2BPrice created from it. Before the
      script runs, blocks push onto a plain array; the script then initialises the
      pre-seeded configs in order and, when none of those first renders throws, replaces
      `push` so that every later config is appended and then initialised. */
  class Registry {
    var configs: seq<BlockConfig>
    var engines: seq<Engine>
    var started: bool
    var intercepting: bool

    /** engines[i] was created from configs[i], each instance is its own object, and
        once push is replaced every config has its instance. */
    ghost predicate Valid()
      reads this
    {
      |engines| <= |configs| &&
      (forall i :: 0 <= i < |engines| ==> engines[i].config == configs[i]) &&
      (forall i, j :: 0 <= i < j < |engines| ==> engines[i] != engines[j]) &&
      (intercepting ==> started && |engines| == |configs|) &&
      (!started ==> engines == [] && !intercepting)
    }

    /** `window.b2bPriceConfigs = window.b2bPriceConfigs || []` before any block pushed. */
    constructor ()
      ensures Valid() && configs == [] && engines == [] && !started && !intercepting
    {
      configs := [];
      engines := [];
      started := false;
      intercepting := false;
    }

    /** `window.b2bPriceConfigs.push(config)`: appended always; initialised at once when
        push is the replaced one. A throw of that first render reaches the pusher but
        leaves the config appended and push replaced. */
    method Register(config: BlockConfig, page: Page) returns (e: Option<Engine>)
      requires Valid() && page.Valid()
      modifies this`configs, this`engines, page`content
      ensures Valid() && page.Valid()
      ensures configs == old(configs) + [config]
      ensures e.Some? <==> intercepting
      ensures e.None? ==> engines == old(engines) && page.content == old(page.content)
      ensures e.Some? ==> (fresh(e.value) && engines == old(engines) + [e.value] && Booted(e.value, config) &&
        page.content == BootWrite(old(page.content), config, page.elementIds, page.mirrors))
    {
      configs := configs + [config];
      if intercepting {
        var engine := new Engine(config, page);
        engines := engines + [engine];
        e := Some(engine);
      } else {
        e := None;
      }
    }

    /** The script runs: `b2bPriceConfigs.forEach(initB2BPrice)`, which stops at the first
        first render that throws (the exception leaves the script, so push stays the
        plain one); otherwise push is replaced. */
    method Start(page: Page)
      requires Valid() && page.Valid() && !started
      modifies this`engines, this`started, this`intercepting, page`content
      ensures Valid() && page.Valid() && started && configs == old(configs)
      ensures AllBooted(engines, configs) && forall i :: 0 <= i < |engines| ==> fresh(engines[i])
      ensures forall i :: 0 <= i < |engines| - 1 ==> engines[i].live
      ensures |engines| < |configs| ==> 0 < |engines| && !engines[|engines| - 1].live
      ensures intercepting <==> |engines| == |configs| && (|engines| == 0 || engines[|engines| - 1].live)
      ensures page.content == BootWrites(old(page.content), configs[..|engines|], page.elementIds, page.mirrors)
    {
      started := true;
      var ok := BootAll(page);
      intercepting := ok && |engines| == |configs|;
    }

    /** The forEach itself: instances for configs in order, up to and including the
        first one whose first render throws. */
    method BootAll(page: Page) returns (ok: bool)
      requires engines == [] && page.Valid()
      modifies this`engines, page`content
      ensures |engines| <= |configs| && page.Valid()
      ensures forall i :: 0 <= i < |engines| ==> engines[i].config == configs[i]
      ensures AllBooted(engines, configs) && forall i :: 0 <= i < |engines| ==> fresh(engines[i])
      ensures forall i, j :: 0 <= i < j < |engines| ==> engines[i] != engines[j]
      ensures forall i :: 0 <= i < |engines| - 1 ==> engines[i].live
      ensures ok <==> |engines| == 0 || engines[|engines| - 1].live
      ensures |engines| < |configs| ==> !ok
      ensures page.content == BootWrites(old(page.content), configs[..|engines|], page.elementIds, page.mirrors)
    {
      ok := true;
      var i := 0;
      while i < |configs| && ok
        invariant 0 <= i <= |configs| && |engines| == i
        invariant forall j :: 0 <= j < i ==> engines[j].config == configs[j]
        invariant AllBooted(engines, configs) && forall j :: 0 <= j < i ==> fresh(engines[j])
        invariant forall j :: 0 <= j < i - 1 ==> engines[j].live
        invariant ok <==> i == 0 || engines[i - 1].live
        invariant forall j, k :: 0 <= j < k < i ==> engines[j] != engines[k]
        invariant page.Valid()
        invariant page.content == BootWrites(old(page.content), configs[..i], page.elementIds, page.mirrors)
      {
        var engine := Boot(old(page.content), page);
        ok := engine.live;
        i := i + 1;
      }
    }

    /** The poll of instance k fires: its own state and the document change as Tick says,
        and every other instance keeps its currentVariantId and currentHtml. */
    method TickEngine(k: nat, urlVariant: Option<string>, page: Page)
      requires Valid() && k < |engines| && page.Valid()
      requires engines[k].Valid() && engines[k].Tracks() && engines[k].live
      modifies engines[k], page`content
      ensures Valid() && page.Valid() && engines == old(engines)
      ensures engines[k].Valid() && engines[k].Tracks() && engines[k].live == old(engines[k].live)
      ensures var e := engines[k];
        var changed := urlVariant.Some? && urlVariant.value != "" && urlVariant.value != old(e.currentVariantId);
        var r := Resolve(e.config, if changed then urlVariant.value else old(e.currentVariantId));
        e.currentVariantId == (if changed then urlVariant.value else old(e.currentVariantId)) &&
        (changed && r.Rendered? ==>
          e.currentHtml == r.markup && page.content == Overwrite(old(page.content), RegionTargets(e.config.blockId, page), r.markup)) &&
        (!changed || !r.Rendered? ==> e.currentHtml == old(e.currentHtml) && page.content == old(page.content))
      ensures forall j :: 0 <= j < |engines| && j != k ==>
        engines[j].currentVariantId == old(engines[j].currentVariantId) &&
        engines[j].currentHtml == old(engines[j].currentHtml)
    {
      engines[k].Tick(urlVariant, page);
    }

    /** One `initB2BPrice(config)` of the forEach: the next config gets its instance, and
        the document has gone through one more first render. */
    method Boot(ghost initial: map<NodeId, Markup>, page: Page) returns (engine: Engine)
      requires |engines| < |configs| && page.Valid()
      requires forall j :: 0 <= j < |engines| ==> engines[j].config == configs[j]
      requires AllBooted(engines, configs)
      requires page.content == BootWrites(initial, configs[..|engines|], page.elementIds, page.mirrors)
      modifies this`engines, page`content
      ensures fresh(engine) && engines == old(engines) + [engine] && page.Valid()
      ensures forall j :: 0 <= j < |engines| ==> engines[j].config == configs[j]
      ensures AllBooted(engines, configs)
      ensures page.content == BootWrites(initial, configs[..|engines|], page.elementIds, page.mirrors)
    {
      BootWritesStep(initial, configs, |engines|, page.elementIds, page.mirrors);
      engine := new Engine(configs[|engines|], page);
      ghost var before := engines;
      engines := engines + [engine];
      assert engines[..|engines| - 1] == before;
    }
  }

  lemma BootWritesStep(content: map<NodeId, Markup>, configs: seq<BlockConfig>, i: nat, elementIds: map<string, NodeId>, mirrors: seq<NodeId>)
    requires i < |configs|
    ensures BootWrites(content, configs[..i + 1], elementIds, mirrors)
         == BootWrite(BootWrites(content, configs[..i], elementIds, mirrors), configs[i], elementIds, mirrors)
  {
    var p := configs[..i + 1];
    assert p[..|p| - 1] == configs[..i];
  }
}
