/**
 * The category-tree builder `scrapeCategories` (backend/src/scraper.ts).
 *
 * The browser is replaced by a snapshot of the rendered home page: the
 * elements the `nav` and `header ul` selectors match, in document order,
 * and for each link its inner text, its `href` attribute (if any) and the
 * links the sub-menu selector returns after the hover. URL resolution,
 * `new URL(href, homeUrl).href`, is a parameter: `None` stands for the
 * `TypeError` it throws on an invalid URL, which the scraper does not catch.
 */
module Categories {
  import opened Wrappers
  import opened Text

  /** An anchor element as the scraper reads it. */
  datatype Link = Link(text: string, href: Option<string>, subLinks: seq<Link>)

  /** A navigation root; `links` is what the `:scope a` query returns on it. */
  datatype NavElement = NavElement(links: seq<Link>)

  /** The rendered home page: every `nav` and every `header ul`, in document order. */
  datatype HomePage = HomePage(navs: seq<NavElement>, headerLists: seq<NavElement>)

  /** `CatNode`; `children` is `None` where the scraper leaves it `undefined`. */
  datatype CatNode = CatNode(labelText: string, url: string, children: Option<seq<CatNode>>)

  /** Why `scrapeCategories` throws. */
  datatype ScrapeError = NavigationNotFound | InvalidUrl

  /** `new URL(href, base).href`, or `None` where the constructor throws. */
  type Resolver = (string, string) -> Option<string>

  /** Top level, second level and leaves: the walk never goes deeper. */
  const MaxDepth: nat := 3
  const MinLabel: nat := 2
  const MaxTopLabel: nat := 40
  const MaxSubLabel: nat := 60
  /** The href a top-level link without an `href` attribute gets. */
  const RootHref: string := "/"

  /** `page.$('nav') ?? page.$('header ul')`: the first `nav`, else the first `header ul`. */
  function FindNav(page: HomePage): Option<NavElement> {
    if page.navs != [] then Some(page.navs[0])
    else if page.headerLists != [] then Some(page.headerLists[0])
    else None
  }

  /** The longest label kept at `depth` (1 is the top level). */
  function MaxLabel(depth: nat): nat {
    if depth == 1 then MaxTopLabel else MaxSubLabel
  }

  /** The length test a trimmed label must pass at `depth`, in UTF-16 code units. */
  predicate LabelFits(caption: string, depth: nat) {
    MinLabel <= Utf16Length(caption) <= MaxLabel(depth)
  }

  /** `nodes.length ? nodes : undefined`. */
  function Children(nodes: seq<CatNode>): Option<seq<CatNode>> {
    if |nodes| > 0 then Some(nodes) else None
  }

  /**
   * The nodes one loop of the walk pushes for `links` at `depth`, where a
   * link without `href` falls back to `fallback`; `None` when a URL fails
   * to resolve. Defined on the prefix and the last link, as the loop runs.
   */
  function Level(links: seq<Link>, depth: nat, fallback: string, homeUrl: string, resolve: Resolver): Option<seq<CatNode>>
    requires 1 <= depth <= MaxDepth
    decreases MaxDepth - depth, 1, |links|
  {
    if links == [] then Some([])
    else
      var prefix := Level(links[..|links| - 1], depth, fallback, homeUrl, resolve);
      var last := links[|links| - 1];
      if prefix.None? then None
      else if !LabelFits(Trim(last.text), depth) then prefix
      else
        match Node(last, depth, fallback, homeUrl, resolve)
        case None => None
        case Some(n) => Some(prefix.value + [n])
  }

  /**
   * The node pushed for a link that passed the label test: its own href is
   * the attribute or the fallback, and below the last level its children
   * are the next level walked with that href as their fallback.
   */
  function Node(link: Link, depth: nat, fallback: string, homeUrl: string, resolve: Resolver): Option<CatNode>
    requires 1 <= depth <= MaxDepth
    decreases MaxDepth - depth, 0
  {
    var href := link.href.GetOr(fallback);
    var kids := if depth < MaxDepth then Level(link.subLinks, depth + 1, href, homeUrl, resolve) else Some([]);
    match kids
    case None => None
    case Some(nodes) =>
      match resolve(href, homeUrl)
      case None => None
      case Some(url) => Some(CatNode(Trim(link.text), url, Children(nodes)))
  }

  /** What `scrapeCategories(homeUrl)` returns or throws for a page. */
  function CategoryTree(page: HomePage, homeUrl: string, resolve: Resolver): Result<seq<CatNode>, ScrapeError> {
    match FindNav(page)
    case None => Err(NavigationNotFound)
    case Some(nav) =>
      match Level(nav.links, 1, RootHref, homeUrl, resolve)
      case None => Err(InvalidUrl)
      case Some(tree) => Ok(tree)
  }

  /** The innermost loop: the leaves under one second-level link. */
  method CollectLeafNodes(leafLinks: seq<Link>, subHref: string, homeUrl: string, resolve: Resolver)
    returns (r: Option<seq<CatNode>>)
    ensures r == Level(leafLinks, MaxDepth, subHref, homeUrl, resolve)
  {
    var leafNodes: seq<CatNode> := [];
    for k := 0 to |leafLinks|
      invariant Level(leafLinks[..k], MaxDepth, subHref, homeUrl, resolve) == Some(leafNodes)
    {
      var t := leafLinks[k];
      var txt := Trim(t.text);
      LevelStep(leafLinks, k, MaxDepth, subHref, homeUrl, resolve);
      if LabelFits(txt, MaxDepth) {
        var href := t.href.GetOr(subHref);
        var url := resolve(href, homeUrl);
        if url.None? {
          LevelFailsFromPrefix(leafLinks, k + 1, MaxDepth, subHref, homeUrl, resolve);
          return None;
        }
        leafNodes := leafNodes + [CatNode(txt, url.value, None)];
      }
    }
    assert leafLinks[..|leafLinks|] == leafLinks;
    return Some(leafNodes);
  }

  /** The middle loop: the second-level nodes under one top-level link. */
  method CollectSubNodes(subLinks: seq<Link>, mainHref: string, homeUrl: string, resolve: Resolver)
    returns (r: Option<seq<CatNode>>)
    ensures r == Level(subLinks, 2, mainHref, homeUrl, resolve)
  {
    var subNodes: seq<CatNode> := [];
    for j := 0 to |subLinks|
      invariant Level(subLinks[..j], 2, mainHref, homeUrl, resolve) == Some(subNodes)
    {
      var s := subLinks[j];
      var subText := Trim(s.text);
      LevelStep(subLinks, j, 2, mainHref, homeUrl, resolve);
      if LabelFits(subText, 2) {
        var subHref := s.href.GetOr(mainHref);
        var leafNodes := CollectLeafNodes(s.subLinks, subHref, homeUrl, resolve);
        var url := if leafNodes.Some? then resolve(subHref, homeUrl) else None;
        if url.None? {
          NodeFails(s, 2, mainHref, homeUrl, resolve);
          LevelFailsFromPrefix(subLinks, j + 1, 2, mainHref, homeUrl, resolve);
          return None;
        }
        var node := CatNode(subText, url.value, Children(leafNodes.value));
        NodeBuilt(s, 2, mainHref, homeUrl, resolve, leafNodes.value, url.value);
        subNodes := subNodes + [node];
      }
    }
    assert subLinks[..|subLinks|] == subLinks;
    return Some(subNodes);
  }

  /** `scrapeCategories`: locate the navigation root, then the outer loop over its links. */
  method ScrapeCategories(page: HomePage, homeUrl: string, resolve: Resolver)
    returns (r: Result<seq<CatNode>, ScrapeError>)
    ensures r == CategoryTree(page, homeUrl, resolve)
  {
    var nav := FindNav(page);
    if nav.None? {
      return Err(NavigationNotFound);
    }
    var mainLinks := nav.value.links;
    var tree: seq<CatNode> := [];
    for i := 0 to |mainLinks|
      invariant Level(mainLinks[..i], 1, RootHref, homeUrl, resolve) == Some(tree)
    {
      var link := mainLinks[i];
      var mainText := Trim(link.text);
      LevelStep(mainLinks, i, 1, RootHref, homeUrl, resolve);
      if LabelFits(mainText, 1) {
        var mainHref := link.href.GetOr(RootHref);
        var subNodes := CollectSubNodes(link.subLinks, mainHref, homeUrl, resolve);
        var url := if subNodes.Some? then resolve(mainHref, homeUrl) else None;
        if url.None? {
          NodeFails(link, 1, RootHref, homeUrl, resolve);
          LevelFailsFromPrefix(mainLinks, i + 1, 1, RootHref, homeUrl, resolve);
          return Err(InvalidUrl);
        }
        var node := CatNode(mainText, url.value, Children(subNodes.value));
        NodeBuilt(link, 1, RootHref, homeUrl, resolve, subNodes.value, url.value);
        tree := tree + [node];
      }
    }
    assert mainLinks[..|mainLinks|] == mainLinks;
    return Ok(tree);
  }

  /** Once a prefix of a level fails to resolve, the whole level fails. */
  lemma {:induction false} LevelFailsFromPrefix(links: seq<Link>, n: nat, depth: nat, fallback: string, homeUrl: string, resolve: Resolver)
    requires 1 <= depth <= MaxDepth
    requires n <= |links|
    requires Level(links[..n], depth, fallback, homeUrl, resolve).None?
    ensures Level(links, depth, fallback, homeUrl, resolve).None?
    decreases |links| - n
  {
    if n < |links| {
      assert links[..n + 1][..n] == links[..n];
      LevelFailsFromPrefix(links, n + 1, depth, fallback, homeUrl, resolve);
    } else {
      assert links[..n] == links;
    }
  }

  /** A node above the last level is built from its resolved href and its walked children. */
  lemma NodeBuilt(link: Link, depth: nat, fallback: string, homeUrl: string, resolve: Resolver, kids: seq<CatNode>, url: string)
    requires 1 <= depth < MaxDepth
    requires Level(link.subLinks, depth + 1, link.href.GetOr(fallback), homeUrl, resolve) == Some(kids)
    requires resolve(link.href.GetOr(fallback), homeUrl) == Some(url)
    ensures Node(link, depth, fallback, homeUrl, resolve) == Some(CatNode(Trim(link.text), url, Children(kids)))
  {
  }

  /** A node above the last level fails when its children or its own href fail to resolve. */
  lemma NodeFails(link: Link, depth: nat, fallback: string, homeUrl: string, resolve: Resolver)
    requires 1 <= depth < MaxDepth
    requires Level(link.subLinks, depth + 1, link.href.GetOr(fallback), homeUrl, resolve).None? ||
             resolve(link.href.GetOr(fallback), homeUrl).None?
    ensures Node(link, depth, fallback, homeUrl, resolve).None?
  {
  }

  /** One step of a level: the prefix extended by link `i`. */
  lemma LevelStep(links: seq<Link>, i: nat, depth: nat, fallback: string, homeUrl: string, resolve: Resolver)
    requires 1 <= depth <= MaxDepth && i < |links|
    ensures var prefix := Level(links[..i], depth, fallback, homeUrl, resolve);
            Level(links[..i + 1], depth, fallback, homeUrl, resolve) ==
            if prefix.None? then None
            else if !LabelFits(Trim(links[i].text), depth) then prefix
            else match Node(links[i], depth, fallback, homeUrl, resolve)
                 case None => None
                 case Some(n) => Some(prefix.value + [n])
  {
    assert links[..i + 1][..i] == links[..i];
  }

  /** The links of a level whose trimmed text passes the length test, in order. */
  function Kept(links: seq<Link>, depth: nat): seq<Link> {
    if links == [] then []
    else
      var prefix := Kept(links[..|links| - 1], depth);
      var last := links[|links| - 1];
      if LabelFits(Trim(last.text), depth) then prefix + [last] else prefix
  }

  /** A link is kept exactly when its trimmed text has an admissible length. */
  lemma {:induction false} KeptMembership(links: seq<Link>, depth: nat, link: Link)
    ensures link in Kept(links, depth) <==> link in links && LabelFits(Trim(link.text), depth)
    decreases |links|
  {
    if links != [] {
      var init := links[..|links| - 1];
      KeptMembership(init, depth, link);
      assert links == init + [links[|links| - 1]];
    }
  }

  /** Filtering keeps the document order: it distributes over concatenation. */
  lemma {:induction false} KeptAppend(a: seq<Link>, b: seq<Link>, depth: nat)
    ensures Kept(a + b, depth) == Kept(a, depth) + Kept(b, depth)
    decreases |b|
  {
    if b == [] {
      assert a + b == a;
    } else {
      var init := b[..|b| - 1];
      var last := b[|b| - 1];
      KeptAppend(a, init, depth);
      assert (a + b)[..|a + b| - 1] == a + init;
      assert (a + b)[|a + b| - 1] == last;
    }
  }

  /**
   * A level that succeeds emits exactly one node per kept link, in the
   * links' order, each the node built for that link.
   */
  lemma {:induction false} LevelMatchesKept(links: seq<Link>, depth: nat, fallback: string, homeUrl: string, resolve: Resolver)
    requires 1 <= depth <= MaxDepth
    requires Level(links, depth, fallback, homeUrl, resolve).Some?
    ensures var nodes := Level(links, depth, fallback, homeUrl, resolve).value;
            |nodes| == |Kept(links, depth)| &&
            forall k :: 0 <= k < |nodes| ==> Node(Kept(links, depth)[k], depth, fallback, homeUrl, resolve) == Some(nodes[k])
    decreases |links|
  {
    if links != [] {
      LevelMatchesKept(links[..|links| - 1], depth, fallback, homeUrl, resolve);
    }
  }

  /** A level fails to resolve exactly when the node of one of its kept links does. */
  lemma {:induction false} LevelSucceedsIff(links: seq<Link>, depth: nat, fallback: string, homeUrl: string, resolve: Resolver)
    requires 1 <= depth <= MaxDepth
    ensures Level(links, depth, fallback, homeUrl, resolve).Some? <==>
            forall link :: link in Kept(links, depth) ==> Node(link, depth, fallback, homeUrl, resolve).Some?
    decreases |links|
  {
    if links != [] {
      var init := links[..|links| - 1];
      var last := links[|links| - 1];
      LevelSucceedsIff(init, depth, fallback, homeUrl, resolve);
      if LabelFits(Trim(last.text), depth) {
        assert Kept(links, depth) == Kept(init, depth) + [last];
        assert last in Kept(links, depth);
      }
    }
  }

  /**
   * The fields of a node: the trimmed text, the URL its href (or the
   * fallback) resolves to, and below the last level the next level walked
   * with that href as fallback, `None` where it is empty.
   */
  lemma NodeFields(link: Link, depth: nat, fallback: string, homeUrl: string, resolve: Resolver)
    requires 1 <= depth <= MaxDepth
    requires Node(link, depth, fallback, homeUrl, resolve).Some?
    ensures var n := Node(link, depth, fallback, homeUrl, resolve).value;
            var href := link.href.GetOr(fallback);
            n.labelText == Trim(link.text) &&
            resolve(href, homeUrl) == Some(n.url) &&
            (depth == MaxDepth ==> n.children == None) &&
            (depth < MaxDepth ==>
               Level(link.subLinks, depth + 1, href, homeUrl, resolve).Some? &&
               n.children == Children(Level(link.subLinks, depth + 1, href, homeUrl, resolve).value))
  {
  }

  /**
   * The nodes a level emits, one per kept link and in the links' order:
   * node k is labelled with the trimmed text of the k-th kept link, and its
   * url is what that link's href, or the fallback when it has none,
   * resolves to. A leaf has no children; above the leaves a node's
   * children are the next level walked with that raw href as fallback, and
   * absent when that level is empty.
   */
  lemma LevelNodes(links: seq<Link>, depth: nat, fallback: string, homeUrl: string, resolve: Resolver)
    requires 1 <= depth <= MaxDepth
    requires Level(links, depth, fallback, homeUrl, resolve).Some?
    ensures var nodes := Level(links, depth, fallback, homeUrl, resolve).value;
            var kept := Kept(links, depth);
            |nodes| == |kept| &&
            forall k :: 0 <= k < |nodes| ==>
              nodes[k].labelText == Trim(kept[k].text) &&
              resolve(kept[k].href.GetOr(fallback), homeUrl) == Some(nodes[k].url) &&
              (depth == MaxDepth ==> nodes[k].children == None) &&
              (depth < MaxDepth ==>
                 Level(kept[k].subLinks, depth + 1, kept[k].href.GetOr(fallback), homeUrl, resolve).Some? &&
                 nodes[k].children ==
                   Children(Level(kept[k].subLinks, depth + 1, kept[k].href.GetOr(fallback), homeUrl, resolve).value))
  {
    var nodes := Level(links, depth, fallback, homeUrl, resolve).value;
    var kept := Kept(links, depth);
    LevelMatchesKept(links, depth, fallback, homeUrl, resolve);
    forall k | 0 <= k < |nodes|
      ensures nodes[k].labelText == Trim(kept[k].text) &&
              resolve(kept[k].href.GetOr(fallback), homeUrl) == Some(nodes[k].url) &&
              (depth == MaxDepth ==> nodes[k].children == None) &&
              (depth < MaxDepth ==>
                 Level(kept[k].subLinks, depth + 1, kept[k].href.GetOr(fallback), homeUrl, resolve).Some? &&
                 nodes[k].children ==
                   Children(Level(kept[k].subLinks, depth + 1, kept[k].href.GetOr(fallback), homeUrl, resolve).value))
    {
      NodeFields(kept[k], depth, fallback, homeUrl, resolve);
    }
  }

  /**
   * The roots of a returned tree: one per top-level link of the navigation
   * root whose trimmed text is 2..40 code units long, in order, labelled
   * with that text, with the url its href resolves to, `/` when it has
   * none, and with the second level walked from that raw href.
   */
  lemma TreeNodes(page: HomePage, homeUrl: string, resolve: Resolver)
    requires CategoryTree(page, homeUrl, resolve).Ok?
    ensures var tree := CategoryTree(page, homeUrl, resolve).value;
            var kept := Kept(FindNav(page).value.links, 1);
            |tree| == |kept| &&
            forall k :: 0 <= k < |tree| ==>
              tree[k].labelText == Trim(kept[k].text) &&
              resolve(kept[k].href.GetOr(RootHref), homeUrl) == Some(tree[k].url) &&
              Level(kept[k].subLinks, 2, kept[k].href.GetOr(RootHref), homeUrl, resolve).Some? &&
              tree[k].children == Children(Level(kept[k].subLinks, 2, kept[k].href.GetOr(RootHref), homeUrl, resolve).value)
  {
    LevelNodes(FindNav(page).value.links, 1, RootHref, homeUrl, resolve);
  }

  /**
   * Labels are measured in UTF-16 code units: a top-level link whose text
   * is a single character above U+FFFF, a surrogate pair of length 2, is kept,
   * and without an `href` its node gets the url of `/`.
   */
  lemma AstralLabelKept(c: char, homeUrl: string, resolve: Resolver, url: string)
    requires c > MaxBmp
    requires resolve(RootHref, homeUrl) == Some(url)
    ensures Utf16Length([c]) == 2
    ensures Level([Link([c], None, [])], 1, RootHref, homeUrl, resolve) == Some([CatNode([c], url, None)])
  {
    var link := Link([c], None, []);
    TrimUnchanged(link.text);
    assert Utf16Length(link.text) == 2;
    assert LabelFits(Trim(link.text), 1);
    assert Level(link.subLinks, 2, RootHref, homeUrl, resolve) == Some([]);
    assert Node(link, 1, RootHref, homeUrl, resolve) == Some(CatNode(link.text, url, None));
    assert [link][..0] == [];
    assert Level([link][..0], 1, RootHref, homeUrl, resolve) == Some([]);
    assert [] + [CatNode(link.text, url, None)] == [CatNode(link.text, url, None)];
  }

  /**
   * A link below the top level without an `href` inherits its parent's
   * href, so its node gets the same url as its parent's node.
   */
  lemma ChildWithoutHref(links: seq<Link>, depth: nat, fallback: string, homeUrl: string, resolve: Resolver, k: nat, j: nat)
    requires 1 <= depth < MaxDepth
    requires Level(links, depth, fallback, homeUrl, resolve).Some?
    requires k < |Kept(links, depth)| && j < |Kept(Kept(links, depth)[k].subLinks, depth + 1)|
    requires Kept(Kept(links, depth)[k].subLinks, depth + 1)[j].href.None?
    ensures var nodes := Level(links, depth, fallback, homeUrl, resolve).value;
            k < |nodes| && j < |Kids(nodes[k])| && Kids(nodes[k])[j].url == nodes[k].url
  {
    var nodes := Level(links, depth, fallback, homeUrl, resolve).value;
    var link := Kept(links, depth)[k];
    var href := link.href.GetOr(fallback);
    LevelNodes(links, depth, fallback, homeUrl, resolve);
    LevelNodes(link.subLinks, depth + 1, href, homeUrl, resolve);
    assert Kids(nodes[k]) == Level(link.subLinks, depth + 1, href, homeUrl, resolve).value;
  }

  /**
   * A node of the tree at `depth`: its label is trimmed and passes that
   * depth's length test, and its `children` are absent or a non-empty list
   * of well-formed nodes one level down, never below `MaxDepth`.
   */
  ghost predicate WellFormed(n: CatNode, depth: nat)
    decreases MaxDepth - depth
  {
    LabelFits(n.labelText, depth) && Trim(n.labelText) == n.labelText &&
    match n.children
    case None => true
    case Some(cs) => depth < MaxDepth && |cs| > 0 && forall c :: c in cs ==> WellFormed(c, depth + 1)
  }

  /** Every node a level emits is well formed at that level. */
  lemma {:induction false} LevelWellFormed(links: seq<Link>, depth: nat, fallback: string, homeUrl: string, resolve: Resolver)
    requires 1 <= depth <= MaxDepth
    requires Level(links, depth, fallback, homeUrl, resolve).Some?
    ensures forall n :: n in Level(links, depth, fallback, homeUrl, resolve).value ==> WellFormed(n, depth)
    decreases MaxDepth - depth, 1, |links|
  {
    if links != [] {
      var init := links[..|links| - 1];
      var last := links[|links| - 1];
      LevelWellFormed(init, depth, fallback, homeUrl, resolve);
      if LabelFits(Trim(last.text), depth) {
        NodeWellFormed(last, depth, fallback, homeUrl, resolve);
      }
    }
  }

  /** The node built for a kept link is well formed. */
  lemma {:induction false} NodeWellFormed(link: Link, depth: nat, fallback: string, homeUrl: string, resolve: Resolver)
    requires 1 <= depth <= MaxDepth
    requires LabelFits(Trim(link.text), depth)
    requires Node(link, depth, fallback, homeUrl, resolve).Some?
    ensures WellFormed(Node(link, depth, fallback, homeUrl, resolve).value, depth)
    decreases MaxDepth - depth, 0
  {
    NodeFields(link, depth, fallback, homeUrl, resolve);
    TrimIdempotent(link.text);
    if depth < MaxDepth {
      LevelWellFormed(link.subLinks, depth + 1, link.href.GetOr(fallback), homeUrl, resolve);
    }
  }

  /** Every root of a returned tree is well formed at the top level. */
  lemma TreeWellFormed(page: HomePage, homeUrl: string, resolve: Resolver)
    requires CategoryTree(page, homeUrl, resolve).Ok?
    ensures forall n :: n in CategoryTree(page, homeUrl, resolve).value ==> WellFormed(n, 1)
  {
    LevelWellFormed(FindNav(page).value.links, 1, RootHref, homeUrl, resolve);
  }

  /** The nodes listed under `n`, none when `children` is absent. */
  function Kids(n: CatNode): seq<CatNode> {
    n.children.GetOr([])
  }

  /**
   * A returned tree is at most three levels deep: a grandchild of a root
   * never has children, and no list of children is ever empty.
   */
  lemma TreeDepth(page: HomePage, homeUrl: string, resolve: Resolver)
    requires CategoryTree(page, homeUrl, resolve).Ok?
    ensures var tree := CategoryTree(page, homeUrl, resolve).value;
            forall n, c, g :: n in tree && c in Kids(n) && g in Kids(c) ==> g.children == None
    ensures var tree := CategoryTree(page, homeUrl, resolve).value;
            forall n :: n in tree ==> n.children != Some([]) && forall c :: c in Kids(n) ==> c.children != Some([])
  {
    TreeWellFormed(page, homeUrl, resolve);
    var tree := CategoryTree(page, homeUrl, resolve).value;
    forall n, c | n in tree && c in Kids(n)
      ensures WellFormed(c, 2) && forall g :: g in Kids(c) ==> WellFormed(g, 3)
    {
      assert WellFormed(n, 1);
    }
  }

  /**
   * The scraper throws "Navigation element not found" exactly when the page
   * has neither a `nav` nor a `header ul`.
   */
  lemma NavigationNotFoundIff(page: HomePage, homeUrl: string, resolve: Resolver)
    ensures CategoryTree(page, homeUrl, resolve) == Err(NavigationNotFound) <==>
            page.navs == [] && page.headerLists == []
  {
  }

  /**
   * The first `nav` wins: when the page has one, neither the other `nav`s
   * nor any `header ul` affect the result.
   */
  lemma FirstNavPreferred(page: HomePage, homeUrl: string, resolve: Resolver, others: seq<NavElement>, lists: seq<NavElement>)
    requires page.navs != []
    ensures CategoryTree(page, homeUrl, resolve) == CategoryTree(HomePage([page.navs[0]] + others, lists), homeUrl, resolve)
  {
  }

  /**
   * Without a `nav`, the first `header ul` is the navigation root: the other
   * `header ul`s do not affect the result.
   */
  lemma HeaderListFallback(page: HomePage, homeUrl: string, resolve: Resolver, lists: seq<NavElement>)
    requires page.navs == [] && page.headerLists != []
    ensures CategoryTree(page, homeUrl, resolve) == CategoryTree(HomePage([], [page.headerLists[0]] + lists), homeUrl, resolve)
  {
  }

  /** With a resolver that never throws, every level succeeds. */
  lemma {:induction false} LevelTotal(links: seq<Link>, depth: nat, fallback: string, homeUrl: string, resolve: Resolver)
    requires 1 <= depth <= MaxDepth
    requires forall h, b :: resolve(h, b).Some?
    ensures Level(links, depth, fallback, homeUrl, resolve).Some?
    decreases MaxDepth - depth, 1, |links|
  {
    if links != [] {
      LevelTotal(links[..|links| - 1], depth, fallback, homeUrl, resolve);
      NodeTotal(links[|links| - 1], depth, fallback, homeUrl, resolve);
    }
  }

  /** With a resolver that never throws, every node is built. */
  lemma {:induction false} NodeTotal(link: Link, depth: nat, fallback: string, homeUrl: string, resolve: Resolver)
    requires 1 <= depth <= MaxDepth
    requires forall h, b :: resolve(h, b).Some?
    ensures Node(link, depth, fallback, homeUrl, resolve).Some?
    decreases MaxDepth - depth, 0
  {
    if depth < MaxDepth {
      LevelTotal(link.subLinks, depth + 1, link.href.GetOr(fallback), homeUrl, resolve);
    }
  }

  /**
   * The only errors are the two the scraper throws: with a navigation root
   * and URLs that all resolve, it always returns a tree.
   */
  lemma TreeWhenUrlsResolve(page: HomePage, homeUrl: string, resolve: Resolver)
    requires page.navs != [] || page.headerLists != []
    requires forall h, b :: resolve(h, b).Some?
    ensures CategoryTree(page, homeUrl, resolve).Ok?
  {
    LevelTotal(FindNav(page).value.links, 1, RootHref, homeUrl, resolve);
  }
}
